/** The user handlers: registration, profile update, deletion with its
    cascade to adoptions, and the favourites list (toggle, strict remove,
    and the filtered read). */
module UserController {
  import opened Base
  import opened Seqs
  import opened AdoptionModel
  import opened PetModel
  import opened Store
  import PetController

  // ---- Registration ----

  /** `User.findOne({ $or: [{ userName }, { email }] })`. */
  function NameOrEmailIndex(users: seq<User>, userName: string, email: string): (r: Option<nat>)
    ensures r.Some? ==> r.value < |users|
                        && (users[r.value].userName == userName || users[r.value].email == email)
    ensures r.None? ==> forall u :: u in users ==> u.userName != userName && u.email != email
  {
    FirstIndex((u: User) => u.userName == userName || u.email == email, users)
  }

  /** `registerUser`: refused when any user has the name or the e-mail;
      otherwise one user is appended, with role `user` whatever the request
      says and no favourites. */
  method RegisterUser(db: Db, userName: string, email: string, password: string)
    returns (r: Response<Msg>)
    requires db.Valid()
    modifies db
    ensures db.Valid()
    ensures db.pets == old(db.pets) && db.adoptions == old(db.adoptions)
    ensures (exists u :: u in old(db.users) && (u.userName == userName || u.email == email)) ==>
              r == BadRequest(UserOrEmailExists) && unchanged(db)
    ensures (forall u :: u in old(db.users) ==> u.userName != userName && u.email != email) ==>
              && r == Ok(UserRegistered)
              && db.users == old(db.users) + [User(old(db.nextId), userName, email, password, "user", [])]
              && db.nextId == old(db.nextId) + 1
  {
    var existing := NameOrEmailIndex(db.users, userName, email);
    if existing.Some? {
      assert db.users[existing.value] in db.users;
      return BadRequest(UserOrEmailExists);
    }
    var u := User(db.nextId, userName, email, password, "user", []);
    AppendFresh(db.users, UserId, db.nextId, u);
    forall k | 0 <= k < |db.users| ensures UserNameOf(db.users[k]) != UserNameOf(u) {
      assert db.users[k] in db.users;
    }
    AppendKeepsDistinct(db.users, UserNameOf, u);
    BelowGrows(db.pets, PetId, db.nextId);
    BelowGrows(db.adoptions, AdoptionId, db.nextId);
    db.users := db.users + [u];
    db.nextId := db.nextId + 1;
    r := Ok(UserRegistered);
  }

  // ---- Update ----

  /** The `changes` object of `updateUser`: a field is present exactly when
      it will be assigned. */
  datatype UserPatch = UserPatch(email: Option<string>, password: Option<string>, role: Option<string>)

  predicate UserPatchEmpty(c: UserPatch) {
    c.email.None? && c.password.None? && c.role.None?
  }

  /** The change computation of `updateUser`: the e-mail when supplied and
      different, the password (hashed with a fresh salt, here folded into
      `hash`) whenever supplied, and the role only for an admin and only
      when supplied and different. The user name is never a change. */
  function UserChanges(u: User, isAdmin: bool, email: Option<string>, password: Option<string>,
                       role: Option<string>, hash: string -> string): (c: UserPatch)
    ensures c.email.Some? <==> Truthy(email) && email.value != u.email
    ensures c.email.Some? ==> c.email == email
    ensures c.password.Some? <==> Truthy(password)
    ensures c.password.Some? ==> c.password.value == hash(password.value)
    ensures c.role.Some? <==> isAdmin && Truthy(role) && role.value != u.role
    ensures c.role.Some? ==> c.role == role
  {
    UserPatch(
      if Truthy(email) && email.value != u.email then email else None,
      if Truthy(password) then Some(hash(password.value)) else None,
      if Truthy(role) && isAdmin && role.value != u.role then role else None)
  }

  /** `Object.assign(userToUpdate, changes)`: id, user name and favourites
      are never touched. */
  function ApplyUserPatch(u: User, c: UserPatch): (v: User)
    ensures v.id == u.id && v.userName == u.userName && v.favourites == u.favourites
    ensures v.email == (if c.email.Some? then c.email.value else u.email)
    ensures v.password == (if c.password.Some? then c.password.value else u.password)
    ensures v.role == (if c.role.Some? then c.role.value else u.role)
  {
    u.(email := if c.email.Some? then c.email.value else u.email,
       password := if c.password.Some? then c.password.value else u.password,
       role := if c.role.Some? then c.role.value else u.role)
  }

  /** A non-admin's update never changes a role, and nobody's update
      changes the user name. */
  lemma OnlyAdminsChangeRoles(u: User, email: Option<string>, password: Option<string>,
                              role: Option<string>, hash: string -> string)
    ensures ApplyUserPatch(u, UserChanges(u, false, email, password, role, hash)).role == u.role
    ensures forall isAdmin: bool ::
              ApplyUserPatch(u, UserChanges(u, isAdmin, email, password, role, hash)).userName == u.userName
  {
  }

  /** "No changes detected" exactly when the e-mail is absent or equal, no
      password came and no permitted role change was asked for. */
  lemma NoUserChangesIff(u: User, isAdmin: bool, email: Option<string>, password: Option<string>,
                         role: Option<string>, hash: string -> string)
    ensures UserPatchEmpty(UserChanges(u, isAdmin, email, password, role, hash)) <==>
              && (!Truthy(email) || email.value == u.email)
              && !Truthy(password)
              && (!isAdmin || !Truthy(role) || role.value == u.role)
  {
  }

  /** `updateUser`: the target is found by user name; a non-admin may only
      edit themself. E-mail uniqueness is not re-checked. */
  method UpdateUser(db: Db, who: Requester, userName: string, email: Option<string>,
                    password: Option<string>, role: Option<string>, hash: string -> string)
    returns (r: Response<Msg>)
    requires db.Valid()
    modifies db
    ensures db.Valid()
    ensures db.pets == old(db.pets) && db.adoptions == old(db.adoptions) && db.nextId == old(db.nextId)
    ensures |db.users| == |old(db.users)|
    ensures forall k :: 0 <= k < |db.users| ==>
              && db.users[k].id == old(db.users)[k].id
              && db.users[k].userName == old(db.users)[k].userName
              && db.users[k].favourites == old(db.users)[k].favourites
              && (db.users[k].role != old(db.users)[k].role ==> IsAdmin(who))
    ensures UserNameIndex(old(db.users), userName).None? ==> r == NotFound(UserNotFound) && unchanged(db)
    ensures UserNameIndex(old(db.users), userName).Some? ==>
              var i := UserNameIndex(old(db.users), userName).value;
              var u := old(db.users)[i];
              if !IsAdmin(who) && who.id != u.id then
                r == Forbidden(NoPermission) && unchanged(db)
              else
                var c := UserChanges(u, IsAdmin(who), email, password, role, hash);
                if UserPatchEmpty(c) then r == Ok(NoChanges) && unchanged(db)
                else r == Ok(UserUpdated) && db.users == old(db.users)[i := ApplyUserPatch(u, c)]
  {
    var found := UserNameIndex(db.users, userName);
    if found.None? {
      return NotFound(UserNotFound);
    }
    var i := found.value;
    var u := db.users[i];
    var isAdmin := IsAdmin(who);
    if !isAdmin && who.id != u.id {
      return Forbidden(NoPermission);
    }
    var changes := UserChanges(u, isAdmin, email, password, role, hash);
    if UserPatchEmpty(changes) {
      return Ok(NoChanges);
    }
    var v := ApplyUserPatch(u, changes);
    UpdateKeepsKeys(db.users, i, v, UserId);
    UpdateKeepsKeys(db.users, i, v, UserNameOf);
    db.users := db.users[i := v];
    r := Ok(UserUpdated);
  }

  // ---- Deletion ----

  /** `Adoption.deleteMany({ user: uid })`: the records of every other user
      stay, in their order. */
  function WithoutUser(adoptions: seq<Adoption>, uid: ObjectId): (r: seq<Adoption>)
    ensures forall a :: a in r <==> a in adoptions && a.user != uid
    ensures forall a: Adoption :: a.user != uid ==> multiset(r)[a] == multiset(adoptions)[a]
    ensures Subseq(r, adoptions)
  {
    Filter((a: Adoption) => a.user != uid, adoptions)
  }

  /** `deleteUser` (reachable by admins only): nobody deletes themself;
      deleting another user first deletes that user's adoption records. */
  method DeleteUser(db: Db, who: Requester, userName: string) returns (r: Response<Msg>)
    requires db.Valid() && IsAdmin(who)
    modifies db
    ensures db.Valid()
    ensures db.pets == old(db.pets) && db.nextId == old(db.nextId)
    ensures UserNameIndex(old(db.users), userName).None? ==> r == NotFound(UserNotFound) && unchanged(db)
    ensures UserNameIndex(old(db.users), userName).Some? ==>
              var i := UserNameIndex(old(db.users), userName).value;
              var uid := old(db.users)[i].id;
              if uid == who.id then
                r == Forbidden(CannotDeleteSelf) && unchanged(db)
              else
                && r == Ok(UserDeleted)
                && db.users == RemoveAt(old(db.users), i)
                && db.adoptions == WithoutUser(old(db.adoptions), uid)
                && (forall u :: u in db.users ==> u.id != uid)
                && (forall a :: a in db.adoptions ==> a.user != uid)
  {
    var found := UserNameIndex(db.users, userName);
    if found.None? {
      return NotFound(UserNotFound);
    }
    var i := found.value;
    var uid := db.users[i].id;
    if uid == who.id {
      return Forbidden(CannotDeleteSelf);
    }
    FilterKeepsKeys((a: Adoption) => a.user != uid, db.adoptions, AdoptionId, db.nextId);
    db.adoptions := WithoutUser(db.adoptions, uid);
    var rest := RemoveAt(db.users, i);
    RemoveAtKeepsKeys(db.users, i, UserId, db.nextId);
    RemoveAtKeepsDistinct(db.users, i, UserNameOf);
    forall u | u in rest ensures u.id != uid {
      var k :| 0 <= k < |rest| && rest[k] == u;
      var k' := if k < i then k else k + 1;
      assert UserId(db.users[k']) != UserId(db.users[i]);
    }
    db.users := rest;
    r := Ok(UserDeleted);
  }

  // ---- Favourites ----

  /** The list after `setFavourite`: a pet already in it is removed
      everywhere it occurs, the rest keeping their order; a pet not in it is
      appended. */
  function Toggled(favs: seq<ObjectId>, petId: ObjectId): (r: seq<ObjectId>)
    ensures petId in r <==> petId !in favs
    ensures petId !in favs ==> r == favs + [petId]
    ensures petId in favs ==> forall y :: y != petId ==> multiset(r)[y] == multiset(favs)[y]
    ensures petId in favs ==> Subseq(r, favs)
  {
    if petId in favs then RemoveAll(favs, petId) else favs + [petId]
  }

  /** Toggling a pet that is not a favourite twice gives back the very same
      list. */
  lemma ToggleTwiceFromAbsent(favs: seq<ObjectId>, petId: ObjectId)
    requires petId !in favs
    ensures Toggled(Toggled(favs, petId), petId) == favs
  {
    assert petId in favs + [petId];
    RemoveAllAbsent(favs, petId);
  }

  /** Toggling a favourite twice gives back the same members: the pet is
      appended once at the end, every duplicate of it being gone. */
  lemma ToggleTwiceFromPresent(favs: seq<ObjectId>, petId: ObjectId)
    requires petId in favs
    ensures Toggled(Toggled(favs, petId), petId) == RemoveAll(favs, petId) + [petId]
    ensures forall y :: y in Toggled(Toggled(favs, petId), petId) <==> y in favs
  {
  }

  /** Toggling keeps a favourites list free of duplicates: a pet is
      appended only when it is absent, and every copy of it is removed when
      it is present. */
  lemma ToggledKeepsNoDup(favs: seq<ObjectId>, petId: ObjectId)
    requires NoDup(favs)
    ensures NoDup(Toggled(favs, petId))
  {
    if petId in favs {
      RemoveAllKeepsNoDup(favs, petId);
    } else {
      NoDupIffCountsAtMostOne(favs);
      NoDupIffCountsAtMostOne(favs + [petId]);
      assert multiset(favs + [petId]) == multiset(favs) + multiset{petId};
    }
  }

  /** `setFavourite`. The user is looked up first, then the pet; an
      ill-formed pet id makes that lookup throw, which the handler reports
      as a server error. */
  method SetFavourite(db: Db, who: Requester, petId: ObjectId, validId: ObjectId -> bool)
    returns (r: Response<Msg>)
    requires db.Valid()
    modifies db
    ensures db.Valid()
    ensures db.pets == old(db.pets) && db.adoptions == old(db.adoptions) && db.nextId == old(db.nextId)
    ensures !validId(petId) ==> r == ServerError(ErrorSettingFavourite) && unchanged(db)
    ensures validId(petId) && UserIndex(old(db.users), who.id).None? ==>
              r == NotFound(UserNotFound) && unchanged(db)
    ensures validId(petId) && UserIndex(old(db.users), who.id).Some?
            && PetIndex(old(db.pets), petId).None? ==>
              r == NotFound(PetNotFound) && unchanged(db)
    ensures validId(petId) && UserIndex(old(db.users), who.id).Some?
            && PetIndex(old(db.pets), petId).Some? ==>
              var i := UserIndex(old(db.users), who.id).value;
              var u := old(db.users)[i];
              && r == Ok(if petId in u.favourites then FavouriteRemoved else FavouriteAdded)
              && db.users == old(db.users)[i := u.(favourites := Toggled(u.favourites, petId))]
  {
    if !validId(petId) {
      return ServerError(ErrorSettingFavourite);
    }
    var found := UserIndex(db.users, who.id);
    if found.None? {
      return NotFound(UserNotFound);
    }
    if PetIndex(db.pets, petId).None? {
      return NotFound(PetNotFound);
    }
    var i := found.value;
    var u := db.users[i];
    var v: User;
    if petId in u.favourites {
      v := u.(favourites := RemoveAll(u.favourites, petId));
      r := Ok(FavouriteRemoved);
    } else {
      v := u.(favourites := u.favourites + [petId]);
      r := Ok(FavouriteAdded);
    }
    UpdateKeepsKeys(db.users, i, v, UserId);
    UpdateKeepsKeys(db.users, i, v, UserNameOf);
    db.users := db.users[i := v];
  }

  /** `removeFavourite`: like the toggle's removal, but a pet that is not a
      favourite is an error rather than an addition. */
  method RemoveFavourite(db: Db, who: Requester, petId: ObjectId, validId: ObjectId -> bool)
    returns (r: Response<Msg>)
    requires db.Valid()
    modifies db
    ensures db.Valid()
    ensures db.pets == old(db.pets) && db.adoptions == old(db.adoptions) && db.nextId == old(db.nextId)
    ensures UserIndex(old(db.users), who.id).None? ==> r == NotFound(UserNotFound) && unchanged(db)
    ensures UserIndex(old(db.users), who.id).Some? && !validId(petId) ==>
              r == ServerError(ErrorRemovingFavourite) && unchanged(db)
    ensures UserIndex(old(db.users), who.id).Some? && validId(petId)
            && PetIndex(old(db.pets), petId).None? ==>
              r == NotFound(PetNotFound) && unchanged(db)
    ensures UserIndex(old(db.users), who.id).Some? && validId(petId)
            && PetIndex(old(db.pets), petId).Some? ==>
              var i := UserIndex(old(db.users), who.id).value;
              var u := old(db.users)[i];
              if petId !in u.favourites then
                r == BadRequest(NotInFavourites) && unchanged(db)
              else
                && r == Ok(FavouriteRemoved)
                && db.users == old(db.users)[i := u.(favourites := RemoveAll(u.favourites, petId))]
  {
    var found := UserIndex(db.users, who.id);
    if found.None? {
      return NotFound(UserNotFound);
    }
    if !validId(petId) {
      return ServerError(ErrorRemovingFavourite);
    }
    if PetIndex(db.pets, petId).None? {
      return NotFound(PetNotFound);
    }
    var i := found.value;
    var u := db.users[i];
    if petId !in u.favourites {
      return BadRequest(NotInFavourites);
    }
    var v := u.(favourites := RemoveAll(u.favourites, petId));
    UpdateKeepsKeys(db.users, i, v, UserId);
    UpdateKeepsKeys(db.users, i, v, UserNameOf);
    db.users := db.users[i := v];
    r := Ok(FavouriteRemoved);
  }

  /** What one reference populates to: its pet, or nothing when no stored
      pet has that id any more. */
  function Populated(pets: seq<Pet>, id: ObjectId): seq<Pet> {
    match PetById(pets, id)
    case None => []
    case Some(p) => [p]
  }

  /** `populate('favourites')`: each reference, in order, replaced by the pet
      it names; references to pets that no longer exist drop out. */
  function Resolve(favs: seq<ObjectId>, pets: seq<Pet>): (r: seq<Pet>)
    ensures |r| <= |favs|
  {
    if favs == [] then [] else Populated(pets, favs[0]) + Resolve(favs[1..], pets)
  }

  /** Populating returns only stored pets the list refers to, and every
      stored pet the list refers to. */
  lemma {:induction false} ResolveMembers(favs: seq<ObjectId>, pets: seq<Pet>)
    ensures forall p :: p in Resolve(favs, pets) ==> p in pets && p.id in favs
    ensures forall id :: id in favs && PetById(pets, id).Some? ==> PetById(pets, id).value in Resolve(favs, pets)
  {
    if favs != [] {
      ResolveMembers(favs[1..], pets);
      assert forall id :: id in favs && id != favs[0] ==> id in favs[1..];
      assert Resolve(favs, pets) == Populated(pets, favs[0]) + Resolve(favs[1..], pets);
    }
  }

  /** How often a pet occurs in what one reference populates to. */
  lemma PopulatedCount(pets: seq<Pet>, id: ObjectId, q: Pet)
    ensures multiset(Populated(pets, id))[q] == if id == q.id && PetById(pets, q.id) == Some(q) then 1 else 0
  {
  }

  /** Populating keeps repeats: each stored pet occurs as often as the list
      refers to its id, and no other pet occurs. */
  lemma {:induction false} ResolveCounts(favs: seq<ObjectId>, pets: seq<Pet>, q: Pet)
    ensures multiset(Resolve(favs, pets))[q] ==
              if PetById(pets, q.id) == Some(q) then multiset(favs)[q.id] else 0
  {
    if favs != [] {
      ResolveCounts(favs[1..], pets, q);
      PopulatedCount(pets, favs[0], q);
      MultisetOfCons(favs);
      ResolveCons(favs, pets);
    }
  }

  /** A non-empty list populates its head, then its tail. */
  lemma ResolveCons(favs: seq<ObjectId>, pets: seq<Pet>)
    requires favs != []
    ensures multiset(Resolve(favs, pets)) == multiset(Populated(pets, favs[0])) + multiset(Resolve(favs[1..], pets))
  {
  }

  /** Populating keeps the list order: the pets of a concatenation are the
      pets of its first part followed by those of its second part. */
  lemma {:induction false} ResolveAppend(a: seq<ObjectId>, b: seq<ObjectId>, pets: seq<Pet>)
    ensures Resolve(a + b, pets) == Resolve(a, pets) + Resolve(b, pets)
  {
    if a == [] {
      assert a + b == b;
    } else {
      assert (a + b)[0] == a[0] && (a + b)[1..] == a[1..] + b;
      ResolveAppend(a[1..], b, pets);
      var h := Populated(pets, a[0]);
      assert Resolve(a + b, pets) == h + (Resolve(a[1..], pets) + Resolve(b, pets));
    }
  }

  /** A single reference populates to its pet, or to nothing when the pet no
      longer exists; with `ResolveAppend` this fixes every position. */
  lemma ResolveOne(id: ObjectId, pets: seq<Pet>)
    ensures PetById(pets, id).None? ==> Resolve([id], pets) == []
    ensures PetById(pets, id).Some? ==> Resolve([id], pets) == [PetById(pets, id).value]
  {
    assert [id][1..] == [];
  }

  /** Some record for the pet is `Pending` or `Approved`. */
  predicate HasActiveAdoption(adoptions: seq<Adoption>, petId: ObjectId) {
    exists a :: a in adoptions && a.pet == petId && IsActive(a.status)
  }

  /** `Adoption.find({ status: { $in: ['Pending', 'Approved'] } }).distinct('pet')`. */
  function ActivePetIds(adoptions: seq<Adoption>): (r: set<ObjectId>)
    ensures forall id :: id in r <==> HasActiveAdoption(adoptions, id)
  {
    set a | a in adoptions && IsActive(a.status) :: a.pet
  }

  /** `getFavourites`: the requester's favourite pets, in list order,
      without those that have an active adoption; `[]` for an empty list.
      It changes nothing. */
  function GetFavourites(users: seq<User>, pets: seq<Pet>, adoptions: seq<Adoption>,
                         who: Requester): (r: Response<seq<Pet>>)
    ensures r.Ok? || r == NotFound(UserNotFound)
    ensures r.Ok? <==> UserIndex(users, who.id).Some?
    ensures r.Ok? ==>
              var favs := users[UserIndex(users, who.id).value].favourites;
              && (favs == [] ==> r.value == [])
              && (forall p :: p in r.value <==> p in Resolve(favs, pets) && !HasActiveAdoption(adoptions, p.id))
              && Subseq(r.value, Resolve(favs, pets))
              && (forall p: Pet :: !HasActiveAdoption(adoptions, p.id) ==>
                    multiset(r.value)[p] == multiset(Resolve(favs, pets))[p])
  {
    match UserIndex(users, who.id)
    case None => NotFound(UserNotFound)
    case Some(i) =>
      var populated := Resolve(users[i].favourites, pets);
      if populated == [] then Ok([])
      else
        var active := ActivePetIds(adoptions);
        Ok(Filter((p: Pet) => p.id !in active, populated))
  }

  /** Every pet the favourites view returns is also in the availability
      view, and a favourite that is available is returned: "Pending or
      Approved" and "not Rejected" select the same records. */
  lemma FavouritesAreAvailable(users: seq<User>, pets: seq<Pet>, adoptions: seq<Adoption>,
                               who: Requester)
    requires GetFavourites(users, pets, adoptions, who).Ok?
    ensures forall p :: p in GetFavourites(users, pets, adoptions, who).value ==>
              p in PetController.AvailablePets(pets, adoptions)
    ensures var favs := users[UserIndex(users, who.id).value].favourites;
            forall p :: p in Resolve(favs, pets) && p in PetController.AvailablePets(pets, adoptions) ==>
              p in GetFavourites(users, pets, adoptions, who).value
  {
    ResolveMembers(users[UserIndex(users, who.id).value].favourites, pets);
    forall id | true
      ensures HasActiveAdoption(adoptions, id) <==> PetController.Blocked(adoptions, id)
    {
      if HasActiveAdoption(adoptions, id) {
        var a :| a in adoptions && a.pet == id && IsActive(a.status);
        ActiveIsNotRejected(a.status);
      }
      if PetController.Blocked(adoptions, id) {
        var a :| a in adoptions && a.pet == id && a.status != Rejected;
        ActiveIsNotRejected(a.status);
      }
    }
  }
}
