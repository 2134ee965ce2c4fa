/** The adoption handlers: listing by role, requesting a pet, the admin's
    status update and the owner's deletion. */
module AdoptionController {
  import opened Base
  import opened Seqs
  import opened AdoptionModel
  import opened PetModel
  import opened Store
  import PetController

  /** `getAdoptions`: an admin's query is `{}`, anyone else's is
      `{ user: requester }`; records come back in store order. (The
      `populate` of user and pet is not modelled.) */
  function AdoptionsFor(adoptions: seq<Adoption>, who: Requester): (r: seq<Adoption>)
    ensures IsAdmin(who) ==> r == adoptions
    ensures !IsAdmin(who) ==> forall a :: a in r <==> a in adoptions && a.user == who.id
    ensures !IsAdmin(who) ==> forall a: Adoption :: a.user == who.id ==> multiset(r)[a] == multiset(adoptions)[a]
    ensures !IsAdmin(who) ==> Subseq(r, adoptions)
  {
    if IsAdmin(who) then adoptions
    else Filter((a: Adoption) => a.user == who.id, adoptions)
  }

  /** `Adoption.findOne({ pet: petId })`: the first record for the pet in
      store order. */
  function FirstForPet(adoptions: seq<Adoption>, petId: ObjectId): (r: Option<nat>)
    ensures r.Some? ==> r.value < |adoptions| && adoptions[r.value].pet == petId
    ensures r.Some? ==> forall j :: 0 <= j < r.value ==> adoptions[j].pet != petId
    ensures r.None? ==> forall a :: a in adoptions ==> a.pet != petId
  {
    FirstIndex((a: Adoption) => a.pet == petId, adoptions)
  }

  /** The refusal `registerAdoption` gives, if any: only the first record
      for the pet is looked at; if it is not `Rejected` the request is
      refused, with a message that depends on whether that record is the
      requester's own. */
  function Admission(adoptions: seq<Adoption>, petId: ObjectId, who: Requester): (r: Option<Msg>)
    ensures r.Some? ==> exists i :: 0 <= i < |adoptions| && adoptions[i].pet == petId
                                    && adoptions[i].status != Rejected
    ensures r == Some(AlreadyAdoptedByYou) ==>
              exists i :: 0 <= i < |adoptions| && adoptions[i].pet == petId
                          && adoptions[i].status != Rejected && adoptions[i].user == who.id
    ensures r == Some(AdoptedByAnotherUser) ==>
              exists i :: 0 <= i < |adoptions| && adoptions[i].pet == petId
                          && adoptions[i].status != Rejected && adoptions[i].user != who.id
    ensures (forall a :: a in adoptions && a.pet == petId ==> a.status == Rejected) ==> r.None?
    ensures r.None? || r == Some(AlreadyAdoptedByYou) || r == Some(AdoptedByAnotherUser)
    ensures FirstForPet(adoptions, petId).None? ==> r.None?
    ensures FirstForPet(adoptions, petId).Some? ==>
              var i := FirstForPet(adoptions, petId).value;
              && (r.None? <==> adoptions[i].status == Rejected)
              && (r == Some(AlreadyAdoptedByYou) <==> adoptions[i].status != Rejected && adoptions[i].user == who.id)
              && (r == Some(AdoptedByAnotherUser) <==> adoptions[i].status != Rejected && adoptions[i].user != who.id)
  {
    match FirstForPet(adoptions, petId)
    case None => None
    case Some(i) =>
      if adoptions[i].status != Rejected then
        Some(if adoptions[i].user == who.id then AlreadyAdoptedByYou else AdoptedByAnotherUser)
      else None
  }

  /** `registerAdoption`. The comments are `comments || ''`; the new record
      takes its status from the schema default and its date from the
      clock. */
  method RegisterAdoption(db: Db, who: Requester, petId: ObjectId, comments: Option<string>,
                          validId: ObjectId -> bool, now: Time) returns (r: Response<Msg>)
    requires db.Valid()
    modifies db
    ensures db.Valid()
    ensures !validId(petId) ==> r == BadRequest(InvalidPetId) && unchanged(db)
    ensures validId(petId) && PetIndex(old(db.pets), petId).None? ==>
              r == NotFound(PetNotFound) && unchanged(db)
    ensures validId(petId) && PetIndex(old(db.pets), petId).Some?
            && Admission(old(db.adoptions), petId, who).Some? ==>
              r == BadRequest(Admission(old(db.adoptions), petId, who).value) && unchanged(db)
    ensures validId(petId) && PetIndex(old(db.pets), petId).Some?
            && Admission(old(db.adoptions), petId, who).None? ==>
              && r == Ok(AdoptionRegistered)
              && db.adoptions == old(db.adoptions) +
                   [NewAdoption(old(db.nextId), who.id, petId, None, Some(now),
                                if Truthy(comments) then comments.value else "", now)]
              && db.users == old(db.users) && db.pets == old(db.pets)
              && db.nextId == old(db.nextId) + 1
  {
    if !validId(petId) {
      return BadRequest(InvalidPetId);
    }
    if PetIndex(db.pets, petId).None? {
      return NotFound(PetNotFound);
    }
    var refusal := Admission(db.adoptions, petId, who);
    if refusal.Some? {
      return BadRequest(refusal.value);
    }
    var text := if Truthy(comments) then comments.value else "";
    var a := NewAdoption(db.nextId, who.id, petId, None, Some(now), text, now);
    AppendFresh(db.adoptions, AdoptionId, db.nextId, a);
    BelowGrows(db.users, UserId, db.nextId);
    BelowGrows(db.pets, PetId, db.nextId);
    db.adoptions := db.adoptions + [a];
    db.nextId := db.nextId + 1;
    r := Ok(AdoptionRegistered);
  }

  /** The `$set` of `updateAdoption` applied to one record: only `status`
      (when given) and `comments` (when not undefined, trimmed by the
      schema's setter) change, besides the `updatedAt` timestamp. Any
      status may replace any other. */
  function ApplyAdoptionUpdate(a: Adoption, status: Option<AdoptionStatus>,
                               comments: Option<string>, now: Time): (b: Adoption)
    ensures b.id == a.id && b.user == a.user && b.pet == a.pet
    ensures b.adoptionDate == a.adoptionDate && b.createdAt == a.createdAt
    ensures status.Some? ==> b.status == status.value
    ensures status.None? ==> b.status == a.status
    ensures comments.Some? ==> b.comments == Trim(comments.value)
    ensures comments.None? ==> b.comments == a.comments
    ensures b.updatedAt == now
  {
    a.(status := if status.Some? then status.value else a.status,
       comments := if comments.Some? then Trim(comments.value) else a.comments,
       updatedAt := now)
  }

  /** The status an update request asks for: a truthy string that is not
      one of the enum values is refused (`None`); a falsy one asks for no
      status change (`Some(None)`). */
  function RequestedStatus(status: Option<string>): (r: Option<Option<AdoptionStatus>>)
    ensures r.None? <==> Truthy(status) && ParseStatus(status.value).None?
    ensures r == Some(None) <==> !Truthy(status)
    ensures r.Some? && r.value.Some? ==> Truthy(status) && StatusName(r.value.value) == status.value
  {
    if !Truthy(status) then Some(None)
    else
      ParseStatusIsInverse(status.value);
      match ParseStatus(status.value)
      case None => None
      case Some(st) => Some(Some(st))
  }

  /** `updateAdoption` (reachable by admins only). A bad status refuses the
      whole update, comments included. */
  method UpdateAdoption(db: Db, who: Requester, adoptionId: ObjectId,
                        status: Option<string>, comments: Option<string>,
                        validId: ObjectId -> bool, now: Time) returns (r: Response<Msg>)
    requires db.Valid() && IsAdmin(who)
    modifies db
    ensures db.Valid()
    ensures db.users == old(db.users) && db.pets == old(db.pets) && db.nextId == old(db.nextId)
    ensures !validId(adoptionId) ==> r == BadRequest(InvalidAdoptionId) && unchanged(db)
    ensures validId(adoptionId) && AdoptionIndex(old(db.adoptions), adoptionId).None? ==>
              r == NotFound(AdoptionNotFound) && unchanged(db)
    ensures validId(adoptionId) && AdoptionIndex(old(db.adoptions), adoptionId).Some?
            && RequestedStatus(status).None? ==>
              r == BadRequest(InvalidStatus) && unchanged(db)
    ensures validId(adoptionId) && AdoptionIndex(old(db.adoptions), adoptionId).Some?
            && RequestedStatus(status).Some? ==>
              var i := AdoptionIndex(old(db.adoptions), adoptionId).value;
              && r == Ok(AdoptionUpdated)
              && db.adoptions == old(db.adoptions)[i := ApplyAdoptionUpdate(
                   old(db.adoptions)[i], RequestedStatus(status).value, comments, now)]
  {
    if !validId(adoptionId) {
      return BadRequest(InvalidAdoptionId);
    }
    var found := AdoptionIndex(db.adoptions, adoptionId);
    if found.None? {
      return NotFound(AdoptionNotFound);
    }
    var i := found.value;
    var requested := RequestedStatus(status);
    if requested.None? {
      return BadRequest(InvalidStatus);
    }
    var b := ApplyAdoptionUpdate(db.adoptions[i], requested.value, comments, now);
    UpdateKeepsKeys(db.adoptions, i, b, AdoptionId);
    db.adoptions := db.adoptions[i := b];
    r := Ok(AdoptionUpdated);
  }

  /** `deleteAdoption`: only the record's own user may delete it, whatever
      the requester's role and whatever the record's status. */
  method DeleteAdoption(db: Db, who: Requester, adoptionId: ObjectId,
                        validId: ObjectId -> bool) returns (r: Response<Msg>)
    requires db.Valid()
    modifies db
    ensures db.Valid()
    ensures db.users == old(db.users) && db.pets == old(db.pets) && db.nextId == old(db.nextId)
    ensures !validId(adoptionId) ==> r == BadRequest(InvalidAdoptionId) && unchanged(db)
    ensures validId(adoptionId) && AdoptionIndex(old(db.adoptions), adoptionId).None? ==>
              r == NotFound(AdoptionNotFound) && unchanged(db)
    ensures validId(adoptionId) && AdoptionIndex(old(db.adoptions), adoptionId).Some? ==>
              var i := AdoptionIndex(old(db.adoptions), adoptionId).value;
              if old(db.adoptions)[i].user != who.id then
                r == Forbidden(NotYourAdoption) && unchanged(db)
              else
                && r == Ok(AdoptionDeleted)
                && db.adoptions == RemoveAt(old(db.adoptions), i)
                && forall a :: a in db.adoptions ==> a.id != adoptionId
  {
    if !validId(adoptionId) {
      return BadRequest(InvalidAdoptionId);
    }
    var found := AdoptionIndex(db.adoptions, adoptionId);
    if found.None? {
      return NotFound(AdoptionNotFound);
    }
    var i := found.value;
    if db.adoptions[i].user != who.id {
      return Forbidden(NotYourAdoption);
    }
    var rest := RemoveAt(db.adoptions, i);
    RemoveAtKeepsKeys(db.adoptions, i, AdoptionId, db.nextId);
    forall a | a in rest ensures a.id != adoptionId {
      var k :| 0 <= k < |rest| && rest[k] == a;
      var k' := if k < i then k else k + 1;
      assert AdoptionId(db.adoptions[k']) != AdoptionId(db.adoptions[i]);
    }
    db.adoptions := rest;
    r := Ok(AdoptionDeleted);
  }

  /** The lifecycle of one pet: a first user's request is accepted and
      blocks a second user, and the first user too; once an admin rejects
      it the pet is available again and the second user's request is
      accepted, after which the pet is no longer available. */
  lemma RequestRejectRequestAgain(pet: Pet, u1: Requester, u2: Requester, now: Time)
    requires u1.id != u2.id
    ensures Admission([], pet.id, u1).None?
    ensures var s1 := [NewAdoption(1, u1.id, pet.id, None, Some(now), "", now)];
            && Admission(s1, pet.id, u2) == Some(AdoptedByAnotherUser)
            && Admission(s1, pet.id, u1) == Some(AlreadyAdoptedByYou)
            && pet !in PetController.AvailablePets([pet], s1)
    ensures var s2 := [ApplyAdoptionUpdate(NewAdoption(1, u1.id, pet.id, None, Some(now), "", now),
                                           Some(Rejected), None, now)];
            var s3 := s2 + [NewAdoption(2, u2.id, pet.id, None, Some(now), "", now)];
            && Admission(s2, pet.id, u2).None?
            && pet in PetController.AvailablePets([pet], s2)
            && pet !in PetController.AvailablePets([pet], s3)
  {
    var a1 := NewAdoption(1, u1.id, pet.id, None, Some(now), "", now);
    var s1 := [a1];
    assert FirstForPet(s1, pet.id) == Some(0);
    assert a1 in s1;
    var s2 := [ApplyAdoptionUpdate(a1, Some(Rejected), None, now)];
    assert FirstForPet(s2, pet.id) == Some(0);
    var a2 := NewAdoption(2, u2.id, pet.id, None, Some(now), "", now);
    assert a2 in s2 + [a2];
  }

  // ---- The one-open-request rule ----

  /** At most one record per pet is not `Rejected`. */
  ghost predicate AtMostOneOpen(adoptions: seq<Adoption>) {
    forall i, j ::
      (0 <= i < j < |adoptions| && adoptions[i].pet == adoptions[j].pet && adoptions[i].status != Rejected)
      ==> adoptions[j].status == Rejected
  }

  /** The admission rule as evidently intended: refuse while ANY record for
      the pet is not `Rejected`, with the message chosen by that record's
      user. */
  function IntendedAdmission(adoptions: seq<Adoption>, petId: ObjectId, who: Requester): (r: Option<Msg>)
    ensures r.None? <==> forall a :: a in adoptions && a.pet == petId ==> a.status == Rejected
    ensures r.None? || r == Some(AlreadyAdoptedByYou) || r == Some(AdoptedByAnotherUser)
  {
    match FirstIndex((a: Adoption) => a.pet == petId && a.status != Rejected, adoptions)
    case None => None
    case Some(i) => Some(if adoptions[i].user == who.id then AlreadyAdoptedByYou else AdoptedByAnotherUser)
  }

  /** The intended rule admits a request exactly when the availability view
      lists the pet as available. */
  lemma IntendedAdmissionMatchesAvailability(adoptions: seq<Adoption>, petId: ObjectId, who: Requester)
    ensures IntendedAdmission(adoptions, petId, who).None? <==> !PetController.Blocked(adoptions, petId)
  {
  }

  /** Adding a non-rejected record after the intended rule admitted it keeps
      at most one open record per pet. */
  lemma IntendedAdmissionKeepsOneOpen(adoptions: seq<Adoption>, petId: ObjectId,
                                       who: Requester, a: Adoption)
    requires AtMostOneOpen(adoptions)
    requires IntendedAdmission(adoptions, petId, who).None?
    requires a.pet == petId
    ensures AtMostOneOpen(adoptions + [a])
  {
    var s := adoptions + [a];
    forall i, j | 0 <= i < j < |s| && s[i].pet == s[j].pet && s[i].status != Rejected
      ensures s[j].status == Rejected
    {
      assert s[i] == adoptions[i] && s[i] in adoptions;
    }
  }

  /** When no record is for the pet, or the first record for it is not
      `Rejected`, both rules agree; they differ only when a `Rejected` record
      comes first and an open one later. */
  lemma AdmissionAgreesWhenFirstIsOpen(adoptions: seq<Adoption>, petId: ObjectId, who: Requester)
    requires FirstForPet(adoptions, petId).None?
             || adoptions[FirstForPet(adoptions, petId).value].status != Rejected
    ensures Admission(adoptions, petId, who) == IntendedAdmission(adoptions, petId, who)
  {
    match FirstForPet(adoptions, petId)
    case None =>
    case Some(i) =>
      var k := FirstIndex((a: Adoption) => a.pet == petId && a.status != Rejected, adoptions);
      assert k.Some? && k.value == i by {
        assert adoptions[i] in adoptions;
      }
  }

  /** What the code as written admits: a first record `Rejected` and a later
      one `Pending`, both for pet 7, and a third user asking for pet 7. The
      availability view already hides pet 7, yet the code accepts, and the
      store then holds two open records for the pet; the intended rule
      refuses. */
  lemma FirstMatchAdmitsSecondOpen()
    ensures var s := [Adoption(1, 10, 7, Rejected, 0, "", 0, 0),
                      Adoption(2, 20, 7, Pending, 0, "", 0, 0)];
            var who := Requester(30, "user");
            && AtMostOneOpen(s)
            && PetController.Blocked(s, 7)
            && Admission(s, 7, who).None?
            && !AtMostOneOpen(s + [NewAdoption(3, 30, 7, None, None, "", 0)])
            && IntendedAdmission(s, 7, who) == Some(AdoptedByAnotherUser)
  {
    var s := [Adoption(1, 10, 7, Rejected, 0, "", 0, 0),
              Adoption(2, 20, 7, Pending, 0, "", 0, 0)];
    var who := Requester(30, "user");
    var t := s + [NewAdoption(3, 30, 7, None, None, "", 0)];
    assert FirstForPet(s, 7) == Some(0);
    assert t[1].pet == t[2].pet && t[1].status != Rejected && t[2].status != Rejected;
    assert s[1] in s;
  }
}
