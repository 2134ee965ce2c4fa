/** The database as an in-memory store of three collections (users, pets,
    adoptions), the authenticated requester every handler receives, and the
    replies handlers give. */
module Store {
  import opened Base
  import opened Seqs
  import opened AdoptionModel
  import opened PetModel

  /** A user document, with the fields the controllers read and write.
      `favourites` is an ordered list of pet references, possibly to
      deleted pets. The handlers never put a reference into it twice
      (`UserController.ToggledKeepsNoDup`, `Seqs.RemoveAllKeepsNoDup`). */
  datatype User = User(
    id: ObjectId,
    userName: string,
    email: string,
    password: string,
    role: string,
    favourites: seq<ObjectId>)

  /** What the authentication middleware puts in `req.user`. */
  datatype Requester = Requester(id: ObjectId, role: string)

  predicate IsAdmin(who: Requester) {
    who.role == "admin"
  }

  /** The message kinds of the handlers' JSON replies. */
  datatype Msg =
    // adoptions
    | InvalidPetId | PetNotFound | AlreadyAdoptedByYou | AdoptedByAnotherUser
    | AdoptionRegistered | InvalidAdoptionId | AdoptionNotFound | InvalidStatus
    | AdoptionUpdated | NotYourAdoption | AdoptionDeleted
    // users
    | UserOrEmailExists | UserRegistered | UserNotFound | NoPermission
    | NoChanges | UserUpdated | CannotDeleteSelf | UserDeleted
    | FavouriteAdded | FavouriteRemoved | NotInFavourites
    | ErrorSettingFavourite | ErrorRemovingFavourite
    // pets
    | NoPets | InvalidPetIdFormat | ChipExists | ImageRequired | PetRegistered
    | ErrorUploadingImage | ErrorSavingPet | ChipImmutable
    | ErrorUpdatingImage | ErrorUpdatingPet | PetUpdated | PetDeleted

  /** A handler's reply: 200/201 with a value, or 400, 404, 403 or 500 with
      a message kind. */
  datatype Response<+T> =
    | Ok(value: T)
    | BadRequest(msg: Msg)
    | NotFound(msg: Msg)
    | Forbidden(msg: Msg)
    | ServerError(msg: Msg)

  // ---- Keys of the documents ----

  function UserId(u: User): ObjectId { u.id }
  function UserNameOf(u: User): string { u.userName }
  function PetId(p: Pet): ObjectId { p.id }
  function PetChip(p: Pet): string { p.chip }
  function AdoptionId(a: Adoption): ObjectId { a.id }

  // ---- Queries: findById / findOne return the first match in store order ----

  /** `User.findById(id)`. */
  function UserIndex(users: seq<User>, id: ObjectId): (r: Option<nat>)
    ensures r.Some? ==> r.value < |users| && users[r.value].id == id
    ensures r.None? ==> forall j :: 0 <= j < |users| ==> users[j].id != id
  {
    FirstIndex((u: User) => u.id == id, users)
  }

  /** `User.findOne({ userName })`. */
  function UserNameIndex(users: seq<User>, name: string): (r: Option<nat>)
    ensures r.Some? ==> r.value < |users| && users[r.value].userName == name
    ensures r.None? ==> forall j :: 0 <= j < |users| ==> users[j].userName != name
  {
    FirstIndex((u: User) => u.userName == name, users)
  }

  /** `Pet.findById(id)`. */
  function PetIndex(pets: seq<Pet>, id: ObjectId): (r: Option<nat>)
    ensures r.Some? ==> r.value < |pets| && pets[r.value].id == id
    ensures r.Some? ==> forall j :: 0 <= j < r.value ==> pets[j].id != id
    ensures r.None? ==> forall j :: 0 <= j < |pets| ==> pets[j].id != id
  {
    FirstIndex((p: Pet) => p.id == id, pets)
  }

  /** The pet `Pet.findById(id)` returns, if any. */
  function PetById(pets: seq<Pet>, id: ObjectId): (r: Option<Pet>)
    ensures r.Some? ==> r.value in pets && r.value.id == id
    ensures r.None? ==> forall p :: p in pets ==> p.id != id
  {
    match PetIndex(pets, id)
    case None => None
    case Some(i) => Some(pets[i])
  }

  /** `Adoption.findById(id)`. */
  function AdoptionIndex(adoptions: seq<Adoption>, id: ObjectId): (r: Option<nat>)
    ensures r.Some? ==> r.value < |adoptions| && adoptions[r.value].id == id
    ensures r.None? ==> forall j :: 0 <= j < |adoptions| ==> adoptions[j].id != id
  {
    FirstIndex((a: Adoption) => a.id == id, adoptions)
  }

  // ---- The store ----

  ghost predicate UsersOk(s: seq<User>, bound: nat) {
    KeysBelow(s, UserId, bound) && KeysDistinct(s, UserId) && KeysDistinct(s, UserNameOf)
  }

  ghost predicate PetsOk(s: seq<Pet>, bound: nat) {
    KeysBelow(s, PetId, bound) && KeysDistinct(s, PetId) && KeysDistinct(s, PetChip)
  }

  ghost predicate AdoptionsOk(s: seq<Adoption>, bound: nat) {
    KeysBelow(s, AdoptionId, bound) && KeysDistinct(s, AdoptionId)
  }

  /** The three collections. `nextId` stands for the database's identifier
      generator: every stored id is below it. */
  class Db {
    var users: seq<User>
    var pets: seq<Pet>
    var adoptions: seq<Adoption>
    var nextId: ObjectId

    /** Identifiers are unique in each collection, and so are user names
        (registration refuses a taken one and no update changes it) and pet
        chips (registration refuses a taken one and no update changes it).
        E-mail addresses are not: an update does not re-check them. */
    ghost predicate Valid()
      reads this
    {
      UsersOk(users, nextId) && PetsOk(pets, nextId) && AdoptionsOk(adoptions, nextId)
    }

    constructor ()
      ensures Valid()
      ensures users == [] && pets == [] && adoptions == []
    {
      users, pets, adoptions, nextId := [], [], [], 0;
    }
  }

  /** Appending a document with a fresh identifier keeps the collection's
      identifiers unique and below the advanced generator. */
  lemma AppendFresh<T>(s: seq<T>, key: T -> nat, bound: nat, x: T)
    requires KeysBelow(s, key, bound) && KeysDistinct(s, key) && key(x) == bound
    ensures KeysBelow(s + [x], key, bound + 1) && KeysDistinct(s + [x], key)
  {
    AppendKeepsDistinct(s, key, x);
  }

  /** Advancing the generator keeps every stored id below it. */
  lemma BelowGrows<T>(s: seq<T>, key: T -> nat, bound: nat)
    requires KeysBelow(s, key, bound)
    ensures KeysBelow(s, key, bound + 1)
  {
  }
}
