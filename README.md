# Pet adoption backend: a Dafny model of the domain rules

This project models the domain rules of a pet-adoption backend, an Express
service over three MongoDB collections. Users register, mark pets as
favourites and request adoptions. An administrator registers and edits pets
and decides the adoption requests.

The database is a class `Store.Db` holding three sequences:

- `users`: each user has a role and an ordered list of favourite pet ids.
- `pets`
- `adoptions`

Every handler that writes to the store is a module-level method that takes
the store `db: Db` as a parameter and may modify it. Each one except
`RegisterUser` (the registration route is open) gets the authenticated
requester `(id, role)` as a parameter. Every handler returns a
`Response`: `Ok`, `BadRequest`, `NotFound`, `Forbidden` or `ServerError`,
carrying the message kind. Each method states the whole new store for every
branch and keeps the store invariant `Db.Valid()`:

- ids are unique per collection and below the id generator;
- user names are unique;
- pet chips are unique.

Read-only handlers are functions over the collections.

Modules follow the source files:

- `AdoptionModel` and `PetModel` are the two schemas. They cover the enums
  with their parsers, the defaults, the trimming setter, and the required
  and enum validation done on `save()`.
- `AdoptionController`, `PetController` and `UserController` hold the
  handlers.
- `Base`, `Seqs` and `Store` are the shared vocabulary: JavaScript
  truthiness, `String.prototype.trim`, order-preserving filter, first-match
  search, and the store with its lookups.

Three foreign pieces are parameters:

- `ObjectId.isValid` is an uninterpreted predicate `validId`.
- The clock is a value `now`.
- Password hashing is an uninterpreted function `hash`.

An image upload is an input of type `Upload`: no file, a failed upload, or
the URL of the stored image.

A pet is meant to have at most one adoption that is not Rejected. The code
checks only the first adoption record for the pet. The model follows the
code, and the difference is recorded under "Findings". Favourites are an
ordered list of pet ids, not a set, and the handlers never add an id that
is already in it. E-mail uniqueness is checked only at
registration, so an update can make two users share an e-mail. The model
keeps both behaviours as the code has them.

## Model

| member | source | states |
|---|---|---|
| Base.Trim | src/api/models/adoption.model.js:24-27 | the stored string has no white space at either end and is a slice of the input with only white space cut away on each side |
| Base.TrimIdempotent | src/api/models/adoption.model.js:24-27 | trimming an already trimmed value changes nothing |
| Seqs.RemoveAll | src/api/controllers/user.controller.js:207-209 | the favourite filter drops every occurrence of the pet, keeps every other id with its multiplicity, and keeps their order |
| Seqs.RemoveAllKeepsNoDup | src/api/controllers/user.controller.js:245 | removing every occurrence of the pet keeps a favourites list without duplicates free of duplicates |
| Seqs.NoDupIffCountsAtMostOne | src/api/controllers/user.controller.js:204-216 | a favourites list has no duplicates exactly when it counts every pet id at most once |
| Seqs.RemoveAtKeepsDistinct | src/api/controllers/user.controller.js:175 | removing one stored user or pet (`findByIdAndDelete`) keeps the remaining user names or chips distinct |
| Seqs.RemoveAllAbsent | src/api/controllers/user.controller.js:207-209 | removing an id that is absent leaves the list as it is, and removing it after appending it restores the list |
| AdoptionModel.StatusName | src/api/models/adoption.model.js:15-18 | each status is stored under a name that the enum check parses back to that status |
| AdoptionModel.ParseStatus | src/api/models/adoption.model.js:15-18 | exactly the three strings Pending, Approved and Rejected are accepted, and each maps to its own status |
| AdoptionModel.ParseStatusIsInverse | src/api/models/adoption.model.js:15-18 | an accepted string is the name of its status, and a rejected string names no status |
| AdoptionModel.ActiveIsNotRejected | src/api/controllers/user.controller.js:279-281 | "Pending or Approved" selects the same statuses as "not Rejected", because the status is always one of the enum values |
| AdoptionModel.NewAdoption | src/api/models/adoption.model.js:5-27 | a new record keeps the given user and pet, defaults the status to Pending and the date to the clock, stores the comments trimmed, and sets both timestamps to the clock |
| PetModel.ParseSexo | src/api/models/pet.model.js:18-22 | only Macho and Hembra are accepted |
| PetModel.ParseSize | src/api/models/pet.model.js:27-31 | only Grande, Mediano and Pequeño are accepted |
| PetModel.ParseSpecies | src/api/models/pet.model.js:32-36 | only Perro and Gato are accepted for the field `type` |
| PetModel.ParseIsInverse | src/api/models/pet.model.js:18-36 | each accepted enum string is the name of the value it parses to |
| PetModel.ValidatePet | src/api/models/pet.model.js:5-36 | a document is stored exactly when the trimmed chip, name and image URL are non-empty, an age is given and the three enum fields hold enum names; the stored pet then has the trimmed chip and the given fields |
| Store.UserIndex | src/api/controllers/user.controller.js:192 | the lookup by id finds a user with that id, or reports that none has it |
| Store.UserNameIndex | src/api/controllers/user.controller.js:92 | the lookup by user name finds a user with that name, or reports that none has it |
| Store.PetIndex | src/api/controllers/pet.controller.js:109 | the lookup by id finds the first pet with that id, or reports that none has it |
| Store.PetById | src/api/controllers/pet.controller.js:225 | the pet found is stored and has the id; no pet is returned only when no stored pet has the id |
| Store.AdoptionIndex | src/api/controllers/adoption.controller.js:84 | the lookup by id finds an adoption with that id, or reports that none has it |
| AdoptionController.AdoptionsFor | src/api/controllers/adoption.controller.js:10-14 | an admin gets every adoption; anyone else gets exactly their own adoptions, with multiplicities, in store order |
| AdoptionController.FirstForPet | src/api/controllers/adoption.controller.js:39 | the record found is the first one for the pet in store order, or no record is for the pet |
| AdoptionController.Admission | src/api/controllers/adoption.controller.js:39-52 | the first record for the pet decides: the request is refused exactly when that record is not Rejected, with "already adopted" when it is the requester's and "another user" otherwise; with no record, or a Rejected first record (even one of the requester's, even with a later open record), it is admitted; every refusal is backed by an open record |
| AdoptionController.RegisterAdoption | src/api/controllers/adoption.controller.js:29-61 | an invalid id gives BadRequest and a missing pet gives NotFound, both with no change; a refusal leaves the store unchanged; otherwise exactly one Pending record for the requester and the pet, with comments or '', is appended and nothing else changes |
| AdoptionController.ApplyAdoptionUpdate | src/api/controllers/adoption.controller.js:89-104 | only the status (when given), the comments (when not undefined, trimmed) and the update time change; user, pet, date and creation time stay; any status may replace any other |
| AdoptionController.RequestedStatus | src/api/controllers/adoption.controller.js:90-95 | a supplied status outside the enum is refused, an absent or empty one asks for no change, and an accepted one names the status it asks for |
| AdoptionController.UpdateAdoption | src/api/controllers/adoption.controller.js:80-104 | an invalid id, a missing record or a bad status each give an error with no change, comments included; otherwise only that record is replaced by its updated version |
| AdoptionController.DeleteAdoption | src/api/controllers/adoption.controller.js:123-139 | an invalid id gives BadRequest, a missing record NotFound, and a record of another user Forbidden, all with no change; otherwise exactly that record is removed and the others keep their order |
| AdoptionController.RequestRejectRequestAgain | src/api/controllers/adoption.controller.js:39-61 | a first request blocks both its own user and another user and hides the pet; after the admin rejects it the pet is available and another user's request is accepted, which hides the pet again |
| AdoptionController.IntendedAdmission | src/api/controllers/adoption.controller.js:39-52 | the corrected rule refuses exactly when some record for the pet is not Rejected |
| AdoptionController.IntendedAdmissionMatchesAvailability | src/api/controllers/pet.controller.js:26-30 | the corrected rule admits a request exactly when the availability view lists the pet |
| AdoptionController.IntendedAdmissionKeepsOneOpen | src/api/controllers/adoption.controller.js:39-61 | under the corrected rule, appending the admitted record keeps at most one non-Rejected record per pet |
| AdoptionController.AdmissionAgreesWhenFirstIsOpen | src/api/controllers/adoption.controller.js:39-52 | the rule as written and the corrected rule agree whenever the first record for the pet is absent or not Rejected |
| AdoptionController.FirstMatchAdmitsSecondOpen | src/api/controllers/adoption.controller.js:39-52 | concrete store where the rule as written admits a request for a pet the availability view hides, leaving two open records for that pet; the corrected rule refuses |
| PetController.AllPets | src/api/controllers/pet.controller.js:8-16 | an empty collection gives NotFound, and otherwise every pet is returned |
| PetController.BlockedPetIds | src/api/controllers/pet.controller.js:26-28 | the distinct pet ids are exactly those with a non-Rejected record |
| PetController.AvailablePets | src/api/controllers/pet.controller.js:26-30 | exactly the pets with no non-Rejected record are returned, with multiplicities and in store order; a pet whose records are all Rejected is included |
| PetController.RequestedPetIsUnavailable | src/api/controllers/pet.controller.js:26-30 | after a non-Rejected record for a pet is added, the view no longer lists that pet |
| PetController.GetPetById | src/api/controllers/pet.controller.js:221-231 | an invalid id gives BadRequest; NotFound is returned exactly when no pet has the id; a returned pet is stored under that id |
| PetController.AfterLast | src/api/controllers/pet.controller.js:142 | `split('/').pop()` returns the suffix after the last separator, which contains no separator |
| PetController.BeforeFirst | src/api/controllers/pet.controller.js:142 | `split('.')[0]` returns the prefix before the first separator, which contains no separator |
| PetController.PublicId | src/api/controllers/pet.controller.js:142 | the public id contains neither '/' nor '.' |
| PetController.AfterLastOfSuffix | src/api/controllers/pet.controller.js:142 | whatever precedes the last '/' does not affect the segment taken |
| PetController.BeforeFirstOfPrefix | src/api/controllers/pet.controller.js:142 | whatever follows the first '.' does not affect the name taken |
| PetController.PublicIdOfStoredImage | src/api/controllers/pet.controller.js:142-143 | for an image URL of the form path/name.ext the public id is name |
| PetController.ChipIndex | src/api/controllers/pet.controller.js:45 | the chip query matches a pet whose stored chip equals the trimmed requested chip, or reports that none does |
| PetController.RegisterPet | src/api/controllers/pet.controller.js:45-91 | a taken chip is refused before a missing image is, both with no change; a failed upload or a failed validation changes nothing; otherwise exactly the validated pet is appended |
| PetController.PetChanges | src/api/controllers/pet.controller.js:120-137 | a field enters the changes exactly when it is supplied (non-empty text) and differs from the stored value, and then carries the supplied value; an age text "0" is supplied |
| PetController.WithImage | src/api/controllers/pet.controller.js:139-157 | a new image adds its URL to the changes, and no file leaves them as they are |
| PetController.ApplyPetPatch | src/api/controllers/pet.controller.js:171-172 | saving succeeds exactly when the changed fields validate; the result then holds each changed value and keeps the id, the chip and the creation time |
| PetController.UpdatedFieldsAreSuppliedOrKept | src/api/controllers/pet.controller.js:120-137 | after an update each field holds the supplied value when one was supplied and the stored value otherwise; chip and image are untouched |
| PetController.NoChangesMeansNothingDiffers | src/api/controllers/pet.controller.js:120-137 | empty changes mean every supplied field already equals the stored one, so applying them would alter nothing but the timestamp |
| PetController.UpdatePet | src/api/controllers/pet.controller.js:105-172 | errors come in order: invalid id, missing pet, any supplied chip, then failed upload, each with no change; no changes means nothing is saved; otherwise only that pet is replaced; no update ever changes a pet's id or chip |
| PetController.DeletePet | src/api/controllers/pet.controller.js:190-198 | an invalid id gives BadRequest and a missing pet NotFound, both with no change; otherwise exactly that pet is removed, and adoptions and users' favourites are left as they were |
| UserController.NameOrEmailIndex | src/api/controllers/user.controller.js:27 | the query finds a user with the same name or the same e-mail, or reports that none has either |
| UserController.RegisterUser | src/api/controllers/user.controller.js:27-35 | a taken name or e-mail is refused with no change; otherwise exactly one user is appended, with role 'user' and no favourites |
| UserController.UserChanges | src/api/controllers/user.controller.js:104-117 | the e-mail changes when supplied and different; the password changes to its hash whenever one is supplied; the role changes only for an admin supplying a different one |
| UserController.ApplyUserPatch | src/api/controllers/user.controller.js:123 | the id, the user name and the favourites never change; each present change replaces its field |
| UserController.OnlyAdminsChangeRoles | src/api/controllers/user.controller.js:115-117 | a non-admin's update never changes a role, and no update changes a user name |
| UserController.NoUserChangesIff | src/api/controllers/user.controller.js:104-121 | there are no changes exactly when the e-mail is absent or equal, no password is given, and no permitted role change is asked for |
| UserController.UpdateUser | src/api/controllers/user.controller.js:92-124 | a missing user gives NotFound; a non-admin targeting someone else gives Forbidden; no changes gives "No changes detected"; all three leave the store unchanged; otherwise only that user is replaced, and a role changes only for an admin requester |
| UserController.WithoutUser | src/api/controllers/user.controller.js:173 | the cascade removes exactly that user's adoptions and keeps every other adoption, with multiplicities, in order |
| UserController.DeleteUser | src/api/controllers/user.controller.js:160-175 | a missing user gives NotFound and deleting oneself gives Forbidden, both with no change; otherwise the user is gone, no adoption refers to them, and the other adoptions are kept |
| UserController.Toggled | src/api/controllers/user.controller.js:204-213 | a pet in the list is removed everywhere it occurs and the rest keep their order; a pet not in the list is appended at the end |
| UserController.ToggledKeepsNoDup | src/api/controllers/user.controller.js:204-216 | toggling keeps a favourites list without duplicates free of duplicates |
| UserController.ToggleTwiceFromAbsent | src/api/controllers/user.controller.js:204-213 | two toggles starting from an absent pet restore the exact list |
| UserController.ToggleTwiceFromPresent | src/api/controllers/user.controller.js:204-213 | two toggles starting from a present pet restore the membership, with the pet moved to the end and its duplicates gone |
| UserController.SetFavourite | src/api/controllers/user.controller.js:192-216 | an ill-formed pet id gives a server error, then a missing user and a missing pet give NotFound, all with no change; otherwise only that user's favourites are toggled |
| UserController.RemoveFavourite | src/api/controllers/user.controller.js:230-248 | a missing user, an ill-formed id, a missing pet and a pet not in the favourites each give an error with no change; otherwise every occurrence of the pet is removed and the rest keep their order |
| UserController.Resolve | src/api/controllers/user.controller.js:267 | populating yields at most one pet per reference |
| UserController.ResolveMembers | src/api/controllers/user.controller.js:267 | the populated favourites are stored pets the list refers to, and every stored pet the list refers to is among them |
| UserController.ResolveCounts | src/api/controllers/user.controller.js:267 | each stored pet occurs as often as the list references its id, and no other pet occurs |
| UserController.ResolveAppend | src/api/controllers/user.controller.js:267 | populating keeps the list order: the pets of a concatenation are the first part's pets followed by the second part's |
| UserController.ResolveOne | src/api/controllers/user.controller.js:267 | a single reference populates to its pet, or to nothing when the pet no longer exists |
| UserController.ActivePetIds | src/api/controllers/user.controller.js:279-283 | the distinct pet ids are exactly those with a Pending or Approved record |
| UserController.GetFavourites | src/api/controllers/user.controller.js:267-287 | a missing user gives NotFound; an empty list gives []; otherwise the result is exactly the populated favourites with no Pending or Approved record, each as often as it is populated, in their order |
| UserController.FavouritesAreAvailable | src/api/controllers/user.controller.js:279-287 | every returned favourite is listed by the availability view, and every populated favourite that view lists is returned |

## Left out

- `loginUser`, `getAllUser` and `getCurrentUser` are not modelled. All three
  only read. `loginUser` compares the password with bcrypt and signs a JWT.
  The other two list users or the current user with populated favourites,
  outside the modelled rules.
- `UserController.RegisterUser` stores the password as given. Logging in
  compares against a hash, so the user schema evidently hashes the password
  in a hook when a user is saved. That schema is not part of this model, so
  the stored registration password is the plain one rather than its hash.
- `UserController.RegisterUser` takes the user name and the e-mail as
  present strings. When one is missing from the body, Mongoose drops the
  undefined value from its `$or` branch, the branch matches every user, and
  the source refuses the registration as soon as any user exists.
- `UserController.UpdateUser` takes the user name as a present string. When
  it is missing, `findOne({ userName })` becomes `findOne({})` and the source
  edits whichever stored user the database returns first.
- `UserController.DeleteUser` takes the user name as a present string. When
  it is missing, the source finds an arbitrary stored user in the same way
  and, unless that user is the requester, deletes them and their adoptions.
- `PetController.RegisterPet` takes the chip as a present string. When it is
  missing, `findOne({ chip })` matches any stored pet, so the source answers
  "Chip already exists" once any pet exists; with no pets the save fails
  `required`, as the model's empty chip does.
- `PetController.PetChanges` takes the edit form as text, which is what the
  multipart upload route delivers. An age sent as the JSON number 0 is
  falsy in the source and would not be a change; that case is not modelled.
  Age text that is not a number (NaN) is not modelled either.
- Password hashing is an uninterpreted function `hash`. In the source the
  hash uses a fresh random salt, so two updates with the same password store
  different hashes; the model cannot show this.
- The user schema (src/api/models/user.model.js) is not part of this model.
  The fields of `Store.User` are those the controllers read and write, and
  the role is a plain string. Any hook or validation that schema runs on
  `save()` is not modelled.
- `UserController.UserChanges` states the changes object the handler builds,
  whose password is `hash(password)`. `UserController.UpdateUser` stores it as
  is. A hashing hook on `save()` (see `UserController.RegisterUser` above)
  that runs when the password is modified would hash that value again, so
  the password stored after an update may differ from the model's.
- Image storage is external. Uploading, destroying the old image under its
  public id, and deleting the file after a pet is removed are not modelled;
  only the upload's outcome is an input. The public id derivation is modelled.
- `populate` in `getAdoptions` is not modelled: records carry references, not
  the resolved user and pet.
- HTTP status codes, JSON reply shapes, the message texts and console
  logging map to the `Response` variants and the `Msg` kinds.
- Database failures other than a failed cast of an ill-formed id and a
  failed validation on `save()` are not modelled. Neither is the generic
  500 reply they lead to.
- `Number(age)` is not modelled. A pet's age arrives as form text and is
  an optional integer: `None` when the field is missing or empty, which
  fails `required` at registration. NaN and fractional ages are left out.
- Other request-body values are taken to be strings; the optional ones are
  `Option<string>`. Numbers, arrays or objects sent where a string is
  expected are not modelled. The fields a handler queries by are always
  present, as the lines for `RegisterUser`, `UpdateUser`, `DeleteUser` and
  `RegisterPet` above say.
- Identifiers are compared as values. The source compares some ids as
  strings (`fav.toString() === petId`), so a textual variant of a valid id,
  such as upper-case hexadecimal, is not modelled.
- `getFavourites` answers 400 when the request has no authenticated user.
  That branch is not modelled, because the route always authenticates first.
- Concurrency is not modelled. Handlers run one at a time, so the race
  between the check and the insert in `registerAdoption`, and between the
  two queries of the availability view, is out of scope.
- Timestamps of users are not modelled.

## Findings

| source | as written | input that shows it | evidently intended | confidence | as-written member | corrected member |
|---|---|---|---|---|---|---|
| src/api/controllers/adoption.controller.js:39-52 | only the first adoption record for the pet (`findOne`) is checked; a request is admitted when that record is Rejected, whatever later records say | adoptions [#1 pet 7 Rejected, #2 pet 7 Pending] and a third user requesting pet 7: admitted, leaving two open records while the availability view hides the pet | refuse while any record for the pet is not Rejected, so at most one open record per pet is kept | not executed | AdoptionController.FirstMatchAdmitsSecondOpen | AdoptionController.IntendedAdmissionKeepsOneOpen |
