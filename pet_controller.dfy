/** The pet handlers: listing, the availability view, lookup by id, and the
    admin's registration, update and deletion. Image storage is external:
    what an upload produced is an input, and the identifier under which an
    old image is destroyed is derived from its URL. */
module PetController {
  import opened Base
  import opened Seqs
  import opened AdoptionModel
  import opened PetModel
  import opened Store

  /** `getAllPet`: every pet, or 404 when there is none. */
  function AllPets(pets: seq<Pet>): (r: Response<seq<Pet>>)
    ensures pets == [] <==> r == NotFound(NoPets)
    ensures pets != [] ==> r.Ok? && r.value == pets
  {
    if pets == [] then NotFound(NoPets) else Ok(pets)
  }

  /** Some record for the pet is not `Rejected`. */
  predicate Blocked(adoptions: seq<Adoption>, petId: ObjectId) {
    exists a :: a in adoptions && a.pet == petId && a.status != Rejected
  }

  /** `Adoption.find({ status: { $ne: 'Rejected' } }).distinct('pet')`. */
  function BlockedPetIds(adoptions: seq<Adoption>): (r: set<ObjectId>)
    ensures forall id :: id in r <==> Blocked(adoptions, id)
  {
    set a | a in adoptions && a.status != Rejected :: a.pet
  }

  /** `getAvailablePets`: the pets, in store order, that no record other
      than a `Rejected` one refers to. A pet whose records are all
      `Rejected` is available. */
  function AvailablePets(pets: seq<Pet>, adoptions: seq<Adoption>): (r: seq<Pet>)
    ensures forall p :: p in r <==> p in pets && !Blocked(adoptions, p.id)
    ensures forall p: Pet :: !Blocked(adoptions, p.id) ==> multiset(r)[p] == multiset(pets)[p]
    ensures Subseq(r, pets)
  {
    var ids := BlockedPetIds(adoptions);
    Filter((p: Pet) => p.id !in ids, pets)
  }

  /** An accepted adoption request makes its pet unavailable. */
  lemma RequestedPetIsUnavailable(pets: seq<Pet>, adoptions: seq<Adoption>, a: Adoption)
    requires a.status != Rejected
    ensures forall p :: p in AvailablePets(pets, adoptions + [a]) ==> p.id != a.pet
  {
    assert a in adoptions + [a];
  }

  /** `getPetById`. */
  function GetPetById(pets: seq<Pet>, petId: ObjectId, validId: ObjectId -> bool): (r: Response<Pet>)
    ensures !validId(petId) ==> r == BadRequest(InvalidPetId)
    ensures validId(petId) ==> (r == NotFound(PetNotFound) <==> forall p :: p in pets ==> p.id != petId)
    ensures r.Ok? ==> r.value in pets && r.value.id == petId
    ensures r.Ok? || r == BadRequest(InvalidPetId) || r == NotFound(PetNotFound)
  {
    if !validId(petId) then BadRequest(InvalidPetId)
    else match PetById(pets, petId)
      case None => NotFound(PetNotFound)
      case Some(p) => Ok(p)
  }

  // ---- The public id of a stored image ----

  /** `s.split(c).pop()`: the part of `s` after its last `c`, or all of `s`
      when it has none. */
  function AfterLast(s: string, c: char): (r: string)
    ensures c !in r
    ensures |r| <= |s| && r == s[|s| - |r|..]
    ensures |r| < |s| ==> s[|s| - |r| - 1] == c
  {
    if s == [] then []
    else if s[|s| - 1] == c then []
    else
      var r := AfterLast(s[..|s| - 1], c) + [s[|s| - 1]];
      assert r == s[|s| - |r|..];
      r
  }

  /** `s.split(c)[0]`: the part of `s` before its first `c`, or all of `s`
      when it has none. */
  function BeforeFirst(s: string, c: char): (r: string)
    ensures c !in r
    ensures |r| <= |s| && r == s[..|r|]
    ensures |r| < |s| ==> s[|r|] == c
  {
    if s == [] then []
    else if s[0] == c then []
    else [s[0]] + BeforeFirst(s[1..], c)
  }

  /** The public id `updatePet` destroys before replacing an image: the
      last `/`-segment of the URL cut at its first `.`. */
  function PublicId(imageUrl: string): (r: string)
    ensures '/' !in r && '.' !in r
    ensures |r| <= |imageUrl|
  {
    var last := AfterLast(imageUrl, '/');
    var id := BeforeFirst(last, '.');
    assert forall k :: 0 <= k < |id| ==> id[k] == last[k];
    id
  }

  /** Whatever comes before the last separator is ignored. */
  lemma {:induction false} AfterLastOfSuffix(a: string, c: char, b: string)
    requires c !in b
    ensures AfterLast(a + [c] + b, c) == b
  {
    var s := a + [c] + b;
    if b == [] {
      assert s[|s| - 1] == c;
    } else {
      var b' := b[..|b| - 1];
      assert s[..|s| - 1] == a + [c] + b';
      assert s[|s| - 1] == b[|b| - 1] && b[|b| - 1] in b;
      AfterLastOfSuffix(a, c, b');
      assert b' + [b[|b| - 1]] == b;
    }
  }

  /** Whatever comes after the first separator is ignored. */
  lemma BeforeFirstOfPrefix(a: string, c: char, b: string)
    requires c !in a
    ensures BeforeFirst(a + [c] + b, c) == a
  {
    var s := a + [c] + b;
    var r := BeforeFirst(s, c);
    assert s[|a|] == c;
    assert forall k :: 0 <= k < |r| ==> s[k] == r[k];
    assert forall k :: 0 <= k < |a| ==> s[k] == a[k];
    assert |r| == |a|;
    assert s[..|a|] == a;
  }

  /** For an image stored as `<folder path>/<name>.<extension>` the public id
      is `<name>`. */
  lemma PublicIdOfStoredImage(path: string, name: string, ext: string)
    requires '/' !in name && '.' !in name && '/' !in ext
    ensures PublicId(path + "/" + name + "." + ext) == name
  {
    var tail := name + "." + ext;
    assert '/' !in tail;
    assert path + "/" + name + "." + ext == path + ['/'] + tail;
    AfterLastOfSuffix(path, '/', tail);
    assert tail == name + ['.'] + ext;
    BeforeFirstOfPrefix(name, '.', ext);
  }

  // ---- Registration ----

  /** What the image upload produced: no file in the request, a failed
      upload, or the URL of the stored image. */
  datatype Upload = NoFile | UploadFailed | Uploaded(url: string)

  /** `Pet.findOne({ chip })`: the query value goes through the schema's
      trimming setter, as the stored chips did. */
  function ChipIndex(pets: seq<Pet>, chip: string): (r: Option<nat>)
    ensures r.Some? ==> r.value < |pets| && pets[r.value].chip == Trim(chip)
    ensures r.None? ==> forall p :: p in pets ==> p.chip != Trim(chip)
  {
    var t := Trim(chip);
    FirstIndex((p: Pet) => p.chip == t, pets)
  }

  /** `registerPet` (reachable by admins only): a taken chip is refused
      before a missing image; then the document built from the form and the
      uploaded image's URL is validated and stored. */
  method RegisterPet(db: Db, who: Requester, chip: string, name: string, age: Option<int>,
                     sexo: string, size: string, species: string, image: Upload,
                     now: Time) returns (r: Response<Msg>)
    requires db.Valid() && IsAdmin(who)
    modifies db
    ensures db.Valid()
    ensures db.users == old(db.users) && db.adoptions == old(db.adoptions)
    ensures ChipIndex(old(db.pets), chip).Some? ==> r == BadRequest(ChipExists) && unchanged(db)
    ensures ChipIndex(old(db.pets), chip).None? && image.NoFile? ==>
              r == BadRequest(ImageRequired) && unchanged(db)
    ensures ChipIndex(old(db.pets), chip).None? && image.UploadFailed? ==>
              r == ServerError(ErrorUploadingImage) && unchanged(db)
    ensures ChipIndex(old(db.pets), chip).None? && image.Uploaded? ==>
              var d := PetDraft(chip, name, age, sexo, image.url, size, species);
              match ValidatePet(old(db.nextId), d, now)
              case None => r == ServerError(ErrorSavingPet) && unchanged(db)
              case Some(p) =>
                && r == Ok(PetRegistered)
                && db.pets == old(db.pets) + [p]
                && db.nextId == old(db.nextId) + 1
  {
    if ChipIndex(db.pets, chip).Some? {
      return BadRequest(ChipExists);
    }
    match image
    case NoFile =>
      return BadRequest(ImageRequired);
    case UploadFailed =>
      return ServerError(ErrorUploadingImage);
    case Uploaded(url) =>
      var pet := ValidatePet(db.nextId, PetDraft(chip, name, age, sexo, url, size, species), now);
      if pet.None? {
        return ServerError(ErrorSavingPet);
      }
      var p := pet.value;
      AppendPetKeepsOk(db.pets, db.nextId, p);
      BelowGrows(db.users, UserId, db.nextId);
      BelowGrows(db.adoptions, AdoptionId, db.nextId);
      db.pets := db.pets + [p];
      db.nextId := db.nextId + 1;
      r := Ok(PetRegistered);
  }

  /** Storing a pet with a fresh id and a chip no stored pet has keeps ids
      and chips unique. */
  lemma AppendPetKeepsOk(pets: seq<Pet>, bound: nat, p: Pet)
    requires PetsOk(pets, bound) && p.id == bound
    requires forall q :: q in pets ==> q.chip != p.chip
    ensures PetsOk(pets + [p], bound + 1)
  {
    AppendFresh(pets, PetId, bound, p);
    forall k | 0 <= k < |pets| ensures PetChip(pets[k]) != PetChip(p) {
      assert pets[k] in pets;
    }
    AppendKeepsDistinct(pets, PetChip, p);
  }

  // ---- Update ----

  /** The fields of an update request; absent and empty ones are `None`.
      The form arrives as text, so `age` is `Some(n)` exactly when non-empty
      age text came, `n` being its numeric value; the text "0" is such a
      value. */
  datatype PetForm = PetForm(
    chip: Option<string>, name: Option<string>, age: Option<int>,
    sexo: Option<string>, size: Option<string>, species: Option<string>)

  /** The `changes` object `updatePet` builds: a field is present exactly
      when it will be assigned. Enum fields still hold the request's
      strings, which only `save()` validates. */
  datatype PetPatch = PetPatch(
    name: Option<string>, age: Option<int>, sexo: Option<string>,
    size: Option<string>, species: Option<string>, imageUrl: Option<string>)

  predicate PatchEmpty(c: PetPatch) {
    c.name.None? && c.age.None? && c.sexo.None? && c.size.None?
    && c.species.None? && c.imageUrl.None?
  }

  /** The change computation of `updatePet`: a field goes into `changes`
      when it is supplied (truthy) and differs from the stored value. */
  function PetChanges(pet: Pet, form: PetForm): (c: PetPatch)
    ensures c.name.Some? <==> Truthy(form.name) && form.name.value != pet.name
    ensures c.age.Some? <==> form.age.Some? && form.age.value != pet.age
    ensures c.sexo.Some? <==> Truthy(form.sexo) && form.sexo.value != SexoName(pet.sexo)
    ensures c.size.Some? <==> Truthy(form.size) && form.size.value != SizeName(pet.size)
    ensures c.species.Some? <==> Truthy(form.species) && form.species.value != SpeciesName(pet.species)
    ensures c.name.Some? ==> c.name == form.name
    ensures c.age.Some? ==> c.age == form.age
    ensures c.sexo.Some? ==> c.sexo == form.sexo
    ensures c.size.Some? ==> c.size == form.size
    ensures c.species.Some? ==> c.species == form.species
    ensures c.imageUrl.None?
  {
    PetPatch(
      if Truthy(form.name) && form.name.value != pet.name then form.name else None,
      if form.age.Some? && form.age.value != pet.age then form.age else None,
      if Truthy(form.sexo) && form.sexo.value != SexoName(pet.sexo) then form.sexo else None,
      if Truthy(form.size) && form.size.value != SizeName(pet.size) then form.size else None,
      if Truthy(form.species) && form.species.value != SpeciesName(pet.species) then form.species else None,
      None)
  }

  /** The patch with the uploaded image's URL added when a file came. */
  function WithImage(c: PetPatch, image: Upload): (d: PetPatch)
    requires !image.UploadFailed?
    ensures image.Uploaded? ==> d == c.(imageUrl := Some(image.url))
    ensures image.NoFile? ==> d == c
  {
    if image.Uploaded? then c.(imageUrl := Some(image.url)) else c
  }

  /** The changed paths pass the schema's validators on `save()`: required
      strings are not empty and enum fields hold enum names. */
  predicate PatchAcceptable(c: PetPatch) {
    && c.name != Some("")
    && (c.sexo.Some? ==> ParseSexo(c.sexo.value).Some?)
    && (c.size.Some? ==> ParseSize(c.size.value).Some?)
    && (c.species.Some? ==> ParseSpecies(c.species.value).Some?)
    && c.imageUrl != Some("")
  }

  /** `Object.assign(petToUpdate, changes)` followed by `save()`: `None` when
      validation fails. The id, the chip and the creation time never
      change; `updatedAt` becomes the clock. */
  function ApplyPetPatch(pet: Pet, c: PetPatch, now: Time): (r: Option<Pet>)
    ensures r.Some? <==> PatchAcceptable(c)
    ensures r.Some? ==> && r.value.id == pet.id && r.value.chip == pet.chip
                        && r.value.createdAt == pet.createdAt && r.value.updatedAt == now
    ensures r.Some? ==> r.value.name == (if c.name.Some? then c.name.value else pet.name)
    ensures r.Some? ==> r.value.age == (if c.age.Some? then c.age.value else pet.age)
    ensures r.Some? ==> SexoName(r.value.sexo) == (if c.sexo.Some? then c.sexo.value else SexoName(pet.sexo))
    ensures r.Some? ==> SizeName(r.value.size) == (if c.size.Some? then c.size.value else SizeName(pet.size))
    ensures r.Some? ==> SpeciesName(r.value.species) ==
                          (if c.species.Some? then c.species.value else SpeciesName(pet.species))
    ensures r.Some? ==> r.value.imageUrl == (if c.imageUrl.Some? then c.imageUrl.value else pet.imageUrl)
  {
    if !PatchAcceptable(c) then None
    else
      Some(pet.(
        name := if c.name.Some? then c.name.value else pet.name,
        age := if c.age.Some? then c.age.value else pet.age,
        sexo := if c.sexo.Some? then ParseSexo(c.sexo.value).value else pet.sexo,
        size := if c.size.Some? then ParseSize(c.size.value).value else pet.size,
        species := if c.species.Some? then ParseSpecies(c.species.value).value else pet.species,
        imageUrl := if c.imageUrl.Some? then c.imageUrl.value else pet.imageUrl,
        updatedAt := now))
  }

  /** After a successful update each field holds the supplied value when one
      was supplied and the stored value otherwise; whether the value
      differed only decides whether anything is saved. */
  lemma UpdatedFieldsAreSuppliedOrKept(pet: Pet, form: PetForm, now: Time)
    requires ApplyPetPatch(pet, PetChanges(pet, form), now).Some?
    ensures var q := ApplyPetPatch(pet, PetChanges(pet, form), now).value;
            && q.chip == pet.chip && q.imageUrl == pet.imageUrl
            && q.name == (if Truthy(form.name) then form.name.value else pet.name)
            && q.age == (if form.age.Some? then form.age.value else pet.age)
            && SexoName(q.sexo) == (if Truthy(form.sexo) then form.sexo.value else SexoName(pet.sexo))
            && SizeName(q.size) == (if Truthy(form.size) then form.size.value else SizeName(pet.size))
            && SpeciesName(q.species) ==
                 (if Truthy(form.species) then form.species.value else SpeciesName(pet.species))
  {
  }

  /** `changes` is empty exactly when every supplied field already holds its
      stored value, and then the stored pet equals what applying it would
      give, apart from the timestamp. */
  lemma NoChangesMeansNothingDiffers(pet: Pet, form: PetForm, now: Time)
    requires PatchEmpty(PetChanges(pet, form))
    ensures Truthy(form.name) ==> form.name.value == pet.name
    ensures form.age.Some? ==> form.age.value == pet.age
    ensures Truthy(form.sexo) ==> form.sexo.value == SexoName(pet.sexo)
    ensures Truthy(form.size) ==> form.size.value == SizeName(pet.size)
    ensures Truthy(form.species) ==> form.species.value == SpeciesName(pet.species)
    ensures ApplyPetPatch(pet, PetChanges(pet, form), now) == Some(pet.(updatedAt := now))
  {
  }

  /** `updatePet` (reachable by admins only). A supplied chip refuses the
      whole request; otherwise only supplied-and-different fields change,
      nothing is saved when nothing changes, and a failed image upload or a
      failed validation leaves the pet as it was. */
  method UpdatePet(db: Db, who: Requester, petId: ObjectId, form: PetForm, image: Upload,
                   validId: ObjectId -> bool, now: Time) returns (r: Response<Msg>)
    requires db.Valid() && IsAdmin(who)
    modifies db
    ensures db.Valid()
    ensures db.users == old(db.users) && db.adoptions == old(db.adoptions)
    ensures db.nextId == old(db.nextId) && |db.pets| == |old(db.pets)|
    ensures forall k :: 0 <= k < |db.pets| ==>
              db.pets[k].id == old(db.pets)[k].id && db.pets[k].chip == old(db.pets)[k].chip
    ensures !validId(petId) ==> r == BadRequest(InvalidPetIdFormat) && unchanged(db)
    ensures validId(petId) && PetIndex(old(db.pets), petId).None? ==>
              r == NotFound(PetNotFound) && unchanged(db)
    ensures validId(petId) && PetIndex(old(db.pets), petId).Some? && Truthy(form.chip) ==>
              r == BadRequest(ChipImmutable) && unchanged(db)
    ensures validId(petId) && PetIndex(old(db.pets), petId).Some? && !Truthy(form.chip)
            && image.UploadFailed? ==>
              r == ServerError(ErrorUpdatingImage) && unchanged(db)
    ensures validId(petId) && PetIndex(old(db.pets), petId).Some? && !Truthy(form.chip)
            && !image.UploadFailed? ==>
              var i := PetIndex(old(db.pets), petId).value;
              var c := WithImage(PetChanges(old(db.pets)[i], form), image);
              if PatchEmpty(c) then r == Ok(NoChanges) && unchanged(db)
              else match ApplyPetPatch(old(db.pets)[i], c, now)
                case None => r == ServerError(ErrorUpdatingPet) && unchanged(db)
                case Some(q) => r == Ok(PetUpdated) && db.pets == old(db.pets)[i := q]
  {
    if !validId(petId) {
      return BadRequest(InvalidPetIdFormat);
    }
    var found := PetIndex(db.pets, petId);
    if found.None? {
      return NotFound(PetNotFound);
    }
    var i := found.value;
    if Truthy(form.chip) {
      return BadRequest(ChipImmutable);
    }
    var changes := PetChanges(db.pets[i], form);
    if image.UploadFailed? {
      return ServerError(ErrorUpdatingImage);
    }
    changes := WithImage(changes, image);
    if PatchEmpty(changes) {
      return Ok(NoChanges);
    }
    var saved := ApplyPetPatch(db.pets[i], changes, now);
    if saved.None? {
      return ServerError(ErrorUpdatingPet);
    }
    var q := saved.value;
    UpdateKeepsKeys(db.pets, i, q, PetId);
    UpdateKeepsKeys(db.pets, i, q, PetChip);
    db.pets := db.pets[i := q];
    r := Ok(PetUpdated);
  }

  // ---- Deletion ----

  /** `deletePet` (reachable by admins only): removes exactly that pet.
      Nothing cascades: adoption records and users' favourites that refer to
      it are left as they are. */
  method DeletePet(db: Db, who: Requester, petId: ObjectId, validId: ObjectId -> bool)
    returns (r: Response<Msg>)
    requires db.Valid() && IsAdmin(who)
    modifies db
    ensures db.Valid()
    ensures db.users == old(db.users) && db.adoptions == old(db.adoptions)
    ensures db.nextId == old(db.nextId)
    ensures !validId(petId) ==> r == BadRequest(InvalidPetIdFormat) && unchanged(db)
    ensures validId(petId) && PetIndex(old(db.pets), petId).None? ==>
              r == NotFound(PetNotFound) && unchanged(db)
    ensures validId(petId) && PetIndex(old(db.pets), petId).Some? ==>
              && r == Ok(PetDeleted)
              && db.pets == RemoveAt(old(db.pets), PetIndex(old(db.pets), petId).value)
              && forall p :: p in db.pets ==> p.id != petId
  {
    if !validId(petId) {
      return BadRequest(InvalidPetIdFormat);
    }
    var found := PetIndex(db.pets, petId);
    if found.None? {
      return NotFound(PetNotFound);
    }
    var i := found.value;
    var rest := RemoveAt(db.pets, i);
    RemoveAtKeepsKeys(db.pets, i, PetId, db.nextId);
    RemoveAtKeepsDistinct(db.pets, i, PetChip);
    forall p | p in rest ensures p.id != petId {
      var k :| 0 <= k < |rest| && rest[k] == p;
      var k' := if k < i then k else k + 1;
      assert PetId(db.pets[k']) != PetId(db.pets[i]);
    }
    db.pets := rest;
    r := Ok(PetDeleted);
  }
}
