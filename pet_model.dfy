/** The pet schema: seven required fields, enums for `sexo`, `size` and
    `type`, a trimmed `chip` (required but not unique in the schema) and the
    automatic timestamps. */
module PetModel {
  import opened Base

  datatype Sexo = Macho | Hembra
  datatype Size = Grande | Mediano | Pequeno
  /** The schema field `type` (a reserved word here). */
  datatype Species = Perro | Gato

  function SexoName(x: Sexo): (r: string)
    ensures ParseSexo(r) == Some(x)
  {
    match x
    case Macho => "Macho"
    case Hembra => "Hembra"
  }

  /** The enum validator of `sexo`. */
  function ParseSexo(s: string): (r: Option<Sexo>)
    ensures r.Some? <==> s == "Macho" || s == "Hembra"
    ensures r.Some? ==> (r.value == Macho <==> s == "Macho")
  {
    if s == "Macho" then Some(Macho)
    else if s == "Hembra" then Some(Hembra)
    else None
  }

  function SizeName(x: Size): (r: string)
    ensures ParseSize(r) == Some(x)
  {
    match x
    case Grande => "Grande"
    case Mediano => "Mediano"
    case Pequeno => "Peque\U{F1}o"
  }

  /** The enum validator of `size`. */
  function ParseSize(s: string): (r: Option<Size>)
    ensures r.Some? <==> s == "Grande" || s == "Mediano" || s == "Peque\U{F1}o"
    ensures r.Some? ==> (r.value == Grande <==> s == "Grande")
    ensures r.Some? ==> (r.value == Mediano <==> s == "Mediano")
  {
    if s == "Grande" then Some(Grande)
    else if s == "Mediano" then Some(Mediano)
    else if s == "Peque\U{F1}o" then Some(Pequeno)
    else None
  }

  function SpeciesName(x: Species): (r: string)
    ensures ParseSpecies(r) == Some(x)
  {
    match x
    case Perro => "Perro"
    case Gato => "Gato"
  }

  /** The enum validator of `type`. */
  function ParseSpecies(s: string): (r: Option<Species>)
    ensures r.Some? <==> s == "Perro" || s == "Gato"
    ensures r.Some? ==> (r.value == Perro <==> s == "Perro")
  {
    if s == "Perro" then Some(Perro)
    else if s == "Gato" then Some(Gato)
    else None
  }

  /** A parsed enum value is the one whose name was given: each parser is
      the inverse of its naming function. */
  lemma ParseIsInverse(s: string)
    ensures ParseSexo(s).Some? ==> SexoName(ParseSexo(s).value) == s
    ensures ParseSize(s).Some? ==> SizeName(ParseSize(s).value) == s
    ensures ParseSpecies(s).Some? ==> SpeciesName(ParseSpecies(s).value) == s
  {
  }

  /** A stored pet. `age` is a JavaScript number, taken as an integer. */
  datatype Pet = Pet(
    id: ObjectId,
    chip: string,
    name: string,
    age: int,
    sexo: Sexo,
    imageUrl: string,
    size: Size,
    species: Species,
    createdAt: Time,
    updatedAt: Time)

  /** The fields of a pet document before the schema has cast and
      validated them. The form arrives as text: `age` is `Some(n)` when
      non-empty age text came, `n` being its numeric value, and `None` when
      the field is missing or empty, which the cast turns into no value. */
  datatype PetDraft = PetDraft(
    chip: string, name: string, age: Option<int>, sexo: string,
    imageUrl: string, size: string, species: string)

  /** `chip` is stored trimmed; a string is present for `required` when it
      is not empty, a number when it has a value. */
  predicate DraftAcceptable(d: PetDraft) {
    && Trim(d.chip) != ""
    && d.name != ""
    && d.age.Some?
    && d.imageUrl != ""
    && ParseSexo(d.sexo).Some?
    && ParseSize(d.size).Some?
    && ParseSpecies(d.species).Some?
  }

  /** Casting and validating a new document on `save()`: the setter trims
      the chip, then the required and enum validators run. */
  function ValidatePet(id: ObjectId, d: PetDraft, now: Time): (r: Option<Pet>)
    ensures r.Some? <==> DraftAcceptable(d)
    ensures r.Some? ==> && r.value.id == id
                        && r.value.chip == Trim(d.chip) && Trimmed(r.value.chip)
                        && r.value.name == d.name && d.age == Some(r.value.age)
                        && r.value.imageUrl == d.imageUrl
                        && SexoName(r.value.sexo) == d.sexo
                        && SizeName(r.value.size) == d.size
                        && SpeciesName(r.value.species) == d.species
                        && r.value.createdAt == now && r.value.updatedAt == now
  {
    if !DraftAcceptable(d) then None
    else
      ParseIsInverse(d.sexo);
      ParseIsInverse(d.size);
      ParseIsInverse(d.species);
      Some(Pet(id, Trim(d.chip), d.name, d.age.value, ParseSexo(d.sexo).value, d.imageUrl,
               ParseSize(d.size).value, ParseSpecies(d.species).value, now, now))
  }
}
