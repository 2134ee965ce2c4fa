/** The adoption schema: a request by one user for one pet, its status
    enum with default `Pending`, the adoption date defaulting to the
    clock, trimmed comments and the automatic timestamps. */
module AdoptionModel {
  import opened Base

  /** The schema's status enum. A stored record can hold no other value. */
  datatype AdoptionStatus = Pending | Approved | Rejected

  /** The string the enum value is stored and sent as. */
  function StatusName(st: AdoptionStatus): (r: string)
    ensures ParseStatus(r) == Some(st)
  {
    match st
    case Pending => "Pending"
    case Approved => "Approved"
    case Rejected => "Rejected"
  }

  /** The enum check `['Pending', 'Approved', 'Rejected'].includes(s)`. */
  function ParseStatus(s: string): (r: Option<AdoptionStatus>)
    ensures r.Some? <==> s == "Pending" || s == "Approved" || s == "Rejected"
    ensures r.Some? ==> (r.value == Pending <==> s == "Pending")
    ensures r.Some? ==> (r.value == Approved <==> s == "Approved")
  {
    if s == "Pending" then Some(Pending)
    else if s == "Approved" then Some(Approved)
    else if s == "Rejected" then Some(Rejected)
    else None
  }

  /** An accepted status string names the status it parses to, and no
      other string is accepted. */
  lemma ParseStatusIsInverse(s: string)
    ensures ParseStatus(s).Some? ==> StatusName(ParseStatus(s).value) == s
    ensures ParseStatus(s).None? ==> forall st :: StatusName(st) != s
  {
  }

  /** The required references `user` and `pet` are fields every record has. */
  datatype Adoption = Adoption(
    id: ObjectId,
    user: ObjectId,
    pet: ObjectId,
    status: AdoptionStatus,
    adoptionDate: Time,
    comments: string,
    createdAt: Time,
    updatedAt: Time)

  /** An adoption counted as active by the favourites view:
      `status: { $in: ['Pending', 'Approved'] }`. */
  predicate IsActive(st: AdoptionStatus) {
    st == Pending || st == Approved
  }

  /** The availability view's filter `status: { $ne: 'Rejected' }` and the
      favourites view's `$in: ['Pending', 'Approved']` select the same
      records, because the status is always one of the three enum values. */
  lemma ActiveIsNotRejected(st: AdoptionStatus)
    ensures IsActive(st) <==> st != Rejected
  {
  }

  /** A new document: `status` defaults to `Pending`, `adoptionDate` to the
      clock, `comments` is trimmed by its setter, and both timestamps are
      the clock. */
  function NewAdoption(id: ObjectId, user: ObjectId, pet: ObjectId,
                       status: Option<AdoptionStatus>, date: Option<Time>,
                       comments: string, now: Time): (a: Adoption)
    ensures a.id == id && a.user == user && a.pet == pet
    ensures status.None? ==> a.status == Pending
    ensures status.Some? ==> a.status == status.value
    ensures date.None? ==> a.adoptionDate == now
    ensures date.Some? ==> a.adoptionDate == date.value
    ensures Trimmed(a.comments) && a.comments == Trim(comments)
    ensures a.createdAt == now && a.updatedAt == now
  {
    Adoption(id, user, pet,
      if status.Some? then status.value else Pending,
      if date.Some? then date.value else now,
      Trim(comments), now, now)
  }
}
