/**
 * The exported record (one line of a numbered record file) and the
 * fixed-priority comparison of an old record against a new one.
 */
module Records {
  import opened Wrappers

  /** The nested location object of a record. */
  datatype Location = Location(
    id: int,
    affiliation: string,
    city: string,
    address: string,
    zip: string,
    state: string,
    country: string,
    latitude: string,
    longitude: string)

  /**
   * One decoded record. `specialties` is `None` when the line had no list
   * (or `null`): the decoder leaves a nil slice then, and a nil slice is not
   * deeply equal to an empty one. `position` is carried but never compared.
   */
  datatype Entry = Entry(
    id: int,
    npi: int,
    ttid: int,
    firstName: string,
    middleName: string,
    lastName: string,
    specialties: Option<seq<string>>,
    location: Location,
    position: int)

  /** The tag written after an id in the verbose update report. */
  datatype Reason =
    | New | Npi | TTID | FN | LN | MN
    | LID | LAF | LCI | LZ | LLA | LLO | LST | LAD | LCO
    | SPL | Del

  /**
   * The position of a field in the order in which the fields of a matched
   * record are inspected (0 is inspected first); `New` and `Del` are not
   * field reasons and have no place in it.
   */
  function Rank(k: Reason): int {
    match k
    case Npi => 0
    case TTID => 1
    case FN => 2
    case LN => 3
    case MN => 4
    case LID => 5
    case LAF => 6
    case LCI => 7
    case LZ => 8
    case LLA => 9
    case LLO => 10
    case LST => 11
    case LAD => 12
    case LCO => 13
    case SPL => 14
    case _ => -1
  }

  /** Does the field that reason `k` stands for differ between `pe` and `e`? */
  predicate Differs(k: Reason, pe: Entry, e: Entry) {
    match k
    case Npi => pe.npi != e.npi
    case TTID => pe.ttid != e.ttid
    case FN => pe.firstName != e.firstName
    case LN => pe.lastName != e.lastName
    case MN => pe.middleName != e.middleName
    case LID => pe.location.id != e.location.id
    case LAF => pe.location.affiliation != e.location.affiliation
    case LCI => pe.location.city != e.location.city
    case LZ => pe.location.zip != e.location.zip
    case LLA => pe.location.latitude != e.location.latitude
    case LLO => pe.location.longitude != e.location.longitude
    case LST => pe.location.state != e.location.state
    case LAD => pe.location.address != e.location.address
    case LCO => pe.location.country != e.location.country
    case SPL => pe.specialties != e.specialties
    case _ => false
  }

  /**
   * The if/else chain applied to a matched pair (old `pe`, new `e`): the
   * first field, in `Rank` order, that differs; `None` when every
   * compared field agrees. Specialties are compared as ordered lists.
   */
  function FirstDiff(pe: Entry, e: Entry): (r: Option<Reason>)
    ensures r.None? ==> forall k :: !Differs(k, pe, e)
    ensures r.Some? ==> Rank(r.value) >= 0 && Differs(r.value, pe, e)
    ensures r.Some? ==> forall k :: Rank(k) < Rank(r.value) ==> !Differs(k, pe, e)
  {
    if pe.npi != e.npi then Some(Npi)
    else if pe.ttid != e.ttid then Some(TTID)
    else if pe.firstName != e.firstName then Some(FN)
    else if pe.lastName != e.lastName then Some(LN)
    else if pe.middleName != e.middleName then Some(MN)
    else if pe.location.id != e.location.id then Some(LID)
    else if pe.location.affiliation != e.location.affiliation then Some(LAF)
    else if pe.location.city != e.location.city then Some(LCI)
    else if pe.location.zip != e.location.zip then Some(LZ)
    else if pe.location.latitude != e.location.latitude then Some(LLA)
    else if pe.location.longitude != e.location.longitude then Some(LLO)
    else if pe.location.state != e.location.state then Some(LST)
    else if pe.location.address != e.location.address then Some(LAD)
    else if pe.location.country != e.location.country then Some(LCO)
    else if pe.specialties != e.specialties then Some(SPL)
    else None
  }

  /**
   * A matched pair produces no report line exactly when the two records
   * agree on everything except the id (equal by matching) and the ranking
   * position (never compared).
   */
  lemma FirstDiffNoneIffSame(pe: Entry, e: Entry)
    requires pe.id == e.id
    ensures FirstDiff(pe, e).None? <==> pe.(position := e.position) == e
  {
  }

  /** Npi is inspected first: a differing Npi hides every later difference. */
  lemma NpiHidesLaterFields(pe: Entry, e: Entry)
    requires pe.npi != e.npi
    ensures FirstDiff(pe, e) == Some(Npi)
  {
  }

  /**
   * Specialties are compared as ordered lists: the same values in another
   * order are reported, and so is a missing list against an empty one.
   */
  lemma SpecialtiesCompareInOrder(pe: Entry, a: string, b: string)
    requires a != b
    ensures FirstDiff(pe.(specialties := Some([a, b])), pe.(specialties := Some([b, a]))) == Some(SPL)
    ensures FirstDiff(pe.(specialties := None), pe.(specialties := Some([]))) == Some(SPL)
  {
  }
}
