/**
 * The eight ABO/Rh blood types, the `COMPATIBLE` table that the fulfilment
 * engine reads (recipient type to the donor types it may receive), and the
 * donor-to-recipient table that the request page shows.
 */
module BloodTypes {
  import opened Wrappers

  datatype BloodType = OMinus | OPlus | AMinus | APlus | BMinus | BPlus | ABMinus | ABPlus

  /** The code stored in `blood_type` and `blood_type_needed`. */
  function Name(t: BloodType): string {
    match t
    case OMinus => "O-"
    case OPlus => "O+"
    case AMinus => "A-"
    case APlus => "A+"
    case BMinus => "B-"
    case BPlus => "B+"
    case ABMinus => "AB-"
    case ABPlus => "AB+"
  }

  /** The blood type a stored code stands for, if any. */
  function Parse(code: string): (r: Option<BloodType>)
    ensures r.Some? ==> Name(r.value) == code
  {
    if code == "O-" then Some(OMinus)
    else if code == "O+" then Some(OPlus)
    else if code == "A-" then Some(AMinus)
    else if code == "A+" then Some(APlus)
    else if code == "B-" then Some(BMinus)
    else if code == "B+" then Some(BPlus)
    else if code == "AB-" then Some(ABMinus)
    else if code == "AB+" then Some(ABPlus)
    else None
  }

  /** Every type's code reads back as that type, so the codes are distinct. */
  lemma ParseName(t: BloodType)
    ensures Parse(Name(t)) == Some(t)
  {
    match t
    case OMinus =>
    case OPlus => assert Name(t)[0] != "O-"[0] || Name(t)[1] != "O-"[1];
    case AMinus => assert Name(t)[0] != "O-"[0];
    case APlus => assert Name(t)[0] != "O-"[0] && Name(t)[1] != "A-"[1];
    case BMinus => assert Name(t)[0] != "A-"[0];
    case BPlus => assert Name(t)[0] != "A-"[0] && Name(t)[1] != "B-"[1];
    case ABMinus => assert |Name(t)| == 3;
    case ABPlus => assert |Name(t)| == 3 && Name(t)[2] != "AB-"[2];
  }

  /**
   * `COMPATIBLE[recipient]`: the donor types listed for a recipient. The
   * query only tests membership in the list, so its order plays no part.
   */
  function Compatible(recipient: BloodType): set<BloodType> {
    match recipient
    case OMinus => {OMinus}
    case OPlus => {OMinus, OPlus}
    case AMinus => {OMinus, AMinus}
    case APlus => {OMinus, OPlus, AMinus, APlus}
    case BMinus => {OMinus, BMinus}
    case BPlus => {OMinus, OPlus, BMinus, BPlus}
    case ABMinus => {OMinus, AMinus, BMinus, ABMinus}
    case ABPlus => {OMinus, OPlus, AMinus, APlus, BMinus, BPlus, ABMinus, ABPlus}
  }

  /**
   * `COMPATIBLE.get(code, [])`: an unknown code has no compatible donors; a
   * known one always takes O- and its own type, and only donors the ABO/Rh
   * rule allows.
   */
  function CompatibleFor(code: string): (r: set<BloodType>)
    ensures Parse(code).None? ==> r == {}
    ensures Parse(code).Some? ==> r == Compatible(Parse(code).value)
    ensures OMinus in r <==> Parse(code).Some?
    ensures Parse(code).Some? ==> Parse(code).value in r
    ensures forall d | d in r :: Parse(code).Some? && CanGive(d, Parse(code).value)
  {
    match Parse(code)
    case None => {}
    case Some(t) => Compatible(t)
  }

  /** The red-cell antigens and the Rh factor of a type. */
  predicate HasA(t: BloodType) { t == AMinus || t == APlus || t == ABMinus || t == ABPlus }
  predicate HasB(t: BloodType) { t == BMinus || t == BPlus || t == ABMinus || t == ABPlus }
  predicate RhPositive(t: BloodType) { t == OPlus || t == APlus || t == BPlus || t == ABPlus }

  /**
   * The transfusion rule the table encodes: a donor's red cells may carry
   * no antigen (A, B or Rh D) that the recipient's do not carry.
   */
  predicate CanGive(donor: BloodType, recipient: BloodType) {
    && (HasA(donor) ==> HasA(recipient))
    && (HasB(donor) ==> HasB(recipient))
    && (RhPositive(donor) ==> RhPositive(recipient))
  }

  /** `COMPATIBLE` lists exactly the donors the ABO/Rh rule allows. */
  lemma CompatibleIsAboRh(donor: BloodType, recipient: BloodType)
    ensures donor in Compatible(recipient) <==> CanGive(donor, recipient)
  {
    match recipient
    case OMinus =>
    case OPlus =>
    case AMinus =>
    case APlus =>
    case BMinus =>
    case BPlus =>
    case ABMinus =>
    case ABPlus =>
  }

  /**
   * Every row lists O- (the universal donor) and the recipient's own type,
   * O- receives only from O-, and AB+ (the universal recipient) from all eight.
   */
  lemma CompatibleRows(recipient: BloodType)
    ensures OMinus in Compatible(recipient) && recipient in Compatible(recipient)
    ensures Compatible(OMinus) == {OMinus}
    ensures forall d: BloodType :: d in Compatible(ABPlus)
  {
    CompatibleIsAboRh(OMinus, recipient);
    CompatibleIsAboRh(recipient, recipient);
    forall d: BloodType ensures d in Compatible(ABPlus) {
      CompatibleIsAboRh(d, ABPlus);
    }
  }

  /** A cell of the request page's table: every type, or a list of types. */
  datatype Recipients = AllTypes | Listed(types: set<BloodType>)

  /**
   * `BLOOD_TYPES_COMPATIBILITY[donor]` on the request page: the recipients a
   * donor's blood may go to. Each comma-separated cell is its list of types;
   * the O- cell is the phrase "all blood types".
   */
  function DisplayRecipients(donor: BloodType): Recipients {
    match donor
    case APlus => Listed({APlus, ABPlus})
    case AMinus => Listed({APlus, AMinus, ABPlus, ABMinus})
    case BPlus => Listed({BPlus, ABPlus})
    case BMinus => Listed({BPlus, BMinus, ABPlus, ABMinus})
    case ABPlus => Listed({ABPlus})
    case ABMinus => Listed({ABPlus, ABMinus})
    case OPlus => Listed({OPlus, APlus, BPlus, ABPlus})
    case OMinus => AllTypes
  }

  /** The request page says that `donor` may give to `recipient`. */
  predicate Displayed(donor: BloodType, recipient: BloodType) {
    match DisplayRecipients(donor)
    case AllTypes => true
    case Listed(types) => recipient in types
  }

  /** The request page's table is exactly the transpose of `COMPATIBLE`. */
  lemma DisplayIsTranspose(donor: BloodType, recipient: BloodType)
    ensures Displayed(donor, recipient) <==> donor in Compatible(recipient)
  {
    match donor
    case OMinus =>
    case OPlus =>
    case AMinus =>
    case APlus =>
    case BMinus =>
    case BPlus =>
    case ABMinus =>
    case ABPlus =>
  }
}
