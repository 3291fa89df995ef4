/**
 * The validation the donor, donation and blood-request forms add on top
 * of the model's own checks: field cleaners that return a cleaned value
 * or raise, and `clean` methods that write normalised values back into
 * the form's cleaned data.
 */
module Forms {
  import opened Wrappers
  import opened Text
  import opened Calendar
  import opened Records
  import opened Eligibility
  import opened Validators
  import opened Requests

  /** The validation errors the forms raise or attach. */
  datatype FormError =
    | IdRejected
    | AgeRejected
    | DetailsRequired
    | PhoneRejected
    | EmailRejected
    | TooSoon(last: Day, next: Day)
    | EmergencyNotCritical

  // ---------------------------------------------------------------------
  // DonorForm field cleaners
  // ---------------------------------------------------------------------

  /** A run of `n` zeros. */
  function Zeros(n: nat): (z: string)
    ensures |z| == n && forall k | 0 <= k < n :: z[k] == '0'
  {
    if n == 0 then "" else "0" + Zeros(n - 1)
  }

  /** `s.zfill(width)`: zeros on the left, after a leading sign, up to `width` characters. */
  function ZFill(s: string, width: nat): (r: string)
    ensures |r| == if |s| >= width then |s| else width
  {
    if |s| >= width then s
    else if |s| > 0 && (s[0] == '+' || s[0] == '-') then [s[0]] + Zeros(width - |s|) + s[1..]
    else Zeros(width - |s|) + s
  }

  /**
   * `clean_national_id`: strip; reject an empty value, a value with a
   * non-digit and a value whose length is not 9; return it zero-filled
   * to nine places.
   */
  function CleanNationalId(value: string): (r: Result<string, FormError>)
    ensures r.Ok? <==> IsDigits(Strip(value)) && |Strip(value)| == 9
    ensures r.Ok? ==> r.value == Strip(value)
  {
    var id := Strip(value);
    if id == "" then Err(IdRejected)
    else if !IsDigits(id) then Err(IdRejected)
    else if |id| != 9 then Err(IdRejected)
    else Ok(ZFill(id, 9))
  }

  /** The form accepts exactly the national ids the model's validator accepts. */
  lemma NationalIdAgrees(value: string)
    ensures CleanNationalId(value).Ok? <==> ValidateIsraeliId(value).Pass?
  {
  }

  /**
   * `clean_date_of_birth`: a missing date passes; otherwise the age must lie
   * in 18..65, that is, the 18th birthday has come and the 66th has not.
   */
  function CleanDateOfBirth(dob: Option<Date>, today: Date): (r: Result<Option<Date>, FormError>)
    ensures r.Ok? <==> dob.None? || 18 <= Age(dob.value, today) <= 65
    ensures dob.Some? ==>
      (r.Ok? <==> OnOrBefore(Birthday(dob.value, 18), today) && !OnOrBefore(Birthday(dob.value, 66), today))
    ensures r.Ok? ==> r.value == dob
  {
    match dob
    case None => Ok(dob)
    case Some(d) =>
      var age := Age(d, today);
      if age < 18 then Err(AgeRejected)
      else if age > 65 then Err(AgeRejected)
      else Ok(dob)
  }

  /** The form's age check and `Donor.clean`'s reject the same donors for their age. */
  lemma DateOfBirthAgrees(d: Donor, today: Date)
    ensures CleanDateOfBirth(Some(d.dateOfBirth), today).Err?
        <==> DonorClean(d, today) == Fail(TooYoung) || DonorClean(d, today) == Fail(TooOld)
  {
  }

  /**
   * `clean_chronic_illness_details`: details are required with a chronic
   * illness; they come back stripped, so that stripping them again changes
   * nothing, and with a chronic illness they are never blank.
   */
  function CleanChronicIllnessDetails(hasChronic: bool, details: string): (r: Result<string, FormError>)
    ensures r.Err? <==> hasChronic && Strip(details) == ""
    ensures r.Ok? ==> r.value == Strip(details)
    ensures r.Ok? ==> Strip(r.value) == r.value
    ensures r.Ok? && hasChronic ==> r.value != ""
  {
    StripIdempotent(details);
    var d := Strip(details);
    if hasChronic && d == "" then Err(DetailsRequired) else Ok(d)
  }

  /**
   * Cleaning the cleaned details again gives the same result, and what a
   * donor with a chronic illness passes on satisfies `Donor.clean`.
   */
  lemma ChronicDetailsSettled(hasChronic: bool, details: string)
    requires CleanChronicIllnessDetails(hasChronic, details).Ok?
    ensures CleanChronicIllnessDetails(hasChronic, CleanChronicIllnessDetails(hasChronic, details).value)
         == CleanChronicIllnessDetails(hasChronic, details)
    ensures hasChronic ==> CleanChronicIllnessDetails(hasChronic, details).value != ""
  {
    StripIdempotent(details);
  }

  // ---------------------------------------------------------------------
  // DonorForm.clean: phone and e-mail normalisation
  // ---------------------------------------------------------------------

  /** The phone number stripped, with every `-` and space removed. */
  function PhoneDigits(p: string): string {
    Without(Without(Strip(p), '-'), ' ')
  }

  /** What the form requires of a non-empty normalised number: `05` and ten characters. */
  predicate MobileShape(c: string) {
    StartsWith(c, "05") && |c| == 10
  }

  /**
   * The phone part of `clean`: a missing number, or one that normalises to
   * nothing, is left as it was; otherwise the normalised number must have
   * the mobile shape and replaces the original.
   */
  function CleanPhone(phone: Option<string>): (r: Result<Option<string>, FormError>)
    ensures r.Err? <==> phone.Some? && PhoneDigits(phone.value) != "" && !MobileShape(PhoneDigits(phone.value))
    ensures r.Ok? && r.value != phone ==>
      r.value.Some? && MobileShape(r.value.value) && '-' !in r.value.value && ' ' !in r.value.value
  {
    match phone
    case None => Ok(phone)
    case Some(p) =>
      var c := PhoneDigits(p);
      if |c| == 0 then Ok(phone)
      else if !MobileShape(c) then Err(PhoneRejected)
      else
        NoDashOrSpace(p);
        Ok(Some(c))
  }

  /** A normalised number holds no `-` and no space. */
  lemma NoDashOrSpace(p: string)
    ensures '-' !in PhoneDigits(p) && ' ' !in PhoneDigits(p)
  {
    var d := Without(Strip(p), '-');
    assert multiset(d)['-'] == 0;
    assert multiset(PhoneDigits(p))['-'] == 0 && multiset(PhoneDigits(p))[' '] == 0;
  }

  /** A number that normalises to the mobile shape is stored normalised. */
  lemma PhoneAccepted(p: string)
    requires PhoneDigits(p) != "" && MobileShape(PhoneDigits(p))
    ensures CleanPhone(Some(p)) == Ok(Some(PhoneDigits(p)))
  {
  }

  /** A stored number that was rewritten has the mobile shape and holds no `-` and no space. */
  lemma PhoneStored(p: string)
    requires CleanPhone(Some(p)).Ok? && PhoneDigits(p) != ""
    ensures CleanPhone(Some(p)).value == Some(PhoneDigits(p))
    ensures MobileShape(PhoneDigits(p))
    ensures '-' !in PhoneDigits(p) && ' ' !in PhoneDigits(p)
  {
    NoDashOrSpace(p);
  }

  /**
   * Normalising a stored number again changes nothing, provided it does not
   * end in whitespace that a removed `-` or space had hidden from `strip`.
   */
  lemma PhoneIdempotent(p: string)
    requires CleanPhone(Some(p)).Ok? && PhoneDigits(p) != ""
    requires !IsSpace(PhoneDigits(p)[|PhoneDigits(p)| - 1])
    ensures PhoneDigits(PhoneDigits(p)) == PhoneDigits(p)
    ensures CleanPhone(Some(PhoneDigits(p))) == Ok(Some(PhoneDigits(p)))
  {
    var c := PhoneDigits(p);
    PhoneStored(p);
    assert c[0] == "05"[0];
    StripUnchanged(c);
    WithoutAbsent(c, '-');
    WithoutAbsent(c, ' ');
  }

  /**
   * The proviso is needed: a number of nine digits followed by a tab and a
   * `-` is stored with the tab ...
   */
  lemma PhoneTabKept(digits: string)
    requires IsDigits(digits) && |digits| == 9 && StartsWith(digits, "05")
    ensures CleanPhone(Some(digits + "\t" + "-")) == Ok(Some(digits + "\t"))
  {
    TabDashDigits(digits);
    assert (digits + "\t")[..2] == digits[..2];
    PhoneAccepted(digits + "\t" + "-");
  }

  /** Normalising digits, a tab and a `-` drops only the `-`. */
  lemma TabDashDigits(digits: string)
    requires IsDigits(digits)
    ensures PhoneDigits(digits + "\t" + "-") == digits + "\t"
  {
    var q := digits + "\t";
    var p := q + "-";
    assert '-' !in digits && ' ' !in digits;
    assert p[0] == digits[0] && p[|p| - 1] == '-';
    StripUnchanged(p);
    WithoutAppend(q, "-", '-');
    WithoutAppend(digits, "\t", '-');
    WithoutAbsent(digits, '-');
    assert Without("-", '-') == [] && Without("\t", '-') == "\t";
    assert Without(p, '-') == q;
    WithoutAbsent(q, ' ');
  }

  /** ... and that stored value, cleaned again, loses the tab to `strip` and no longer passes. */
  lemma PhoneTabStripped(digits: string)
    requires IsDigits(digits) && |digits| == 9 && StartsWith(digits, "05")
    ensures CleanPhone(Some(digits + "\t")).Err?
  {
    var q := digits + "\t";
    assert '-' !in digits && ' ' !in digits;
    assert q[..|q| - 1] == digits;
    assert TrimLeft(q) == q;
    assert TrimRight(q) == TrimRight(digits);
    StripUnchanged(digits);
    WithoutAbsent(digits, '-');
    WithoutAbsent(digits, ' ');
    assert PhoneDigits(q) == digits;
  }

  /**
   * The e-mail part of `clean`: a missing or blank address becomes `''`;
   * any other is stored stripped, once `validate_email` accepts it.
   */
  function CleanEmail(email: Option<string>): Result<string, FormError> {
    match email
    case None => Ok("")
    case Some(e) =>
      var s := Strip(e);
      if |s| == 0 then Ok("")
      else if ValidateEmail(s).Err? then Err(EmailRejected)
      else Ok(s)
  }

  /** The address is refused exactly when, stripped, it is not blank and `validate_email` refuses it. */
  lemma CleanEmailRejects(email: Option<string>)
    ensures CleanEmail(email).Err? <==> email.Some? && Strip(email.value) != "" && ValidateEmail(Strip(email.value)).Err?
    ensures CleanEmail(email).Ok? && email.Some? ==> CleanEmail(email).value == Strip(email.value)
  {
  }

  /** A stored address is blank or one `validate_email` returns unchanged. */
  lemma EmailStored(email: Option<string>)
    requires CleanEmail(email).Ok?
    ensures CleanEmail(email).value == "" || ValidateEmail(CleanEmail(email).value) == Ok(CleanEmail(email).value)
  {
    if email.Some? {
      StripIdempotent(email.value);
    }
  }

  /** Cleaning a stored address again keeps it. */
  lemma EmailSettled(email: Option<string>)
    requires CleanEmail(email).Ok?
    ensures CleanEmail(Some(CleanEmail(email).value)) == CleanEmail(email)
  {
    if email.Some? {
      StripIdempotent(email.value);
    }
  }

  /**
   * The outcome of the contact part of `DonorForm.clean` and the phone
   * and e-mail entries it leaves: a bad phone number raises before the
   * e-mail is looked at; a refused e-mail raises after the phone number
   * was written back.
   */
  function CleanContact(phone: Option<string>, email: Option<string>): (Outcome<FormError>, Option<string>, Option<string>) {
    match CleanPhone(phone)
    case Err(_) => (Fail(PhoneRejected), phone, email)
    case Ok(p) =>
      match CleanEmail(email)
      case Err(_) => (Fail(EmailRejected), p, email)
      case Ok(e) => (Pass, p, Some(e))
  }

  /**
   * After a clean pass the stored phone number is missing, normalises to
   * nothing, or has the mobile shape without `-` or space; the stored
   * e-mail is blank or an accepted address.
   */
  lemma ContactStored(phone: Option<string>, email: Option<string>)
    requires CleanContact(phone, email).0.Pass?
    ensures CleanContact(phone, email).1 == phone || CleanContact(phone, email).1 == Some(PhoneDigits(phone.value))
    ensures phone.Some? && PhoneDigits(phone.value) != "" ==>
      && CleanContact(phone, email).1 == Some(PhoneDigits(phone.value))
      && MobileShape(PhoneDigits(phone.value))
      && '-' !in PhoneDigits(phone.value) && ' ' !in PhoneDigits(phone.value)
    ensures CleanContact(phone, email).2.Some?
    ensures CleanContact(phone, email).2.value == ""
         || ValidateEmail(CleanContact(phone, email).2.value) == Ok(CleanContact(phone, email).2.value)
  {
    if phone.Some? && PhoneDigits(phone.value) != "" {
      PhoneStored(phone.value);
    }
    EmailStored(email);
  }

  /** The phone and e-mail entries of a donor form's cleaned data. */
  class DonorForm {
    var phone: Option<string>
    var email: Option<string>

    constructor (phone: Option<string>, email: Option<string>)
      ensures this.phone == phone && this.email == email
    {
      this.phone, this.email := phone, email;
    }

    /**
     * `DonorForm.clean`: normalise the phone number, raising on a bad one
     * before the e-mail is looked at; then normalise the e-mail, raising
     * on a rejected one.
     */
    method Clean() returns (o: Outcome<FormError>)
      modifies this
      ensures (o, phone, email) == CleanContact(old(phone), old(email))
    {
      var checkedPhone := CleanPhone(phone);
      if checkedPhone.Err? {
        return Fail(PhoneRejected);
      }
      phone := checkedPhone.value;
      var checkedEmail := CleanEmail(email);
      if checkedEmail.Err? {
        return Fail(EmailRejected);
      }
      email := Some(checkedEmail.value);
      return Pass;
    }
  }

  // ---------------------------------------------------------------------
  // DonationForm.clean
  // ---------------------------------------------------------------------

  /**
   * `DonationForm.clean`: with both a donor and a date, raise when the
   * donor's closest strictly earlier donation is fewer than 56 days back,
   * naming its date and the first allowed date.
   */
  function DonationFormClean(rows: Table, donor: Option<nat>, date: Option<Day>): Outcome<FormError> {
    if donor.Some? && date.Some? then
      match LatestBefore(rows, donor.value, date.value)
      case None => Pass
      case Some(last) =>
        if date.value - last < WaitDays then Fail(TooSoon(last, last + WaitDays)) else Pass
    else Pass
  }

  /**
   * The form rejects a donation exactly when some earlier donation of the
   * same donor lies fewer than 56 days before it; same-day and older
   * donations never count.
   */
  lemma DonationFormRejects(rows: Table, donor: Option<nat>, date: Option<Day>)
    ensures DonationFormClean(rows, donor, date).Fail?
        <==> donor.Some? && date.Some?
             && exists x | x in rows :: x.donor == donor.value && x.date < date.value && date.value - x.date < WaitDays
  {
    if donor.Some? && date.Some? {
      TooEarlyIffRecentEarlier(rows, donor.value, date.value);
    }
  }

  /**
   * The form and `Donation.save` apply the same rule: a donation the form
   * passes is saved as given, and one it rejects would be saved unapproved.
   */
  lemma DonationFormMatchesSave(rows: Table, row: DonationRow)
    ensures DonationFormClean(rows, Some(row.donor), Some(row.date)).Pass? ==> Vetted(rows, row) == row
    ensures DonationFormClean(rows, Some(row.donor), Some(row.date)).Fail? ==> !Vetted(rows, row).approved
  {
  }

  // ---------------------------------------------------------------------
  // BloodRequestForm.clean
  // ---------------------------------------------------------------------

  /** The entries of a blood-request form's cleaned data that `clean` reads or writes, and its errors. */
  class BloodRequestForm {
    var emergency: bool
    var priority: Option<Priority>
    var bloodType: string
    var errors: seq<FormError>

    constructor (emergency: bool, priority: Option<Priority>, bloodType: string)
      ensures this.emergency == emergency && this.priority == priority && this.bloodType == bloodType
      ensures errors == []
    {
      this.emergency, this.priority, this.bloodType := emergency, priority, bloodType;
      errors := [];
    }

    /**
     * `BloodRequestForm.clean`: an emergency that is not critical gets a
     * priority error (without raising), and `add_error` drops the priority
     * from the cleaned data; an emergency's blood type becomes O-.
     */
    method Clean()
      modifies this
      ensures errors == old(errors) + if emergency && old(priority) != Some(Critical) then [EmergencyNotCritical] else []
      ensures priority == if emergency && old(priority) != Some(Critical) then None else old(priority)
      ensures bloodType == if emergency then "O-" else old(bloodType)
      ensures emergency == old(emergency)
    {
      if emergency && priority != Some(Critical) {
        errors := errors + [EmergencyNotCritical];
        priority := None;
      }
      if emergency {
        bloodType := "O-";
      }
    }
  }
}
