/**
 * The 56-day rule between donations, as the Donor model reports it
 * (`can_donate`, `days_until_next_donation`) and as `Donation.save`
 * enforces it, plus the age and health checks of `Donor.clean`.
 */
module Eligibility {
  import opened Wrappers
  import opened Text
  import opened BloodTypes
  import opened Calendar
  import opened Records

  /** The minimum number of days between two donations. */
  const WaitDays: int := 56

  /** `Donor.age`. */
  function DonorAge(d: Donor, today: Date): int {
    Age(d.dateOfBirth, today)
  }

  /** `Donor.days_until_next_donation`: 0 with no donations, else `max(0, 56 - days since the latest)`. */
  function DaysUntilNextDonation(rows: Table, donor: nat, today: Day): (r: nat)
    ensures r <= WaitDays || (LastDonationDate(rows, donor).Some? && LastDonationDate(rows, donor).value > today)
  {
    match LastDonationDate(rows, donor)
    case None => 0
    case Some(last) => if WaitDays - (today - last) > 0 then WaitDays - (today - last) else 0
  }

  /** `Donor.can_donate`: no donations at all, or 56 days or more since the latest one. */
  predicate CanDonate(rows: Table, donor: nat, today: Day) {
    match LastDonationDate(rows, donor)
    case None => true
    case Some(last) => today - last >= WaitDays
  }

  /** The two properties agree: a donor may give exactly when no days remain to wait. */
  lemma CanDonateIffNoWait(rows: Table, donor: nat, today: Day)
    ensures CanDonate(rows, donor, today) <==> DaysUntilNextDonation(rows, donor, today) == 0
  {
  }

  /**
   * A donor may give exactly when every one of their donations, approved or
   * not, lies at least 56 days back.
   */
  lemma CanDonateIffAllOld(rows: Table, donor: nat, today: Day)
    ensures CanDonate(rows, donor, today)
        <==> forall x | x in rows && x.donor == donor :: today - x.date >= WaitDays
  {
    match LastDonationDate(rows, donor)
    case None =>
    case Some(last) =>
      var x :| x in rows && x.donor == donor && x.date == last;
  }

  /** Day 55 after the latest donation is too early, day 56 is not, and the wait counts down to 0. */
  lemma WaitBoundary(rows: Table, donor: nat, last: Day)
    requires LastDonationDate(rows, donor) == Some(last)
    ensures !CanDonate(rows, donor, last + 55) && CanDonate(rows, donor, last + 56)
    ensures DaysUntilNextDonation(rows, donor, last) == WaitDays
    ensures DaysUntilNextDonation(rows, donor, last + 55) == 1
    ensures DaysUntilNextDonation(rows, donor, last + 56) == 0
  {
  }

  /** The donor's donations dated strictly before `date`. */
  function EarlierDonations(rows: Table, donor: nat, date: Day): Table {
    if rows == [] then []
    else if rows[0].donor == donor && rows[0].date < date then [rows[0]] + EarlierDonations(rows[1..], donor, date)
    else EarlierDonations(rows[1..], donor, date)
  }

  /** A row is among the earlier donations exactly when it is the donor's and strictly earlier. */
  lemma {:induction false} EarlierMembers(rows: Table, donor: nat, date: Day)
    ensures forall x :: x in EarlierDonations(rows, donor, date) <==> x in rows && x.donor == donor && x.date < date
  {
    if rows != [] {
      EarlierMembers(rows[1..], donor, date);
      assert forall x :: x in rows <==> x == rows[0] || x in rows[1..];
    }
  }

  /**
   * The date of `Donation.objects.filter(donor=donor, donation_date__lt=date)
   * .order_by('-donation_date').first()`, approved or not.
   */
  function LatestBefore(rows: Table, donor: nat, date: Day): Option<Day> {
    LatestDate(EarlierDonations(rows, donor, date))
  }

  /**
   * There is no earlier donation exactly when every donation of the donor
   * is on or after `date`; otherwise the result is the date of one of the
   * donor's earlier donations, and no earlier donation comes after it.
   */
  lemma LatestBeforeSpec(rows: Table, donor: nat, date: Day)
    ensures LatestBefore(rows, donor, date).None? <==> forall x | x in rows && x.donor == donor :: x.date >= date
    ensures LatestBefore(rows, donor, date).Some? ==> LatestBefore(rows, donor, date).value < date
    ensures LatestBefore(rows, donor, date).Some? ==>
      exists x | x in rows :: x.donor == donor && x.date == LatestBefore(rows, donor, date).value
    ensures LatestBefore(rows, donor, date).Some? ==>
      forall x | x in rows && x.donor == donor && x.date < date :: x.date <= LatestBefore(rows, donor, date).value
  {
    var earlier := EarlierDonations(rows, donor, date);
    EarlierMembers(rows, donor, date);
    LatestDateSpec(earlier);
    if earlier != [] {
      assert earlier[0] in earlier;
    }
  }

  /** The closest strictly earlier donation of the donor is fewer than 56 days back. */
  predicate TooEarly(rows: Table, donor: nat, date: Day) {
    match LatestBefore(rows, donor, date)
    case None => false
    case Some(last) => date - last < WaitDays
  }

  /**
   * Checking only the closest earlier donation is the same as checking them
   * all: a donation is too early exactly when some earlier donation of the
   * same donor, approved or not, is fewer than 56 days before it. Same-day
   * donations never count.
   */
  lemma TooEarlyIffRecentEarlier(rows: Table, donor: nat, date: Day)
    ensures TooEarly(rows, donor, date)
        <==> exists x | x in rows :: x.donor == donor && x.date < date && date - x.date < WaitDays
  {
    LatestBeforeSpec(rows, donor, date);
    match LatestBefore(rows, donor, date)
    case None =>
    case Some(last) =>
      var x :| x in rows && x.donor == donor && x.date == last;
  }

  /** The note `Donation.save` writes over a too-early donation's notes (dates as day numbers). */
  function TooEarlyNote(last: Day): string {
    "תרומה מוקדמת מדי. תרם לאחרונה ב-" + IntToString(last)
      + ". ניתן לתרום שוב החל מ-" + IntToString(last + WaitDays)
  }

  /** The fields of a donation after the 56-day hook of `Donation.save` has run. */
  function Vetted(rows: Table, row: DonationRow): (r: DonationRow)
    ensures r.approved == (row.approved && !TooEarly(rows, row.donor, row.date))
    ensures r == row.(approved := r.approved, notes := r.notes)
    ensures !TooEarly(rows, row.donor, row.date) ==> r == row
    ensures TooEarly(rows, row.donor, row.date) ==>
      r.notes == TooEarlyNote(LatestBefore(rows, row.donor, row.date).value)
  {
    match LatestBefore(rows, row.donor, row.date)
    case Some(last) =>
      if row.date - last < WaitDays then row.(approved := false, notes := TooEarlyNote(last)) else row
    case None => row
  }

  /** `super().save()`: update the stored row with the same key, or insert a new one. */
  function Persist(rows: Table, row: DonationRow): (r: Table)
    ensures Lookup(r, row.id) == Some(row)
    ensures forall j | j != row.id :: Lookup(r, j) == Lookup(rows, j)
  {
    if Lookup(rows, row.id).Some? then
      assert forall j :: Lookup(Update(rows, row), j) == if j == row.id then Some(row) else Lookup(rows, j) by {
        forall j ensures Lookup(Update(rows, row), j) == if j == row.id then Some(row) else Lookup(rows, j) {
          LookupUpdate(rows, row, j);
        }
      }
      Update(rows, row)
    else
      assert forall j :: Lookup(rows + [row], j) == if j == row.id then Some(row) else Lookup(rows, j) by {
        forall j ensures Lookup(rows + [row], j) == if j == row.id then Some(row) else Lookup(rows, j) {
          LookupAppend(rows, row, j);
        }
      }
      rows + [row]
  }

  /** A new row for a donor who has none is never flagged. */
  lemma FirstDonationApproved(rows: Table, row: DonationRow)
    requires forall x | x in rows :: x.donor != row.donor
    ensures Vetted(rows, row) == row
  {
    LatestBeforeSpec(rows, row.donor, row.date);
  }

  /** An instance of the `Donation` model. */
  class Donation {
    var id: nat
    var donor: nat
    var donorType: BloodType
    var date: Day
    var volume: nat
    var notes: string
    var approved: bool

    constructor (id: nat, donor: nat, donorType: BloodType, date: Day, volume: nat, notes: string, approved: bool)
      ensures Row() == DonationRow(id, donor, donorType, date, volume, notes, approved)
    {
      this.id, this.donor, this.donorType, this.date := id, donor, donorType, date;
      this.volume, this.notes, this.approved := volume, notes, approved;
    }

    /** The instance's field values. */
    function Row(): DonationRow
      reads this
    {
      DonationRow(id, donor, donorType, date, volume, notes, approved)
    }

    /**
     * `Donation.save`: when the donor's closest strictly earlier donation is
     * fewer than 56 days back, clear `is_approved` and replace `notes`; then
     * store the row.
     */
    method Save(rows: Table) returns (rows': Table)
      modifies this
      ensures Row() == Vetted(rows, old(Row()))
      ensures approved == (old(approved) && !TooEarly(rows, donor, date))
      ensures rows' == Persist(rows, Row())
    {
      var last := LatestBefore(rows, donor, date);
      if last.Some? && date - last.value < WaitDays {
        approved := false;
        notes := TooEarlyNote(last.value);
      }
      rows' := Persist(rows, Row());
    }
  }

  datatype DonorError = TooYoung | TooOld | MissingIllnessDetails | ExamInFuture

  /** `Donor.clean`: age 18 to 65, details for a chronic illness, no medical exam in the future. */
  function DonorClean(d: Donor, today: Date): Outcome<DonorError> {
    var age := DonorAge(d, today);
    if age < 18 then Fail(TooYoung)
    else if age > 65 then Fail(TooOld)
    else if d.hasChronicIllness && (d.chronicIllnessDetails.None? || d.chronicIllnessDetails.value == "") then
      Fail(MissingIllnessDetails)
    else if d.lastMedicalExam.Some? && !OnOrBefore(d.lastMedicalExam.value, today) then Fail(ExamInFuture)
    else Pass
  }

  /** `Donor.clean` passes exactly when all three conditions hold, the age on both ends. */
  lemma DonorCleanAccepts(d: Donor, today: Date)
    ensures DonorClean(d, today).Pass? <==>
      && 18 <= DonorAge(d, today) <= 65
      && (d.hasChronicIllness ==> d.chronicIllnessDetails.Some? && d.chronicIllnessDetails.value != "")
      && (d.lastMedicalExam.Some? ==> OnOrBefore(d.lastMedicalExam.value, today))
  {
  }
}
