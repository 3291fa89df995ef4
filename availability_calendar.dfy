/**
 * The partition of `donor_availability_calendar`: each donor who has
 * donated gets the day the 56-day rule frees them and the days until
 * then, and lands in one of three lists — available now, within a week,
 * or later.
 *
 * As written, the view's query names its annotations after two read-only
 * properties of `Donor`, so it fails on the first donor who has donated
 * (CalendarAsWritten). Entries is the calendar the view is meant to build.
 */
module AvailabilityCalendar {
  import opened Wrappers
  import opened Records
  import opened Eligibility

  /** One row of `availability_data`. */
  datatype Entry = Entry(donor: nat, last: Day, next: Day, daysUntil: int, canDonateNow: bool, count: nat)

  /**
   * The row for a donor whose latest donation is on `last`. Given the
   * donor's real latest date, it says what the donor's own properties say:
   * free now exactly when `can_donate`, and the days left, floored at 0,
   * are `days_until_next_donation`.
   */
  function EntryFor(rows: Table, donor: nat, last: Day, today: Day): (e: Entry)
    ensures e.next == last + WaitDays && e.daysUntil == e.next - today
    ensures e.canDonateNow <==> e.daysUntil <= 0
    ensures LastDonationDate(rows, donor) == Some(last) ==> (e.canDonateNow <==> CanDonate(rows, donor, today))
    ensures LastDonationDate(rows, donor) == Some(last) ==>
      (if e.daysUntil > 0 then e.daysUntil else 0) == DaysUntilNextDonation(rows, donor, today)
  {
    var next := last + WaitDays;
    Entry(donor, last, next, next - today, next - today <= 0, DonationCount(rows, donor))
  }

  /** `availability_data`: a row for each of `donors` that has donated, in the given order. */
  function Entries(donors: seq<nat>, rows: Table, today: Day): (es: seq<Entry>)
    ensures forall e | e in es :: LastDonationDate(rows, e.donor) == Some(e.last)
    ensures forall e | e in es :: e == EntryFor(rows, e.donor, e.last, today)
  {
    if donors == [] then []
    else
      var rest := Entries(donors[1..], rows, today);
      match LastDonationDate(rows, donors[0])
      case None => rest
      case Some(last) => [EntryFor(rows, donors[0], last, today)] + rest
  }

  /** `available_donors`: the rows that may give now. */
  function AvailableNow(es: seq<Entry>): (r: seq<Entry>)
    ensures forall e :: e in r <==> e in es && e.canDonateNow
  {
    if es == [] then []
    else (if es[0].canDonateNow then [es[0]] else []) + AvailableNow(es[1..])
  }

  /** `soon_available`: not yet, but within seven days. */
  function SoonAvailable(es: seq<Entry>): (r: seq<Entry>)
    ensures forall e :: e in r <==> e in es && !e.canDonateNow && e.daysUntil <= 7
  {
    if es == [] then []
    else (if !es[0].canDonateNow && es[0].daysUntil <= 7 then [es[0]] else []) + SoonAvailable(es[1..])
  }

  /** `future_available`: more than seven days away. */
  function FutureAvailable(es: seq<Entry>): (r: seq<Entry>)
    ensures forall e :: e in r <==> e in es && !e.canDonateNow && e.daysUntil > 7
  {
    if es == [] then []
    else (if !es[0].canDonateNow && es[0].daysUntil > 7 then [es[0]] else []) + FutureAvailable(es[1..])
  }

  /** Together the three lists hold every row exactly as often as the data does. */
  lemma {:induction false} ListsPartition(es: seq<Entry>)
    requires forall e | e in es :: e.canDonateNow <==> e.daysUntil <= 0
    ensures multiset(AvailableNow(es)) + multiset(SoonAvailable(es)) + multiset(FutureAvailable(es)) == multiset(es)
  {
    if es != [] {
      assert es[0] in es;
      ListsPartition(es[1..]);
      assert es == [es[0]] + es[1..];
    }
  }

  /** A row is in exactly one list, fixed by the days until the donor is free: at most 0, 1 to 7, or more. */
  lemma OneListEach(es: seq<Entry>, e: Entry)
    requires e in es && (e.canDonateNow <==> e.daysUntil <= 0)
    ensures e in AvailableNow(es) <==> e.daysUntil <= 0
    ensures e in SoonAvailable(es) <==> 1 <= e.daysUntil <= 7
    ensures e in FutureAvailable(es) <==> e.daysUntil > 7
  {
  }

  /**
   * The calendar agrees with the donor's own properties: a row is available
   * now exactly when `can_donate` holds, and its days until free, floored
   * at 0, are `days_until_next_donation`.
   */
  lemma CalendarAgreesWithDonor(donors: seq<nat>, rows: Table, today: Day, e: Entry)
    requires e in Entries(donors, rows, today)
    ensures e.canDonateNow <==> CanDonate(rows, e.donor, today)
    ensures (if e.daysUntil > 0 then e.daysUntil else 0) == DaysUntilNextDonation(rows, e.donor, today)
  {
  }

  /** Every donor listed who has donated has a row, and no other donor does. */
  lemma {:induction false} EntriesCoverDonors(donors: seq<nat>, rows: Table, today: Day, donor: nat)
    ensures (exists e | e in Entries(donors, rows, today) :: e.donor == donor)
        <==> donor in donors && LastDonationDate(rows, donor).Some?
  {
    if donors != [] {
      EntriesCoverDonors(donors[1..], rows, today, donor);
      if donor == donors[0] && LastDonationDate(rows, donor).Some? {
        assert Entries(donors, rows, today)[0].donor == donor;
      }
      if donor in donors[1..] {
        assert donor in donors;
      }
      if donor in donors && donor != donors[0] {
        assert donor in donors[1..];
      }
    }
  }

  datatype CalendarError = AnnotationHasNoSetter

  /**
   * The view as written: the query annotates `last_donation_date` and
   * `total_donations`, the names of two read-only properties of `Donor`,
   * and setting them on the first donor fetched fails. Only a calendar
   * without rows renders.
   */
  function CalendarAsWritten(donors: seq<nat>, rows: Table, today: Day): (r: Result<seq<Entry>, CalendarError>)
    ensures r.Ok? ==> r.value == []
  {
    if Entries(donors, rows, today) == [] then Ok([]) else Err(AnnotationHasNoSetter)
  }

  /** As written, the page fails as soon as one listed donor has donated. */
  lemma CalendarFailsOnceDonated(donors: seq<nat>, rows: Table, today: Day, donor: nat)
    requires donor in donors && LastDonationDate(rows, donor).Some?
    ensures CalendarAsWritten(donors, rows, today).Err?
  {
    EntriesCoverDonors(donors, rows, today, donor);
  }
}
