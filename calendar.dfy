/**
 * Calendar dates as (year, month, day) and the age rule shared by
 * `Donor.age` and `DonorForm.clean_date_of_birth`.
 */
module Calendar {

  datatype Date = Date(year: int, month: int, day: int)

  /** Python's `(a.month, a.day) < (b.month, b.day)`: tuples compare lexicographically. */
  predicate MonthDayBefore(a: Date, b: Date) {
    a.month < b.month || (a.month == b.month && a.day < b.day)
  }

  /** Python's `a <= b` on dates: year first, then month, then day. */
  predicate OnOrBefore(a: Date, b: Date) {
    a.year < b.year || (a.year == b.year && !MonthDayBefore(b, a))
  }

  /** `today.year - birth.year - ((today.month, today.day) < (birth.month, birth.day))`. */
  function Age(birth: Date, today: Date): int {
    today.year - birth.year - (if MonthDayBefore(today, birth) then 1 else 0)
  }

  /** The calendar position of the `n`-th birthday (same month and day, `n` years on). */
  function Birthday(birth: Date, n: int): Date {
    Date(birth.year + n, birth.month, birth.day)
  }

  /** The age is the number of birthdays reached: the last one is not after today, the next one is. */
  lemma AgeCountsBirthdays(birth: Date, today: Date)
    ensures OnOrBefore(Birthday(birth, Age(birth, today)), today)
    ensures !OnOrBefore(Birthday(birth, Age(birth, today) + 1), today)
  {
  }

  /** The age never decreases as time goes on. */
  lemma {:induction false} AgeMonotone(birth: Date, today: Date, later: Date)
    requires OnOrBefore(today, later)
    ensures Age(birth, today) <= Age(birth, later)
  {
    AgeCountsBirthdays(birth, today);
    AgeCountsBirthdays(birth, later);
  }
}
