/**
 * The integer heuristics the donor search ranks by: the availability
 * score, the placeholder distance and the match score. Each view
 * function accumulates a local `score`; each is modelled as that method
 * and proved against a function that sums the separate bonuses.
 */
module Scoring {
  import opened BloodTypes
  import opened Records
  import opened Eligibility

  /** The health bonus of the availability score. */
  function HealthBonus(h: HealthStatus): int {
    match h
    case Excellent => 20
    case Good => 10
    case _ => 0
  }

  /** The penalty for smoking and drinking. */
  function HabitPenalty(d: Donor): int {
    (if d.smokingStatus != NeverSmoked then 10 else 0) + (if d.alcoholUse != NeverDrinks then 5 else 0)
  }

  /**
   * `calculate_availability_score` as a sum: 100, less twice the days the
   * donor must still wait, plus the health bonus, less the habit penalty,
   * and never below 0.
   */
  function Availability(d: Donor, rows: Table, today: Day): int {
    var s := 100 - 2 * DaysUntilNextDonation(rows, d.id, today) + HealthBonus(d.healthStatus) - HabitPenalty(d);
    if s > 0 then s else 0
  }

  /**
   * The recency penalty of the view, two points per day short of 56 since
   * the latest donation, is twice the days left to wait.
   */
  lemma RecencyIsTwiceTheWait(rows: Table, donor: nat, today: Day)
    requires LastDonationDate(rows, donor).Some?
    ensures var passed := today - LastDonationDate(rows, donor).value;
      (if passed < WaitDays then (WaitDays - passed) * 2 else 0) == 2 * DaysUntilNextDonation(rows, donor, today)
  {
  }

  /** `calculate_availability_score`. */
  method AvailabilityScore(d: Donor, rows: Table, today: Day) returns (score: int)
    ensures score == Availability(d, rows, today)
    ensures 0 <= score <= 120
  {
    score := 100;
    var last := LastDonationDate(rows, d.id);
    if last.Some? {
      var passed := today - last.value;
      if passed < 56 {
        score := score - (56 - passed) * 2;
      }
      RecencyIsTwiceTheWait(rows, d.id, today);
    }
    if d.healthStatus == Excellent {
      score := score + 20;
    } else if d.healthStatus == Good {
      score := score + 10;
    }
    if d.smokingStatus != NeverSmoked {
      score := score - 10;
    }
    if d.alcoholUse != NeverDrinks {
      score := score - 5;
    }
    score := if score > 0 then score else 0;
  }

  /**
   * The top score of 120 goes exactly to a donor in excellent health who
   * neither smokes nor drinks and may give today.
   */
  lemma AvailabilityTop(d: Donor, rows: Table, today: Day)
    ensures Availability(d, rows, today) == 120
        <==> d.healthStatus == Excellent && d.smokingStatus == NeverSmoked && d.alcoholUse == NeverDrinks
             && CanDonate(rows, d.id, today)
  {
    CanDonateIffNoWait(rows, d.id, today);
  }

  /** Waiting longer never lowers the availability score. */
  lemma AvailabilityGrows(d: Donor, rows: Table, today: Day, later: Day)
    requires today <= later
    ensures Availability(d, rows, today) <= Availability(d, rows, later)
  {
  }

  /**
   * `calculate_simple_distance`, with `hash(national_id)` as the input:
   * Python's `%` by a positive divisor never goes negative, as Dafny's.
   */
  function SimpleDistance(hash: int): (km: int)
    ensures 1 <= km <= 50
    ensures exists q :: hash == 50 * q + (km - 1)
  {
    var m := hash % 50;
    assert hash == 50 * (hash / 50) + m;
    m + 1
  }

  /**
   * The blood-type bonus of the match score as written: 30 for the same
   * type, and 50 when the requested type is O- or O+ and the donor's type
   * is the same — a branch that is only reached when the types differ.
   */
  function TypeBonus(donorType: BloodType, needed: string): (b: int)
    ensures b == (if Name(donorType) == needed then 30 else 0)
  {
    if Name(donorType) == needed then 30
    else if (needed == "O-" || needed == "O+") && Name(donorType) == needed then 50
    else 0
  }

  /** The health bonus of the match score. */
  function HealthMatchBonus(h: HealthStatus): int {
    match h
    case Excellent => 25
    case Good => 15
    case _ => 0
  }

  /** The distance bonus: 20 within 10 km, 10 within 25 km. */
  function DistanceBonus(km: int): int {
    if km <= 10 then 20 else if km <= 25 then 10 else 0
  }

  /** The experience bonus: 15 for more than five donations, 5 for any. */
  function ExperienceBonus(count: nat): int {
    if count > 5 then 15 else if count > 0 then 5 else 0
  }

  /** `calculate_match_score` as a sum of its bonuses. */
  function Match(d: Donor, needed: string, rows: Table, today: Day, hash: int): int {
    100 + TypeBonus(d.bloodType, needed)
      + (if DaysUntilNextDonation(rows, d.id, today) == 0 then 40 else 0)
      + HealthMatchBonus(d.healthStatus)
      + DistanceBonus(SimpleDistance(hash))
      + ExperienceBonus(DonationCount(rows, d.id))
  }

  /** `calculate_match_score`. */
  method MatchScore(d: Donor, needed: string, rows: Table, today: Day, hash: int) returns (score: int)
    ensures score == Match(d, needed, rows, today, hash)
    ensures 100 <= score <= 230
  {
    score := 100;
    if Name(d.bloodType) == needed {
      score := score + 30;
    } else if (needed == "O-" || needed == "O+") && Name(d.bloodType) == needed {
      score := score + 50;
    }
    if DaysUntilNextDonation(rows, d.id, today) == 0 {
      score := score + 40;
    }
    if d.healthStatus == Excellent {
      score := score + 25;
    } else if d.healthStatus == Good {
      score := score + 15;
    }
    var distance := SimpleDistance(hash);
    if distance <= 10 {
      score := score + 20;
    } else if distance <= 25 {
      score := score + 10;
    }
    var total := DonationCount(rows, d.id);
    if total > 5 {
      score := score + 15;
    } else if total > 0 {
      score := score + 5;
    }
  }

  /**
   * Of two donors alike in all but blood type, the one of exactly the
   * requested type scores 30 more: the +50 bonus for O- and O+ never
   * applies.
   */
  lemma ExactTypeWorthThirty(d: Donor, t: BloodType, needed: string, rows: Table, today: Day, hash: int)
    requires Name(d.bloodType) == needed && Name(t) != needed
    ensures Match(d, needed, rows, today, hash) == Match(d.(bloodType := t), needed, rows, today, hash) + 30
  {
  }

  /** The top match score of 230 needs the exact type, a donor free to give, excellent health, at most 10 km and more than five donations. */
  lemma MatchTop(d: Donor, needed: string, rows: Table, today: Day, hash: int)
    ensures Match(d, needed, rows, today, hash) == 230
        <==> Name(d.bloodType) == needed && CanDonate(rows, d.id, today) && d.healthStatus == Excellent
             && SimpleDistance(hash) <= 10 && DonationCount(rows, d.id) > 5
  {
    CanDonateIffNoWait(rows, d.id, today);
  }
}
