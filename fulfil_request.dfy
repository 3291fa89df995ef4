/**
 * `fulfill_request`: draw a request's need from the stock of approved,
 * compatible donations, oldest donation first, shrinking or deleting each
 * donation drawn from, and report what was taken.
 */
module Fulfilment {
  import opened Wrappers
  import opened BloodTypes
  import opened Records
  import opened Stock
  import opened Inventory
  import opened Eligibility

  /**
   * What a walk over the donations `q` for `units` millilitres logs: one
   * line per donation drawn from, with the amount `Takes` gives it, then
   * the closing line for what is still missing.
   */
  ghost predicate Logged(q: Table, units: int, log: seq<LogLine>) {
    var t := Takes(q, units);
    && |log| == |t| + 1
    && (forall k | 0 <= k < |t| :: log[k] == Took(t[k], q[k].id))
    && log[|t|] == FinalLine(Leftover(q, units))
  }

  /**
   * What the walk does to the stock: each donation drawn from holds its
   * residue (or is gone), every other row is as it was, the stock loses
   * exactly the total drawn and the keys stay unique.
   */
  ghost predicate Stocked(rows: Table, q: Table, units: int, rows': Table) {
    var t := Takes(q, units);
    && (forall k | 0 <= k < |t| :: t[k] <= q[k].volume && Lookup(rows', q[k].id) == Residue(q[k], t[k]))
    && (forall j | j !in Keys(q)[..|t|] :: Lookup(rows', j) == Lookup(rows, j))
    && VolumeSum(rows') + Sum(t) == VolumeSum(rows)
    && UniqueIds(rows')
  }

  /**
   * `fulfill_request`: selects the approved donations of the compatible
   * types (only O- in an emergency), oldest first, and draws the need from
   * them; returns the new table and the log (its lines as `LogLine` values,
   * whose text is `Render`).
   */
  method FulfillRequest(rows: Table, bloodType: string, units: int, emergency: bool)
    returns (rows': Table, log: seq<LogLine>)
    requires UniqueIds(rows)
    ensures Logged(Query(rows, CompatibleTypes(bloodType, emergency)), units, log)
    ensures Stocked(rows, Query(rows, CompatibleTypes(bloodType, emergency)), units, rows')
  {
    var types := CompatibleTypes(bloodType, emergency);
    var donations := Query(rows, types);
    rows', log := Draw(rows, donations, units);
    DrawEffect(rows, donations, units);
  }

  /** What a complete walk does to the stock, from the properties of the draws. */
  lemma DrawEffect(rows: Table, q: Table, units: int)
    requires UniqueIds(rows) && UniqueIds(q) && (forall x | x in q :: x in rows)
    ensures Stocked(rows, q, units, Drawn(rows, q, Takes(q, units), |Takes(q, units)|))
  {
    var t := Takes(q, units);
    TakesShape(q, units);
    assert Walk(rows, q, t, |t|);
    forall k | 0 <= k < |t| ensures Lookup(Drawn(rows, q, t, |t|), q[k].id) == Residue(q[k], t[k]) {
      DrawnRow(rows, q, t, |t|, k);
    }
    forall j | j !in Keys(q)[..|t|] ensures Lookup(Drawn(rows, q, t, |t|), j) == Lookup(rows, j) {
      DrawnOther(rows, q, t, |t|, j);
    }
    DrawnUnique(rows, q, t, |t|);
    DrawnVolume(rows, q, t, |t|);
    assert t[..|t|] == t;
  }

  /**
   * Saving a shrunk donation runs the 56-day hook of `Donation.save` again;
   * for a stored donation that is not too early against the table, the save
   * is the plain update `Withdraw` makes.
   */
  lemma WithdrawIsSave(rows: Table, d: DonationRow, taken: nat)
    requires Stored(rows, d) && taken < d.volume && !TooEarly(rows, d.donor, d.date)
    ensures Withdraw(rows, d, taken) == Persist(rows, Vetted(rows, d.(volume := d.volume - taken)))
  {
  }

  /**
   * The loop of `fulfill_request`: walks the donations in order while the
   * need is positive, draws from each, deletes the ones it empties and saves
   * the one it shrinks; logs one line per donation drawn from, then the
   * success line when nothing is missing or else the shortfall.
   */
  method Draw(rows: Table, donations: Table, units: int) returns (rows': Table, log: seq<LogLine>)
    ensures Logged(donations, units, log)
    ensures rows' == Drawn(rows, donations, Takes(donations, units), |Takes(donations, units)|)
  {
    ghost var taken: seq<nat> := [];
    var needed := units;
    rows' := rows;
    log := [];
    var i := 0;
    assert donations[0..] == donations;
    assert Takes(donations, units) == taken + Takes(donations[i..], needed);
    while i < |donations|
      invariant 0 <= i <= |donations| && |taken| == i && |log| == i
      invariant Takes(donations, units) == taken + Takes(donations[i..], needed)
      invariant Leftover(donations[i..], needed) == Leftover(donations, units)
      invariant forall k | 0 <= k < i :: log[k] == Took(taken[k], donations[k].id)
      invariant rows' == Drawn(rows, donations, taken, i)
    {
      if needed <= 0 {
        break;
      }
      var d := donations[i];
      var take: nat := if d.volume >= needed then needed else d.volume;
      StepKeeps(rows, donations, units, taken, log, rows', needed, i, take);
      log := log + [Took(take, d.id)];
      rows' := Withdraw(rows', d, take);
      taken := taken + [take];
      needed := needed - take;
      i := i + 1;
    }
    WalkEnds(rows, donations, units, taken, log, rows', needed, i);
    log := log + [FinalLine(needed)];
  }

  /** The walk from donation `i` on with `needed` still open: its first draw, then the walk from `i + 1`. */
  lemma WalkStep(q: Table, i: nat, needed: int, take: nat)
    requires i < |q| && needed > 0
    requires take == if q[i].volume >= needed then needed else q[i].volume
    ensures Takes(q[i..], needed) == [take] + Takes(q[i + 1..], needed - take)
    ensures Leftover(q[i..], needed) == Leftover(q[i + 1..], needed - take)
  {
    assert q[i..][0] == q[i] && q[i..][1..] == q[i + 1..];
  }

  /** The walk from donation `i` on draws nothing once the stock or the need is exhausted. */
  lemma WalkDone(q: Table, i: nat, needed: int)
    requires i <= |q| && (i == |q| || needed <= 0)
    ensures Takes(q[i..], needed) == [] && Leftover(q[i..], needed) == needed
  {
  }

  lemma AppendOne(a: seq<nat>, x: nat, b: seq<nat>)
    ensures a + ([x] + b) == (a + [x]) + b
    ensures (a + [x] + b)[|a|] == x
  {
  }

  /** One pass of the loop keeps its invariant. */
  lemma StepKeeps(rows: Table, q: Table, units: int, taken: seq<nat>, log: seq<LogLine>, current: Table, needed: int, i: nat, take: nat)
    requires i < |q| && |taken| == i && |log| == i && needed > 0
    requires take == if q[i].volume >= needed then needed else q[i].volume
    requires Takes(q, units) == taken + Takes(q[i..], needed)
    requires Leftover(q[i..], needed) == Leftover(q, units)
    requires forall k | 0 <= k < i :: log[k] == Took(taken[k], q[k].id)
    requires current == Drawn(rows, q, taken, i)
    ensures Takes(q, units) == (taken + [take]) + Takes(q[i + 1..], needed - take)
    ensures Leftover(q[i + 1..], needed - take) == Leftover(q, units)
    ensures forall k | 0 <= k < i + 1 :: (log + [Took(take, q[i].id)])[k] == Took((taken + [take])[k], q[k].id)
    ensures Withdraw(current, q[i], take) == Drawn(rows, q, taken + [take], i + 1)
  {
    WalkStep(q, i, needed, take);
    AppendOne(taken, take, Takes(q[i + 1..], needed - take));
    DrawnSnoc(rows, q, taken, take);
  }

  /** When the loop stops, its invariant gives the log and the table the walk specifies. */
  lemma WalkEnds(rows: Table, q: Table, units: int, taken: seq<nat>, log: seq<LogLine>, current: Table, needed: int, i: nat)
    requires i <= |q| && |taken| == i && |log| == i && (i == |q| || needed <= 0)
    requires Takes(q, units) == taken + Takes(q[i..], needed)
    requires Leftover(q[i..], needed) == Leftover(q, units)
    requires forall k | 0 <= k < i :: log[k] == Took(taken[k], q[k].id)
    requires current == Drawn(rows, q, taken, i)
    ensures Logged(q, units, log + [FinalLine(needed)])
    ensures current == Drawn(rows, q, Takes(q, units), |Takes(q, units)|)
  {
    WalkDone(q, i, needed);
    assert taken == Takes(q, units);
  }
}
