/**
 * What `fulfill_request` draws from: the compatible donor types, the query
 * over the Donation table, oldest first, and the amounts a need takes from
 * it in turn; and the lines of the log it returns.
 *
 * The need is subtracted from `volume_ml` as it is, with no conversion of
 * units to millilitres.
 */
module Inventory {
  import opened Wrappers
  import opened Text
  import opened BloodTypes
  import opened Records
  import opened Stock

  /** The donor types a request may draw from: `['O-']` in an emergency, else `COMPATIBLE.get(type, [])`. */
  function CompatibleTypes(bloodType: string, emergency: bool): (r: set<BloodType>)
    ensures emergency ==> r == {OMinus}
    ensures !emergency && Parse(bloodType).Some? ==> r == Compatible(Parse(bloodType).value)
    ensures !emergency && Parse(bloodType).None? ==> r == {}
    ensures OMinus in r <==> emergency || Parse(bloodType).Some?
    ensures !emergency ==> forall d | d in r :: Parse(bloodType).Some? && CanGive(d, Parse(bloodType).value)
  {
    if emergency then {OMinus} else CompatibleFor(bloodType)
  }

  /** A row the query selects: approved, from a donor of one of the types. */
  predicate Eligible(x: DonationRow, types: set<BloodType>) {
    x.approved && x.donorType in types
  }

  /** `filter(donor__blood_type__in=types, is_approved=True)`, in table order. */
  function Selected(rows: Table, types: set<BloodType>): (r: Table)
    ensures forall x :: x in r <==> x in rows && Eligible(x, types)
    ensures (forall x | x in rows :: !Eligible(x, types)) ==> r == []
    ensures UniqueIds(rows) ==> UniqueIds(r)
  {
    if rows == [] then []
    else
      var rest := Selected(rows[1..], types);
      if Eligible(rows[0], types) then
        if UniqueIds(rows) then
          assert UniqueIds(rows[1..]) by {
            forall i, j | 0 <= i < j < |rows[1..]| ensures rows[1..][i].id != rows[1..][j].id {
              assert rows[1..][i] == rows[i + 1] && rows[1..][j] == rows[j + 1];
            }
          }
          forall y | y in rest ensures y.id != rows[0].id {
            var k :| 0 <= k < |rows[1..]| && rows[1..][k] == y;
            assert rows[k + 1] == y;
          }
          ConsUnique(rows[0], rest);
          [rows[0]] + rest
        else [rows[0]] + rest
      else rest
  }

  /** Oldest donation first. */
  predicate DateOrdered(q: Table) {
    forall i, j | 0 <= i < j < |q| :: q[i].date <= q[j].date
  }

  /** Puts `x` into a date-ordered list after the rows dated before it. */
  function InsertByDate(x: DonationRow, t: Table): (r: Table)
    requires DateOrdered(t)
    ensures DateOrdered(r)
    ensures multiset(r) == multiset(t) + multiset{x}
  {
    if t == [] || x.date <= t[0].date then
      [x] + t
    else
      var rest := InsertByDate(x, t[1..]);
      assert t == [t[0]] + t[1..];
      HeadBeforeRest(x, t, rest);
      ConsOrdered(t[0], rest);
      [t[0]] + rest
  }

  /** The rows of `t` after its head, with `x` dated after the head, are all dated no earlier than the head. */
  lemma HeadBeforeRest(x: DonationRow, t: Table, rest: Table)
    requires DateOrdered(t) && t != [] && t[0].date < x.date
    requires multiset(rest) == multiset(t[1..]) + multiset{x}
    ensures forall y | y in rest :: t[0].date <= y.date
  {
    forall y | y in rest ensures t[0].date <= y.date {
      assert y in multiset(rest);
      if y != x {
        assert y in multiset(t[1..]);
        var k :| 0 <= k < |t[1..]| && t[1..][k] == y;
        assert t[k + 1] == y;
      }
    }
  }

  /** A row dated no later than any row of a date-ordered list can go in front. */
  lemma ConsOrdered(a: DonationRow, q: Table)
    requires DateOrdered(q)
    requires forall y | y in q :: a.date <= y.date
    ensures DateOrdered([a] + q)
  {
    forall i, j | 0 <= i < j < |[a] + q| ensures ([a] + q)[i].date <= ([a] + q)[j].date {
      assert ([a] + q)[j] == q[j - 1];
      if i > 0 {
        assert ([a] + q)[i] == q[i - 1];
      }
    }
  }

  /** Unique keys stay unique when a row with a new key is inserted. */
  lemma {:induction false} InsertKeepsUnique(x: DonationRow, t: Table)
    requires DateOrdered(t) && UniqueIds(t)
    requires forall y | y in t :: y.id != x.id
    ensures UniqueIds(InsertByDate(x, t))
  {
    if t == [] || x.date <= t[0].date {
      ConsUnique(x, t);
    } else {
      var rest := InsertByDate(x, t[1..]);
      assert UniqueIds(t[1..]) by {
        forall i, j | 0 <= i < j < |t[1..]| ensures t[1..][i].id != t[1..][j].id {
          assert t[1..][i] == t[i + 1] && t[1..][j] == t[j + 1];
        }
      }
      InsertKeepsUnique(x, t[1..]);
      assert t == [t[0]] + t[1..];
      forall y | y in rest ensures y.id != t[0].id {
        assert y in multiset(rest);
        if y != x {
          var k :| 0 <= k < |t[1..]| && t[1..][k] == y;
          assert t[k + 1] == y;
        }
      }
      ConsUnique(t[0], rest);
    }
  }

  /** `order_by('donation_date')`: a date-ordered rearrangement of the rows. */
  function SortByDate(q: Table): (r: Table)
    ensures DateOrdered(r)
    ensures multiset(r) == multiset(q)
  {
    if q == [] then []
    else
      assert q == [q[0]] + q[1..];
      InsertByDate(q[0], SortByDate(q[1..]))
  }

  /** Sorting keeps the keys unique. */
  lemma {:induction false} SortKeepsUnique(q: Table)
    requires UniqueIds(q)
    ensures UniqueIds(SortByDate(q))
  {
    if q != [] {
      var rest := SortByDate(q[1..]);
      assert UniqueIds(q[1..]) by {
        forall i, j | 0 <= i < j < |q[1..]| ensures q[1..][i].id != q[1..][j].id {
          assert q[1..][i] == q[i + 1] && q[1..][j] == q[j + 1];
        }
      }
      SortKeepsUnique(q[1..]);
      forall y | y in rest ensures y.id != q[0].id {
        assert y in multiset(q[1..]);
        var k :| 0 <= k < |q[1..]| && q[1..][k] == y;
        assert q[k + 1] == y;
      }
      InsertKeepsUnique(q[0], rest);
    }
  }

  /** The donations `fulfill_request` walks: the eligible rows, oldest first. */
  function Query(rows: Table, types: set<BloodType>): (r: Table)
    ensures forall x :: x in r <==> x in rows && Eligible(x, types)
    ensures DateOrdered(r)
    ensures UniqueIds(rows) ==> UniqueIds(r)
    ensures (forall x | x in rows :: !Eligible(x, types)) ==> r == []
  {
    var s := Selected(rows, types);
    assert UniqueIds(rows) ==> UniqueIds(SortByDate(s)) by {
      if UniqueIds(rows) {
        SortKeepsUnique(s);
      }
    }
    var r := SortByDate(s);
    assert forall x :: x in r <==> x in s by {
      forall x ensures x in r <==> x in s {
        assert x in r <==> x in multiset(r);
      }
    }
    r
  }

  /** An unknown blood type outside an emergency selects nothing. */
  lemma UnknownTypeSelectsNothing(rows: Table, bloodType: string)
    requires Parse(bloodType).None?
    ensures Query(rows, CompatibleTypes(bloodType, false)) == []
  {
  }

  /**
   * The millilitres drawn from each donation in turn while `needed` is
   * positive: all of a donation that is too small, just the rest of the
   * need from one that suffices.
   */
  function Takes(q: Table, needed: int): (t: seq<nat>)
    ensures |t| <= |q|
  {
    if needed <= 0 || q == [] then []
    else if q[0].volume >= needed then [needed]
    else [q[0].volume] + Takes(q[1..], needed - q[0].volume)
  }

  /** The value of `needed` when the walk stops. */
  function Leftover(q: Table, needed: int): int {
    if needed <= 0 || q == [] then needed
    else if q[0].volume >= needed then 0
    else Leftover(q[1..], needed - q[0].volume)
  }

  /** The smaller of two integers. */
  function Min(a: int, b: int): int {
    if a <= b then a else b
  }

  /**
   * Conservation: what is drawn plus what is still missing is the need, and
   * for a need of 0 or more what is drawn is the need or the whole stock,
   * whichever is smaller.
   */
  lemma {:induction false} TakesConserve(q: Table, needed: int)
    ensures Sum(Takes(q, needed)) + Leftover(q, needed) == needed
    ensures needed >= 0 ==> Sum(Takes(q, needed)) == Min(needed, VolumeSum(q))
    ensures needed >= 0 ==> Leftover(q, needed) >= 0
    ensures needed >= 0 ==> (Leftover(q, needed) == 0 <==> VolumeSum(q) >= needed)
  {
    if needed > 0 && q != [] && q[0].volume < needed {
      TakesConserve(q[1..], needed - q[0].volume);
    }
  }

  /**
   * The walk step by step: before the `k`-th draw the need still open is the
   * original need less the earlier draws, and it is positive; the draw is the
   * smaller of the donation's volume and that open need.
   */
  lemma {:induction false} TakesStep(q: Table, needed: int, k: nat)
    requires k < |Takes(q, needed)|
    ensures needed - Sum(Takes(q, needed)[..k]) > 0
    ensures Takes(q, needed)[k] == Min(q[k].volume, needed - Sum(Takes(q, needed)[..k]))
  {
    var t := Takes(q, needed);
    if k > 0 {
      var rest := Takes(q[1..], needed - q[0].volume);
      assert t == [q[0].volume] + rest;
      TakesStep(q[1..], needed - q[0].volume, k - 1);
      assert t[..k] == [q[0].volume] + rest[..k - 1];
      assert t[..k][1..] == rest[..k - 1];
      assert t[k] == rest[k - 1] && q[k] == q[1..][k - 1];
    }
  }

  /** The walk ends at the last donation or once nothing is open. */
  lemma {:induction false} TakesEnd(q: Table, needed: int)
    ensures |Takes(q, needed)| == |q| || needed - Sum(Takes(q, needed)) <= 0
  {
    if needed > 0 && q != [] && q[0].volume < needed {
      TakesEnd(q[1..], needed - q[0].volume);
      assert Takes(q, needed)[1..] == Takes(q[1..], needed - q[0].volume);
    }
  }

  /**
   * Each draw is within the donation's volume; every donation drawn from,
   * except possibly the last, is emptied; and the walk stops short of the
   * end of the stock only once the need is met.
   */
  lemma {:induction false} TakesShape(q: Table, needed: int)
    ensures forall k | 0 <= k < |Takes(q, needed)| :: Takes(q, needed)[k] <= q[k].volume
    ensures forall k | 0 <= k < |Takes(q, needed)| - 1 :: Takes(q, needed)[k] == q[k].volume
    ensures needed > 0 && |Takes(q, needed)| < |q| ==> Leftover(q, needed) == 0
    ensures needed > 0 && |Takes(q, needed)| < |q| ==> |Takes(q, needed)| >= 1
    ensures needed > 0 ==> |Takes(q, needed)| == Min(|q|, |Takes(q, needed)|)
  {
    if needed > 0 && q != [] && q[0].volume < needed {
      TakesShape(q[1..], needed - q[0].volume);
      var t := Takes(q, needed);
      assert t == [q[0].volume] + Takes(q[1..], needed - q[0].volume);
      forall k | 1 <= k < |t| ensures t[k] <= q[k].volume {
        assert t[k] == Takes(q[1..], needed - q[0].volume)[k - 1] && q[k] == q[1..][k - 1];
      }
      forall k | 1 <= k < |t| - 1 ensures t[k] == q[k].volume {
        assert t[k] == Takes(q[1..], needed - q[0].volume)[k - 1] && q[k] == q[1..][k - 1];
      }
    }
  }

  /**
   * First in, first out: when the walk draws from a donation, every donation
   * of the walk dated strictly before it comes earlier in the walk and was
   * emptied.
   */
  lemma Fifo(q: Table, needed: int, k: nat, m: nat)
    requires DateOrdered(q)
    requires k < |Takes(q, needed)| && m < |q| && q[m].date < q[k].date
    ensures m < k && Takes(q, needed)[m] == q[m].volume
  {
    assert m < k;
    TakesShape(q, needed);
  }

  /** One line of the log `fulfill_request` returns. */
  datatype LogLine = Took(ml: int, donation: nat) | Success | Shortage(missing: int)

  /** The text of a log line. */
  function Render(l: LogLine): string {
    match l
    case Took(ml, donation) => "נלקחו " + IntToString(ml) + " מ\"ל מתרומה #" + IntToString(donation)
    case Success => "הבקשה מולאה בהצלחה! ✅"
    case Shortage(missing) => "אין מספיק מלאי! חסרים " + IntToString(missing) + " מ\"ל ❌"
  }

  /**
   * The last line: success when nothing is missing, else the shortfall.
   * Its text alone tells the two apart.
   */
  function FinalLine(leftover: int): (l: LogLine)
    ensures l == Success <==> leftover == 0
    ensures l.Shortage? ==> l.missing == leftover
    ensures Render(l) == Render(Success) <==> leftover == 0
  {
    if leftover == 0 then Success
    else
      assert Render(Shortage(leftover))[0] != Render(Success)[0];
      Shortage(leftover)
  }

  /** A number's digits hold no letter f. */
  lemma NoFInNumber(x: int)
    ensures 'f' !in IntToString(x)
  {
    var r := IntToString(x);
    forall k | 0 <= k < |r| ensures r[k] != 'f' {
    }
  }

  /** No log line, in any case, contains the English words "fully fulfilled". */
  lemma NoLineSaysFullyFulfilled(l: LogLine)
    ensures !Contains(Render(l), "fully fulfilled")
  {
    assert "fully fulfilled"[0] == 'f';
    match l
    case Took(ml, donation) =>
      NoFInNumber(ml);
      NoFInNumber(donation);
      assert 'f' !in "נלקחו " && 'f' !in " מ\"ל מתרומה #";
      MissingCharNotContained(Render(l), "fully fulfilled", 'f');
    case Success =>
      MissingCharNotContained(Render(l), "fully fulfilled", 'f');
    case Shortage(missing) =>
      NoFInNumber(missing);
      assert 'f' !in "אין מספיק מלאי! חסרים " && 'f' !in " מ\"ל ❌";
      MissingCharNotContained(Render(l), "fully fulfilled", 'f');
  }
}
