/**
 * The stock of donations as `fulfill_request` draws it down: the rows it
 * deletes when emptied, the rows it saves with a smaller volume, and the
 * total volume that leaves the table.
 */
module Stock {
  import opened Wrappers
  import opened Records

  /** The total of a list of draws. */
  function Sum(t: seq<nat>): nat {
    if t == [] then 0 else t[0] + Sum(t[1..])
  }

  /** A donation touched by the walk and what is left of it: nothing once its volume reaches 0. */
  function Residue(x: DonationRow, taken: nat): (r: Option<DonationRow>)
    requires taken <= x.volume
    ensures r.None? <==> taken == x.volume
    ensures r.Some? ==> r.value == x.(volume := x.volume - taken) && r.value.volume > 0
  {
    if x.volume - taken == 0 then None else Some(x.(volume := x.volume - taken))
  }

  /** The keys of a list of rows, in order. */
  function Keys(q: Table): (r: seq<nat>)
    ensures |r| == |q|
    ensures forall k | 0 <= k < |q| :: r[k] == q[k].id
  {
    if q == [] then [] else [q[0].id] + Keys(q[1..])
  }

  /**
   * Drawing `taken` millilitres from the donation `d`: the row is deleted
   * when that empties it and saved with the smaller volume otherwise.
   */
  function Withdraw(rows: Table, d: DonationRow, taken: nat): Table {
    if taken >= d.volume then Delete(rows, d.id) else Update(rows, d.(volume := d.volume - taken))
  }

  /** `d` is stored as it is, in a table with unique keys. */
  predicate Stored(rows: Table, d: DonationRow) {
    UniqueIds(rows) && Lookup(rows, d.id) == Some(d)
  }

  /** After one draw the donation's key finds its residue: nothing once emptied, else the smaller row. */
  lemma WithdrawFinds(rows: Table, d: DonationRow, taken: nat)
    requires Stored(rows, d) && taken <= d.volume
    ensures Lookup(Withdraw(rows, d, taken), d.id) == Residue(d, taken)
  {
    if taken >= d.volume {
      LookupDelete(rows, d.id, d.id);
    } else {
      LookupUpdate(rows, d.(volume := d.volume - taken), d.id);
    }
  }

  /** One draw leaves every other key finding what it found. */
  lemma WithdrawKeeps(rows: Table, d: DonationRow, taken: nat, j: nat)
    requires j != d.id
    ensures Lookup(Withdraw(rows, d, taken), j) == Lookup(rows, j)
  {
    if taken >= d.volume {
      LookupDelete(rows, d.id, j);
    } else {
      LookupUpdate(rows, d.(volume := d.volume - taken), j);
    }
  }

  /** One draw keeps the keys unique. */
  lemma WithdrawUnique(rows: Table, d: DonationRow, taken: nat)
    requires UniqueIds(rows)
    ensures UniqueIds(Withdraw(rows, d, taken))
  {
    if taken >= d.volume {
      DeleteKeepsUnique(rows, d.id);
    } else {
      UpdateKeepsUnique(rows, d.(volume := d.volume - taken));
    }
  }

  /** One draw takes exactly the amount drawn out of the stock. */
  lemma WithdrawVolume(rows: Table, d: DonationRow, taken: nat)
    requires Stored(rows, d) && taken <= d.volume
    ensures VolumeSum(Withdraw(rows, d, taken)) + taken == VolumeSum(rows)
  {
    if taken >= d.volume {
      VolumeAfterDelete(rows, d.id);
    } else {
      VolumeAfterUpdate(rows, d.(volume := d.volume - taken));
    }
  }

  /** The table after the first `n` draws of a walk. */
  function Drawn(rows: Table, q: Table, t: seq<nat>, n: nat): Table
    requires n <= |q| && n <= |t|
  {
    if n == 0 then rows else Withdraw(Drawn(rows, q, t, n - 1), q[n - 1], t[n - 1])
  }

  /** The draws so far followed by one more. */
  lemma {:induction false} DrawnSnoc(rows: Table, q: Table, t: seq<nat>, x: nat)
    requires |t| < |q|
    ensures Drawn(rows, q, t + [x], |t| + 1) == Withdraw(Drawn(rows, q, t, |t|), q[|t|], x)
  {
    DrawnAgree(rows, q, t + [x], t, |t|);
  }

  /** The first `n` draws decide the table after them. */
  lemma {:induction false} DrawnAgree(rows: Table, q: Table, t: seq<nat>, u: seq<nat>, n: nat)
    requires n <= |q| && n <= |t| && n <= |u| && t[..n] == u[..n]
    ensures Drawn(rows, q, t, n) == Drawn(rows, q, u, n)
  {
    if n > 0 {
      assert t[..n - 1] == t[..n][..n - 1] && u[..n - 1] == u[..n][..n - 1];
      assert t[n - 1] == t[..n][n - 1] && u[n - 1] == u[..n][n - 1];
      DrawnAgree(rows, q, t, u, n - 1);
    }
  }

  /** The preconditions of a walk: unique keys, stored donations, no draw above a donation's volume. */
  predicate Walk(rows: Table, q: Table, t: seq<nat>, n: nat) {
    && UniqueIds(rows) && UniqueIds(q) && (forall x | x in q :: x in rows)
    && n <= |q| && n <= |t| && forall k | 0 <= k < n :: t[k] <= q[k].volume
  }

  /** Draw `n - 1` of a walk finds its donation stored as it was. */
  lemma {:induction false} DrawnStep(rows: Table, q: Table, t: seq<nat>, n: nat)
    requires Walk(rows, q, t, n) && n > 0
    decreases n, 0
    ensures Lookup(Drawn(rows, q, t, n - 1), q[n - 1].id) == Some(q[n - 1])
  {
    StoredUntouched(rows, q, n - 1);
    DrawnOther(rows, q, t, n - 1, q[n - 1].id);
  }

  /** A key outside the first `n` keys is outside the first `n - 1` and is not key `n - 1`. */
  lemma KeysPrefix(q: Table, n: nat, j: nat)
    requires 0 < n <= |q| && j !in Keys(q)[..n]
    ensures j != q[n - 1].id && j !in Keys(q)[..n - 1]
  {
    var ks := Keys(q);
    assert ks[..n][n - 1] == q[n - 1].id;
    assert ks[..n - 1] == ks[..n][..n - 1];
  }

  /** The draws leave every row they do not reach as it was. */
  lemma {:induction false} DrawnOther(rows: Table, q: Table, t: seq<nat>, n: nat, j: nat)
    requires Walk(rows, q, t, n) && j !in Keys(q)[..n]
    decreases n, 1
    ensures Lookup(Drawn(rows, q, t, n), j) == Lookup(rows, j)
  {
    if n > 0 {
      KeysPrefix(q, n, j);
      DrawnOther(rows, q, t, n - 1, j);
      WithdrawKeeps(Drawn(rows, q, t, n - 1), q[n - 1], t[n - 1], j);
    }
  }

  /** The draws keep the keys unique. */
  lemma {:induction false} DrawnUnique(rows: Table, q: Table, t: seq<nat>, n: nat)
    requires Walk(rows, q, t, n)
    ensures UniqueIds(Drawn(rows, q, t, n))
  {
    if n > 0 {
      DrawnUnique(rows, q, t, n - 1);
      WithdrawUnique(Drawn(rows, q, t, n - 1), q[n - 1], t[n - 1]);
    }
  }

  /**
   * Each donation drawn from is gone when the draw emptied it and otherwise
   * stored with its volume reduced by the draw.
   */
  lemma {:induction false} DrawnRow(rows: Table, q: Table, t: seq<nat>, n: nat, k: nat)
    requires Walk(rows, q, t, n) && k < n
    ensures Lookup(Drawn(rows, q, t, n), q[k].id) == Residue(q[k], t[k])
  {
    var before := Drawn(rows, q, t, n - 1);
    if k == n - 1 {
      DrawnStep(rows, q, t, n);
      DrawnUnique(rows, q, t, n - 1);
      WithdrawFinds(before, q[k], t[k]);
    } else {
      DrawnRow(rows, q, t, n - 1, k);
      assert q[k].id != q[n - 1].id;
      WithdrawKeeps(before, q[n - 1], t[n - 1], q[k].id);
    }
  }

  /** Conservation: the stock shrinks by exactly the total drawn. */
  lemma {:induction false} DrawnVolume(rows: Table, q: Table, t: seq<nat>, n: nat)
    requires Walk(rows, q, t, n)
    ensures VolumeSum(Drawn(rows, q, t, n)) + Sum(t[..n]) == VolumeSum(rows)
  {
    if n > 0 {
      DrawnVolume(rows, q, t, n - 1);
      DrawnStep(rows, q, t, n);
      DrawnUnique(rows, q, t, n - 1);
      SumStep(t, n - 1);
      WithdrawVolume(Drawn(rows, q, t, n - 1), q[n - 1], t[n - 1]);
    }
  }

  /** The running total of the draws grows by the next draw. */
  lemma SumStep(t: seq<nat>, i: nat)
    requires i < |t|
    ensures Sum(t[..i + 1]) == Sum(t[..i]) + t[i]
  {
    assert t[..i + 1] == t[..i] + [t[i]];
    SumAppend(t[..i], t[i]);
  }

  /** A walked donation not reached yet is still stored as it was. */
  lemma StoredUntouched(rows: Table, q: Table, i: nat)
    requires UniqueIds(rows) && UniqueIds(q) && i < |q| && q[i] in rows
    ensures q[i].id !in Keys(q)[..i]
    ensures Lookup(rows, q[i].id) == Some(q[i])
  {
    var m :| 0 <= m < |rows| && rows[m] == q[i];
    LookupRow(rows, m);
  }

  lemma {:induction false} SumAppend(t: seq<nat>, x: nat)
    ensures Sum(t + [x]) == Sum(t) + x
  {
    if t == [] {
      assert [x][1..] == [];
    } else {
      assert (t + [x])[1..] == t[1..] + [x];
      SumAppend(t[1..], x);
    }
  }
}
