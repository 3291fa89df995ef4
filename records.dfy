/**
 * The persisted entities: users' profiles, donors and the Donation table.
 *
 * A table is the list of its rows; rows are found by primary key with
 * `Lookup`, and the ORM's `delete()` and `save()` on a loaded row become
 * `Delete` and `Update`. Donation dates are day numbers, so that
 * `(a - b).days` is plain subtraction.
 */
module Records {
  import opened Wrappers
  import opened BloodTypes
  import opened Calendar

  /** A day number: `date.toordinal()`. */
  type Day = int

  /** `Profile.role` and its two tests. */
  datatype Profile = Profile(role: string) {
    predicate IsDoctor() { role == "doctor" }
    predicate IsPatient() { role == "patient" }
  }

  /** No profile is both a doctor's and a patient's. */
  lemma RolesExclusive(p: Profile)
    ensures !(p.IsDoctor() && p.IsPatient())
    ensures p.IsDoctor() ==> p.role == "doctor"
  {
    if p.IsDoctor() {
      assert p.role[0] != "patient"[0];
    }
  }

  datatype HealthStatus = Excellent | Good | Fair | Poor
  datatype SmokingStatus = NeverSmoked | FormerSmoker | LightSmoker | HeavySmoker
  datatype AlcoholUse = NeverDrinks | Social | Weekly | Daily

  /** A `Donor` row (the fields the rules read). */
  datatype Donor = Donor(
    id: nat,
    nationalId: string,
    dateOfBirth: Date,
    bloodType: BloodType,
    healthStatus: HealthStatus,
    phoneNumber: string,
    smokingStatus: SmokingStatus,
    alcoholUse: AlcoholUse,
    hasChronicIllness: bool,
    chronicIllnessDetails: Option<string>,
    lastMedicalExam: Option<Date>)

  /**
   * A `Donation` row. `donorType` is the donor's `blood_type`, the column that
   * the queries on `donor__blood_type` join to.
   */
  datatype DonationRow = DonationRow(
    id: nat,
    donor: nat,
    donorType: BloodType,
    date: Day,
    volume: nat,
    notes: string,
    approved: bool)

  type Table = seq<DonationRow>

  /** Primary keys are unique. */
  predicate UniqueIds(rows: Table) {
    forall i, j | 0 <= i < j < |rows| :: rows[i].id != rows[j].id
  }

  /** `Donation.objects.get(pk=id)`, or `None` when there is no such row. */
  function Lookup(rows: Table, id: nat): (r: Option<DonationRow>)
  {
    if rows == [] then None
    else if rows[0].id == id then Some(rows[0])
    else Lookup(rows[1..], id)
  }

  /** A lookup finds a stored row with the key asked for, and finds nothing exactly when no row has that key. */
  lemma {:induction false} LookupFinds(rows: Table, id: nat)
    ensures Lookup(rows, id).Some? ==> Lookup(rows, id).value in rows && Lookup(rows, id).value.id == id
    ensures Lookup(rows, id).None? <==> forall k | 0 <= k < |rows| :: rows[k].id != id
  {
    if rows != [] && rows[0].id != id {
      LookupFinds(rows[1..], id);
      assert forall k | 1 <= k < |rows| :: rows[k] == rows[1..][k - 1];
    }
  }

  /** With unique keys, every row is what looking up its key finds. */
  lemma {:induction false} LookupRow(rows: Table, k: nat)
    requires UniqueIds(rows) && k < |rows|
    ensures Lookup(rows, rows[k].id) == Some(rows[k])
  {
    if k > 0 {
      LookupRow(rows[1..], k - 1);
    }
  }

  /** `row.delete()`: the table without the row whose key is `id`. */
  function Delete(rows: Table, id: nat): (r: Table)
    ensures |r| <= |rows|
  {
    if rows == [] then []
    else if rows[0].id == id then Delete(rows[1..], id)
    else [rows[0]] + Delete(rows[1..], id)
  }

  /** After a delete the key finds nothing, and every other key finds what it found before. */
  lemma {:induction false} LookupDelete(rows: Table, id: nat, j: nat)
    ensures Lookup(Delete(rows, id), j) == if j == id then None else Lookup(rows, j)
  {
    if rows != [] {
      LookupDelete(rows[1..], id, j);
      if rows[0].id != id {
        var r := [rows[0]] + Delete(rows[1..], id);
        assert r[0] == rows[0] && r[1..] == Delete(rows[1..], id);
      }
    }
  }

  /** A delete adds no row. */
  lemma {:induction false} DeleteSubset(rows: Table, id: nat)
    ensures forall x | x in Delete(rows, id) :: x in rows
  {
    if rows != [] {
      DeleteSubset(rows[1..], id);
    }
  }

  /** Deleting keeps the primary keys unique. */
  lemma {:induction false} DeleteKeepsUnique(rows: Table, id: nat)
    requires UniqueIds(rows)
    ensures UniqueIds(Delete(rows, id))
  {
    if rows != [] {
      DeleteKeepsUnique(rows[1..], id);
      var rest := Delete(rows[1..], id);
      DeleteSubset(rows[1..], id);
      forall x | x in rest ensures x.id != rows[0].id {
        var k :| 0 <= k < |rows[1..]| && rows[1..][k] == x;
        assert rows[k + 1] == x;
      }
      if rows[0].id != id {
        ConsUnique(rows[0], rest);
      }
    }
  }

  /** `row.save()` on a row loaded from the table: the stored row with its key becomes `row`. */
  function Update(rows: Table, row: DonationRow): (r: Table)
    ensures |r| == |rows|
  {
    if rows == [] then []
    else if rows[0].id == row.id then [row] + Update(rows[1..], row)
    else [rows[0]] + Update(rows[1..], row)
  }

  /** An update replaces every row with the key of `row` by `row`, in place, and keeps the others. */
  lemma {:induction false} UpdateRows(rows: Table, row: DonationRow)
    ensures forall k | 0 <= k < |rows| :: Update(rows, row)[k] == if rows[k].id == row.id then row else rows[k]
  {
    if rows != [] {
      UpdateRows(rows[1..], row);
      var r := Update(rows, row);
      assert r[1..] == Update(rows[1..], row);
      forall k | 1 <= k < |rows| ensures r[k] == if rows[k].id == row.id then row else rows[k] {
        assert r[k] == r[1..][k - 1] && rows[k] == rows[1..][k - 1];
      }
    }
  }

  /** After an update the key of `row` finds `row` when it was stored, and every other key finds what it found before. */
  lemma {:induction false} LookupUpdate(rows: Table, row: DonationRow, j: nat)
    ensures Lookup(Update(rows, row), j) == if j == row.id && Lookup(rows, j).Some? then Some(row) else Lookup(rows, j)
  {
    if rows != [] {
      LookupUpdate(rows[1..], row, j);
      var r := Update(rows, row);
      assert r[1..] == Update(rows[1..], row);
    }
  }

  /** Updating keeps the primary keys unique. */
  lemma UpdateKeepsUnique(rows: Table, row: DonationRow)
    requires UniqueIds(rows)
    ensures UniqueIds(Update(rows, row))
  {
    UpdateRows(rows, row);
  }

  /** Appending a row leaves every key already present as it was and makes the new key find the new row. */
  lemma {:induction false} LookupAppend(rows: Table, row: DonationRow, j: nat)
    ensures Lookup(rows + [row], j)
         == if Lookup(rows, j).Some? then Lookup(rows, j) else if j == row.id then Some(row) else None
  {
    if rows == [] {
      assert [row][1..] == [];
    } else {
      assert (rows + [row])[1..] == rows[1..] + [row];
      LookupAppend(rows[1..], row, j);
    }
  }

  /** A row whose key no other row has can go in front of a table with unique keys. */
  lemma ConsUnique(a: DonationRow, rows: Table)
    requires UniqueIds(rows)
    requires forall y | y in rows :: y.id != a.id
    ensures UniqueIds([a] + rows)
  {
    forall i, j | 0 <= i < j < |[a] + rows| ensures ([a] + rows)[i].id != ([a] + rows)[j].id {
      if i == 0 {
        assert ([a] + rows)[j] == rows[j - 1];
      }
    }
  }

  /** The rows of one donor (`donor.donations`). */
  function DonationsOf(rows: Table, donor: nat): (r: Table)
    ensures forall x :: x in r <==> x in rows && x.donor == donor
  {
    if rows == [] then []
    else if rows[0].donor == donor then [rows[0]] + DonationsOf(rows[1..], donor)
    else DonationsOf(rows[1..], donor)
  }

  /** The latest date of a list of rows, or `None` for an empty list. */
  function LatestDate(rows: Table): Option<Day> {
    if rows == [] then None
    else
      var rest := LatestDate(rows[1..]);
      if rest.None? || rows[0].date >= rest.value then Some(rows[0].date) else rest
  }

  /** There is a latest date exactly when there are rows; it is the date of one of them, and none is later. */
  lemma {:induction false} LatestDateSpec(rows: Table)
    ensures LatestDate(rows).None? <==> rows == []
    ensures LatestDate(rows).Some? ==> exists x | x in rows :: x.date == LatestDate(rows).value
    ensures LatestDate(rows).Some? ==> forall x | x in rows :: x.date <= LatestDate(rows).value
  {
    if rows != [] {
      LatestDateSpec(rows[1..]);
      assert rows[0] in rows;
      assert forall x :: x in rows <==> x == rows[0] || x in rows[1..];
    }
  }

  /** `Donor.last_donation_date`: the latest date among the donor's donations, approved or not. */
  function LastDonationDate(rows: Table, donor: nat): (r: Option<Day>)
    ensures r.None? <==> forall x | x in rows :: x.donor != donor
    ensures r.Some? ==> exists x | x in rows :: x.donor == donor && x.date == r.value
    ensures r.Some? ==> forall x | x in rows && x.donor == donor :: x.date <= r.value
  {
    var mine := DonationsOf(rows, donor);
    LatestDateSpec(mine);
    if mine != [] then assert mine[0] in rows; LatestDate(mine) else LatestDate(mine)
  }

  /** The sum of the volumes of a list of rows. */
  function VolumeSum(rows: Table): nat {
    if rows == [] then 0 else rows[0].volume + VolumeSum(rows[1..])
  }

  /** `Donor.total_donations`: millilitres over all the donor's donations (0 when none). */
  function TotalDonated(rows: Table, donor: nat): nat {
    VolumeSum(DonationsOf(rows, donor))
  }

  /** `donor.donations.count()`. */
  function DonationCount(rows: Table, donor: nat): nat {
    |DonationsOf(rows, donor)|
  }

  /** Adding a row for a donor adds its volume to the donor's total and leaves the others' alone. */
  lemma {:induction false} TotalAfterInsert(rows: Table, row: DonationRow, donor: nat)
    ensures TotalDonated(rows + [row], donor)
         == TotalDonated(rows, donor) + (if row.donor == donor then row.volume else 0)
    ensures DonationCount(rows + [row], donor)
         == DonationCount(rows, donor) + (if row.donor == donor then 1 else 0)
  {
    if rows == [] {
      assert [row][1..] == [];
    } else {
      assert (rows + [row])[1..] == rows[1..] + [row];
      TotalAfterInsert(rows[1..], row, donor);
    }
  }

  /** Deleting a row takes exactly its volume out of the table. */
  lemma {:induction false} VolumeAfterDelete(rows: Table, id: nat)
    requires UniqueIds(rows)
    ensures VolumeSum(Delete(rows, id)) + (if Lookup(rows, id).Some? then Lookup(rows, id).value.volume else 0)
         == VolumeSum(rows)
  {
    if rows != [] {
      assert UniqueIds(rows[1..]) by {
        forall i, j | 0 <= i < j < |rows[1..]| ensures rows[1..][i].id != rows[1..][j].id {
          assert rows[1..][i] == rows[i + 1] && rows[1..][j] == rows[j + 1];
        }
      }
      VolumeAfterDelete(rows[1..], id);
      if rows[0].id == id {
        assert Lookup(rows[1..], id).None? by {
          LookupFinds(rows[1..], id);
          forall k | 0 <= k < |rows[1..]| ensures rows[1..][k].id != id {
            assert rows[1..][k] == rows[k + 1];
          }
        }
      }
    }
  }

  /** Saving a changed row replaces its old volume by its new one. */
  lemma {:induction false} VolumeAfterUpdate(rows: Table, row: DonationRow)
    requires UniqueIds(rows) && Lookup(rows, row.id).Some?
    ensures VolumeSum(Update(rows, row)) + Lookup(rows, row.id).value.volume == VolumeSum(rows) + row.volume
  {
    var rest := rows[1..];
    assert UniqueIds(rest) by {
      forall i, j | 0 <= i < j < |rest| ensures rest[i].id != rest[j].id {
        assert rest[i] == rows[i + 1] && rest[j] == rows[j + 1];
      }
    }
    if rows[0].id == row.id {
      forall k | 0 <= k < |rest| ensures rest[k].id != row.id {
        assert rest[k] == rows[k + 1];
      }
      UpdateRows(rest, row);
      assert Update(rest, row) == rest;
    } else {
      VolumeAfterUpdate(rest, row);
    }
  }
}
