/**
 * `emergency_request`: one unit from each O- donor in turn, those who have
 * given least first, each unit recorded as a new 450 ml donation, until
 * the need is met or the donors run out; then the emergency request is
 * recorded, fulfilled when nothing remains.
 *
 * As written, the view creates the request without `requested_by`, a
 * foreign key that may not be null, so the insert fails once the
 * donations are saved (EmergencyRequestAsWritten). EmergencyRequest is the
 * view with the requesting user passed on.
 */
module Emergency {
  import opened Wrappers
  import opened Text
  import opened BloodTypes
  import opened Records
  import opened Eligibility
  import opened Requests

  /** Millilitres recorded per emergency unit. */
  const UnitMl: nat := 450

  datatype EmergencyError = NonPositiveUnits | RequesterMissing

  /** The request, the donations created and what is still missing. */
  datatype Allocation = Allocation(rows: Table, created: Table, remaining: int, request: RequestFields)

  /** The note of an automatic emergency donation of `units` units. */
  function DonationNote(units: int): string {
    "תרומת חירום אוטומטית - " + IntToString(units) + " יחידות"
  }

  /** The donation `Donation.objects.create` is given for one unit from `donor`. */
  function UnitDonation(id: nat, donor: Donor, today: Day): DonationRow {
    DonationRow(id, donor.id, donor.bloodType, today, 1 * UnitMl, DonationNote(1), true)
  }

  /** The emergency request as created, before its own `save` runs. */
  function EmergencyRecord(units: int, fulfilled: bool, now: int): RequestFields {
    RequestFields("O-", units, Critical, true, now, fulfilled, None, "")
  }

  /**
   * The donations created for the first `n` donors, the ids taken in
   * order from `nextId`, each as the 56-day hook of `Donation.save` left
   * it against the table before the request.
   */
  function Created(rows: Table, donors: seq<Donor>, today: Day, nextId: nat, n: nat): (c: Table)
    requires n <= |donors|
    ensures |c| == n
  {
    seq(n, k requires 0 <= k < n => Vetted(rows, UnitDonation(nextId + k, donors[k], today)))
  }

  /** One more donor adds their vetted unit at the end. */
  lemma CreatedGrows(rows: Table, donors: seq<Donor>, today: Day, nextId: nat, i: nat)
    requires i < |donors|
    ensures Created(rows, donors, today, nextId, i + 1)
         == Created(rows, donors, today, nextId, i) + [Vetted(rows, UnitDonation(nextId + i, donors[i], today))]
  {
    var c := Created(rows, donors, today, nextId, i);
    var c' := Created(rows, donors, today, nextId, i + 1);
    assert c'[..i] == c;
    assert c' == c'[..i] + [c'[i]];
    assert c'[i] == Vetted(rows, UnitDonation(nextId + i, donors[i], today));
  }

  /** Every donation created is an O- unit of today, when the donors are all O-. */
  lemma CreatedONegative(rows: Table, donors: seq<Donor>, today: Day, nextId: nat, n: nat)
    requires n <= |donors|
    requires forall d | d in donors :: d.bloodType == OMinus
    ensures forall x | x in Created(rows, donors, today, nextId, n) :: x.donorType == OMinus && x.volume == UnitMl && x.date == today
  {
    var c := Created(rows, donors, today, nextId, n);
    forall x | x in c ensures x.donorType == OMinus && x.volume == UnitMl && x.date == today {
      var k :| 0 <= k < |c| && c[k] == x;
      assert donors[k] in donors;
    }
  }

  /** The `k`th donation created: a new id, the `k`th donor, today, 450 ml, approved unless too early. */
  lemma CreatedRow(rows: Table, donors: seq<Donor>, today: Day, nextId: nat, n: nat, k: nat)
    requires k < n <= |donors|
    ensures Created(rows, donors, today, nextId, n)[k].id == nextId + k
    ensures Created(rows, donors, today, nextId, n)[k].donor == donors[k].id
    ensures Created(rows, donors, today, nextId, n)[k].date == today
    ensures Created(rows, donors, today, nextId, n)[k].volume == UnitMl
    ensures Created(rows, donors, today, nextId, n)[k].approved == !TooEarly(rows, donors[k].id, today)
  {
  }

  /** None of a table of other donors' rows, or of rows not strictly earlier, is an earlier donation. */
  lemma {:induction false} NoneEarlier(extra: Table, donor: nat, date: Day)
    requires forall x | x in extra :: x.donor != donor || x.date >= date
    ensures EarlierDonations(extra, donor, date) == []
  {
    if extra != [] {
      assert extra[0] in extra;
      NoneEarlier(extra[1..], donor, date);
    }
  }

  /** Rows of other donors, or not strictly earlier, do not change a donor's earlier donations. */
  lemma {:induction false} EarlierIgnoresOthers(rows: Table, extra: Table, donor: nat, date: Day)
    requires forall x | x in extra :: x.donor != donor || x.date >= date
    ensures EarlierDonations(rows + extra, donor, date) == EarlierDonations(rows, donor, date)
  {
    if rows == [] {
      assert rows + extra == extra;
      NoneEarlier(extra, donor, date);
    } else {
      assert (rows + extra)[1..] == rows[1..] + extra;
      EarlierIgnoresOthers(rows[1..], extra, donor, date);
    }
  }

  /** The donations created so far are all dated today, so none is earlier than a donation made today. */
  lemma CreatedToday(rows: Table, donors: seq<Donor>, today: Day, nextId: nat, i: nat)
    requires i <= |donors|
    ensures forall x | x in Created(rows, donors, today, nextId, i) :: x.date >= today
  {
    var c := Created(rows, donors, today, nextId, i);
    forall x | x in c ensures x.date >= today {
      var k :| 0 <= k < |c| && c[k] == x;
    }
  }

  /** The next id is taken neither by the table nor by the donations created so far. */
  lemma NextIdFree(rows: Table, donors: seq<Donor>, today: Day, nextId: nat, i: nat)
    requires i <= |donors|
    requires forall x | x in rows :: x.id < nextId
    ensures Lookup(rows + Created(rows, donors, today, nextId, i), nextId + i) == None
  {
    var c := Created(rows, donors, today, nextId, i);
    forall k | 0 <= k < |rows + c| ensures (rows + c)[k].id != nextId + i {
      if k >= |rows| {
        assert (rows + c)[k] == c[k - |rows|];
      } else {
        assert rows[k] in rows;
      }
    }
    LookupFinds(rows + c, nextId + i);
  }

  /**
   * One step of the loop: the `i`th donor's new donation is vetted as it
   * would be against the table before the request, and saving it appends
   * it.
   */
  lemma StepAppends(rows: Table, donors: seq<Donor>, today: Day, nextId: nat, i: nat)
    requires i < |donors|
    requires forall x | x in rows :: x.id < nextId
    ensures Vetted(rows + Created(rows, donors, today, nextId, i), UnitDonation(nextId + i, donors[i], today))
         == Vetted(rows, UnitDonation(nextId + i, donors[i], today))
    ensures Persist(rows + Created(rows, donors, today, nextId, i), Vetted(rows, UnitDonation(nextId + i, donors[i], today)))
         == rows + Created(rows, donors, today, nextId, i + 1)
  {
    var c := Created(rows, donors, today, nextId, i);
    CreatedToday(rows, donors, today, nextId, i);
    EarlierIgnoresOthers(rows, c, donors[i].id, today);
    NextIdFree(rows, donors, today, nextId, i);
    CreatedGrows(rows, donors, today, nextId, i);
  }

  /**
   * `BloodRequest.objects.create`: `requested_by` is a foreign key that may
   * not be null, so the insert fails when no requester is given.
   */
  function InsertRequest(requestedBy: Option<nat>, f: RequestFields): (r: Result<RequestFields, EmergencyError>)
    ensures r.Ok? <==> requestedBy.Some?
    ensures r.Ok? ==> r.value == f
  {
    if requestedBy.None? then Err(RequesterMissing) else Ok(f)
  }

  /**
   * The loop of `emergency_request`: take one unit from each of `donors`
   * (the O- donors, least given first) while units remain, saving each as
   * a new donation.
   */
  method AllocateUnits(units: int, donors: seq<Donor>, rows: Table, today: Day, nextId: nat)
    returns (created: Table, rows': Table, remaining: int)
    requires units > 0
    requires forall x | x in rows :: x.id < nextId
    ensures remaining == if units > |donors| then units - |donors| else 0
    ensures |created| == if units < |donors| then units else |donors|
    ensures created == Created(rows, donors, today, nextId, |created|)
    ensures rows' == rows + created
  {
    remaining := units;
    created := [];
    rows' := rows;
    var i := 0;
    while i < |donors|
      invariant 0 <= i <= |donors| && remaining == units - i && remaining >= 0
      invariant created == Created(rows, donors, today, nextId, i)
      invariant rows' == rows + created
    {
      if remaining <= 0 {
        break;
      }
      var canGive := if remaining < 1 then remaining else 1;
      if canGive > 0 {
        StepAppends(rows, donors, today, nextId, i);
        CreatedGrows(rows, donors, today, nextId, i);
        var donation := new Donation(nextId + i, donors[i].id, donors[i].bloodType, today, canGive * UnitMl, DonationNote(canGive), true);
        assert donation.Row() == UnitDonation(nextId + i, donors[i], today);
        rows' := donation.Save(rows');
        created := created + [donation.Row()];
        remaining := remaining - canGive;
      }
      i := i + 1;
    }
  }

  /**
   * `emergency_request` as written: a non-positive need is refused with
   * the table untouched; otherwise the donations are saved, and then the
   * request, created without `requested_by`, fails to insert. The
   * donations stay and no request is recorded.
   */
  method EmergencyRequestAsWritten(units: int, donors: seq<Donor>, rows: Table, today: Day, now: int, nextId: nat)
    returns (rows': Table, r: Result<RequestFields, EmergencyError>)
    requires forall x | x in rows :: x.id < nextId
    requires forall d | d in donors :: d.bloodType == OMinus
    ensures units <= 0 ==> rows' == rows && r == Err(NonPositiveUnits)
    ensures units > 0 ==> r == Err(RequesterMissing)
    ensures units > 0 ==>
      rows' == rows + Created(rows, donors, today, nextId, if units < |donors| then units else |donors|)
  {
    if units <= 0 {
      return rows, Err(NonPositiveUnits);
    }
    var created, remaining;
    created, rows', remaining := AllocateUnits(units, donors, rows, today, nextId);
    var request := new BloodRequest(EmergencyRecord(units, remaining == 0, now));
    request.Save(now);
    r := InsertRequest(None, request.Fields());
  }

  /**
   * `emergency_request` with the requesting `user` passed on as
   * `requested_by`: reject a non-positive need; otherwise allocate the
   * units, then record the request.
   */
  method EmergencyRequest(units: int, donors: seq<Donor>, rows: Table, today: Day, now: int, nextId: nat, user: nat)
    returns (r: Result<Allocation, EmergencyError>)
    requires forall x | x in rows :: x.id < nextId
    requires forall d | d in donors :: d.bloodType == OMinus
    ensures r.Err? <==> units <= 0
    ensures r.Err? ==> r.error == NonPositiveUnits
    ensures r.Ok? ==> r.value.remaining == if units > |donors| then units - |donors| else 0
    ensures r.Ok? ==> |r.value.created| == if units < |donors| then units else |donors|
    ensures r.Ok? ==> r.value.created == Created(rows, donors, today, nextId, |r.value.created|)
    ensures r.Ok? ==> forall x | x in r.value.created :: x.donorType == OMinus && x.volume == UnitMl && x.date == today
    ensures r.Ok? ==> r.value.rows == rows + r.value.created
    ensures r.Ok? ==> r.value.request == Saved(EmergencyRecord(units, r.value.remaining == 0, now), now)
  {
    if units <= 0 {
      return Err(NonPositiveUnits);
    }
    var created, rows', remaining := AllocateUnits(units, donors, rows, today, nextId);
    CreatedONegative(rows, donors, today, nextId, |created|);
    var request := new BloodRequest(EmergencyRecord(units, remaining == 0, now));
    request.Save(now);
    var stored := InsertRequest(Some(user), request.Fields());
    r := Ok(Allocation(rows', created, remaining, stored.value));
  }

  /** The request is recorded fulfilled exactly when there are at least as many O- donors as units. */
  lemma FulfilledIffEnoughDonors(units: int, donors: seq<Donor>, now: int, a: Allocation)
    requires units > 0
    requires a.remaining == if units > |donors| then units - |donors| else 0
    requires a.request == Saved(EmergencyRecord(units, a.remaining == 0, now), now)
    ensures a.request.fulfilled <==> units <= |donors|
    ensures a.request.fulfilled ==> a.request.fulfilledAt == Some(now)
    ensures a.request.bloodType == "O-" && a.request.priority == Critical && a.request.notes == ""
  {
  }
}
