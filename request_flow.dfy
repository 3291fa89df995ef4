/**
 * The fulfilment part of the `request_blood` view: the request the form
 * produced is adjusted (a patient's own blood type, the emergency
 * override), saved, fulfilled from stock, and marked fulfilled when the
 * log says so.
 */
module RequestFlow {
  import opened Wrappers
  import opened Text
  import opened BloodTypes
  import opened Records
  import opened Inventory
  import opened Fulfilment
  import opened Requests

  /** The fields of a validated request form. */
  datatype RequestInput = RequestInput(bloodType: string, units: int, priority: Priority, emergency: bool, notes: string)

  /**
   * The unsaved request `request_blood` builds: the form's fields, the
   * blood type of the patient's own donor profile when there is one, and
   * O-/critical for an emergency.
   */
  function Drafted(f: RequestInput, patientType: Option<BloodType>, now: int): (r: RequestFields)
    ensures r.emergency ==> r.bloodType == "O-" && r.priority == Critical
    ensures !r.emergency && patientType.Some? ==> r.bloodType == Name(patientType.value)
    ensures !r.emergency && patientType.None? ==> r.bloodType == f.bloodType
    ensures !r.emergency ==> r.priority == f.priority
    ensures r.units == f.units && r.emergency == f.emergency && r.notes == f.notes
    ensures !r.fulfilled && r.fulfilledAt.None? && r.requestedAt == now
  {
    var bloodType := if patientType.Some? then Name(patientType.value) else f.bloodType;
    var r := RequestFields(bloodType, f.units, f.priority, f.emergency, now, false, None, f.notes);
    if f.emergency then r.(bloodType := "O-", priority := Critical) else r
  }

  /**
   * The view overrides an emergency before `BloodRequest.save` sees it, so
   * the save never prepends its emergency note: the request is stored as
   * drafted.
   */
  lemma DraftSavedAsIs(f: RequestInput, patientType: Option<BloodType>, now: int)
    ensures Saved(Drafted(f, patientType, now), now) == Drafted(f, patientType, now)
  {
  }

  /** A critical request, emergency or not, is fulfilled from O- donations only. */
  lemma CriticalDrawsONegative(f: RequestInput, patientType: Option<BloodType>, now: int)
    requires f.emergency || f.priority == Critical
    ensures Drafted(f, patientType, now).priority == Critical
    ensures CompatibleTypes(Drafted(f, patientType, now).bloodType, Drafted(f, patientType, now).priority == Critical) == {OMinus}
  {
  }

  /** The view's test: the last log line contains "fully fulfilled". */
  predicate SaysFullyFulfilled(log: seq<LogLine>) {
    |log| > 0 && Contains(Render(log[|log| - 1]), "fully fulfilled")
  }

  /** The test never passes, whatever the log. */
  lemma NeverSaysFullyFulfilled(log: seq<LogLine>)
    ensures !SaysFullyFulfilled(log)
  {
    if |log| > 0 {
      NoLineSaysFullyFulfilled(log[|log| - 1]);
    }
  }

  /** A walk that supplies everything ends in the success line, and the view still does not mark it. */
  lemma SuppliedButNotMarked(q: Table, units: int, log: seq<LogLine>)
    requires Logged(q, units, log) && Leftover(q, units) == 0
    ensures log[|log| - 1] == Success
    ensures !SaysFullyFulfilled(log)
  {
    NeverSaysFullyFulfilled(log);
  }

  /** One approved 450 ml donation covers a request for 1: the walk supplies it all. */
  lemma OneDonationSupplies()
    ensures Leftover([DonationRow(1, 1, OMinus, 0, 450, "", true)], 1) == 0
  {
  }

  /** The evidently intended test: the last line is the success line. */
  predicate EndsInSuccess(log: seq<LogLine>) {
    |log| > 0 && log[|log| - 1] == Success
  }

  /** The intended test marks a request exactly when the walk left nothing missing. */
  lemma SuccessIffSupplied(q: Table, units: int, log: seq<LogLine>)
    requires Logged(q, units, log)
    ensures EndsInSuccess(log) <==> Leftover(q, units) == 0
  {
  }

  /**
   * `request_blood` after a valid form, as written: draft, save, fulfil
   * (the O- only path when the request is critical), then mark the request
   * fulfilled when the last line says "fully fulfilled" — which it never
   * does, so the request stays open.
   */
  method RequestBlood(f: RequestInput, patientType: Option<BloodType>, rows: Table, now: int)
    returns (req: BloodRequest, rows': Table, log: seq<LogLine>)
    requires UniqueIds(rows)
    ensures fresh(req)
    ensures req.Fields() == Drafted(f, patientType, now)
    ensures Logged(Query(rows, CompatibleTypes(req.bloodType, req.priority == Critical)), f.units, log)
    ensures Stocked(rows, Query(rows, CompatibleTypes(req.bloodType, req.priority == Critical)), f.units, rows')
    ensures !req.fulfilled
  {
    req := new BloodRequest(Drafted(f, patientType, now));
    req.Save(now);
    rows', log := FulfillRequest(rows, req.bloodType, req.units, req.priority == Critical);
    if SaysFullyFulfilled(log) {
      req.fulfilled := true;
      req.Save(now);
    }
    NeverSaysFullyFulfilled(log);
  }

  /**
   * `request_blood` with the intended test: the request is marked
   * fulfilled, and stamped with `now`, exactly when the walk supplied the
   * whole need.
   */
  method RequestBloodCorrected(f: RequestInput, patientType: Option<BloodType>, rows: Table, now: int)
    returns (req: BloodRequest, rows': Table, log: seq<LogLine>)
    requires UniqueIds(rows)
    ensures fresh(req)
    ensures req.Fields() == Drafted(f, patientType, now).(fulfilled := req.fulfilled, fulfilledAt := req.fulfilledAt)
    ensures Logged(Query(rows, CompatibleTypes(req.bloodType, req.priority == Critical)), f.units, log)
    ensures Stocked(rows, Query(rows, CompatibleTypes(req.bloodType, req.priority == Critical)), f.units, rows')
    ensures req.fulfilled <==> Leftover(Query(rows, CompatibleTypes(req.bloodType, req.priority == Critical)), f.units) == 0
    ensures req.fulfilledAt == if req.fulfilled then Some(now) else None
  {
    req := new BloodRequest(Drafted(f, patientType, now));
    req.Save(now);
    rows', log := FulfillRequest(rows, req.bloodType, req.units, req.priority == Critical);
    SuccessIffSupplied(Query(rows, CompatibleTypes(req.bloodType, req.priority == Critical)), f.units, log);
    if EndsInSuccess(log) {
      req.fulfilled := true;
      req.Save(now);
    }
  }
}
