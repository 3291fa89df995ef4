/**
 * The `BloodRequest` model: the emergency override and the fulfilment
 * stamp its `save` applies, its `status` and its `is_overdue` test.
 * Times are whole seconds (`timezone.now()` is a parameter).
 */
module Requests {
  import opened Wrappers

  /** `BloodRequest.PRIORITY_CHOICES`. */
  datatype Priority = Normal | Urgent | Critical

  /** What `status` reports: supplied, urgent or pending. */
  datatype RequestStatus = Supplied | Pressing | Pending

  /** The note an emergency override puts in front of the request's notes. */
  const OverrideNote: string := "בקשה חירום - שונו אוטומטית לסוג דם O-"

  /** Seven days, in seconds: the age past which an open request is overdue. */
  const OverdueAfter: int := 7 * 86400

  /** The fields of a blood request that its rules read or write. */
  datatype RequestFields = RequestFields(
    bloodType: string,
    units: int,
    priority: Priority,
    emergency: bool,
    requestedAt: int,
    fulfilled: bool,
    fulfilledAt: Option<int>,
    notes: string)

  /**
   * The fields after `BloodRequest.save`: an emergency request of a type
   * other than O- is switched to O-, made critical and noted; a fulfilled
   * request without a fulfilment time gets `now`.
   */
  function Saved(r: RequestFields, now: int): (s: RequestFields)
    ensures s.units == r.units && s.emergency == r.emergency
    ensures s.requestedAt == r.requestedAt && s.fulfilled == r.fulfilled
    ensures r.emergency ==> s.bloodType == "O-"
    ensures r.emergency && r.bloodType != "O-" ==> s.priority == Critical && s.notes == OverrideNote + "\n" + r.notes
    ensures !(r.emergency && r.bloodType != "O-") ==>
      s.bloodType == r.bloodType && s.priority == r.priority && s.notes == r.notes
    ensures r.fulfilledAt.Some? ==> s.fulfilledAt == r.fulfilledAt
    ensures s.fulfilledAt.Some? <==> r.fulfilledAt.Some? || r.fulfilled
    ensures s.fulfilledAt != r.fulfilledAt ==> s.fulfilledAt == Some(now)
  {
    var o := if r.emergency && r.bloodType != "O-" then
      r.(bloodType := "O-", priority := Critical, notes := OverrideNote + "\n" + r.notes)
    else r;
    if o.fulfilled && o.fulfilledAt.None? then o.(fulfilledAt := Some(now)) else o
  }

  /**
   * Saving twice is saving once, whenever the second save happens: the
   * note is not prepended again and the fulfilment time is not moved.
   */
  lemma SaveIdempotent(r: RequestFields, now: int, later: int)
    ensures Saved(Saved(r, now), later) == Saved(r, now)
  {
  }

  /** `status`: supplied when fulfilled, else urgent for an emergency, else pending. */
  function Status(r: RequestFields): (s: RequestStatus)
    ensures s == Supplied <==> r.fulfilled
    ensures s == Pressing <==> !r.fulfilled && r.emergency
  {
    if r.fulfilled then Supplied else if r.emergency then Pressing else Pending
  }

  /** Saving never changes the status, and a saved emergency request is never pending. */
  lemma SaveKeepsStatus(r: RequestFields, now: int)
    ensures Status(Saved(r, now)) == Status(r)
    ensures r.emergency ==> Status(Saved(r, now)) != Pending
  {
  }

  /** `is_overdue`: still open, and requested more than seven days before `now`. */
  predicate IsOverdue(r: RequestFields, now: int) {
    !r.fulfilled && now - r.requestedAt > OverdueAfter
  }

  /** An overdue request is not supplied, and stays overdue as time goes on. */
  lemma OverdueOpen(r: RequestFields, now: int, later: int)
    requires IsOverdue(r, now)
    ensures Status(r) != Supplied
    ensures now <= later ==> IsOverdue(r, later)
  {
  }

  /** A request exactly seven days old is not yet overdue; one second more and it is. */
  lemma OverdueBoundary(r: RequestFields)
    requires !r.fulfilled
    ensures !IsOverdue(r, r.requestedAt + OverdueAfter)
    ensures IsOverdue(r, r.requestedAt + OverdueAfter + 1)
  {
  }

  /** An instance of the `BloodRequest` model. */
  class BloodRequest {
    var bloodType: string
    var units: int
    var priority: Priority
    var emergency: bool
    var requestedAt: int
    var fulfilled: bool
    var fulfilledAt: Option<int>
    var notes: string

    constructor (r: RequestFields)
      ensures Fields() == r
    {
      bloodType, units, priority, emergency := r.bloodType, r.units, r.priority, r.emergency;
      requestedAt, fulfilled, fulfilledAt, notes := r.requestedAt, r.fulfilled, r.fulfilledAt, r.notes;
    }

    /** The instance's field values. */
    function Fields(): RequestFields
      reads this
    {
      RequestFields(bloodType, units, priority, emergency, requestedAt, fulfilled, fulfilledAt, notes)
    }

    /** `BloodRequest.save`, up to the point where the row is written. */
    method Save(now: int)
      modifies this
      ensures Fields() == Saved(old(Fields()), now)
    {
      if emergency && bloodType != "O-" {
        bloodType := "O-";
        priority := Critical;
        notes := OverrideNote + "\n" + notes;
      }
      if fulfilled && fulfilledAt.None? {
        fulfilledAt := Some(now);
      }
    }
  }
}
