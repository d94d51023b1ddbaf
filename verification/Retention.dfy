/** Retention intent and the delete guard (retention.py). Timestamps are integers. */
module Retention {
  import opened Wrappers

  datatype RetentionRequest = RetentionRequest(retainUntil: Option<int>, policy: Option<string>,
                                               requireEnforcement: bool)

  datatype RetentionRecord = RetentionRecord(
    retainUntil: Option<int>,
    policy: Option<string>,
    requireEnforcement: bool,
    providerEnforced: bool,
    lockMode: Option<string>)

  datatype Denied = EnforcementUnavailable

  /** `lockMode` is the configured object-lock mode; enforcement is available when there is one. */
  function FromRequest(request: Option<RetentionRequest>, lockMode: Option<string>)
    : (r: Result<Option<RetentionRecord>, Denied>)
    ensures r.Err? <==> request.Some? && request.value.requireEnforcement && lockMode.None?
    ensures r.Ok? ==> (r.value.Some? <==> request.Some?)
    ensures r.Ok? && request.Some? ==>
              && r.value.value.retainUntil == request.value.retainUntil && r.value.value.policy == request.value.policy
              && r.value.value.requireEnforcement == request.value.requireEnforcement
              && (r.value.value.providerEnforced <==> lockMode.Some? && request.value.retainUntil.Some?)
              && r.value.value.lockMode == (if r.value.value.providerEnforced then lockMode else None)
  {
    match request
    case None => Ok(None)
    case Some(wanted) =>
      if wanted.requireEnforcement && lockMode.None? then Err(EnforcementUnavailable)
      else
        var enforced := lockMode.Some? && wanted.retainUntil.Some?;
        Ok(Some(RetentionRecord(wanted.retainUntil, wanted.policy, wanted.requireEnforcement, enforced,
                                if enforced then lockMode else None)))
  }

  /** A policy without a deadline never permits deletion. */
  predicate DeleteAllowed(record: RetentionRecord, now: int) {
    record.retainUntil.Some? && now >= record.retainUntil.value
  }

  /** What the delete guard asks of a stored record. */
  predicate Releases(record: Option<RetentionRecord>, now: int) {
    record.None? || DeleteAllowed(record.value, now)
  }

  /** What a request asks for is refused until its deadline and granted from then on, or refused forever. */
  lemma GuardTurnsAtDeadline(request: RetentionRequest, lockMode: Option<string>, now: int)
    requires FromRequest(Some(request), lockMode).Ok?
    ensures var record := FromRequest(Some(request), lockMode).value;
            Releases(record, now) <==> exists deadline :: request.retainUntil == Some(deadline) && deadline <= now
  {
    var record := FromRequest(Some(request), lockMode).value;
    if Releases(record, now) {
      assert request.retainUntil == Some(record.value.retainUntil.value);
    }
  }
}
