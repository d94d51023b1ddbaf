/**
 * What every answer means (adapter.py, _put and _delete; transport.py, put_file and verify_digest): in any run, a put
 * or delete that has ended saw the cause of its answer in its last call.
 */
module Answers {
  import opened Wrappers
  import opened Integrity
  import opened Retention
  import opened Bucket
  import opened Publication
  import opened Deletion
  import opened StoredBytes
  import opened Leftovers

  // ---------------------------------------------------------------- causes

  /** The digest that the put read from the latest pointer in the call before. */
  function Pointed(t: PutTask): Option<Digest> {
    match t.stage
    case FirstReference(d) => Some(d)
    case SecondReference(d) => Some(d)
    case WinnerReference(_, d) => Some(d)
    case _ => None
  }

  /** The record that it finds behind that digest. */
  function PointedRecord(b: Bucket, t: PutTask): Option<Envelope> {
    if Pointed(t).None? then None
    else
      var found := Current(b.references, Version(t.request.objectRef, Pointed(t).value));
      if found.None? then None else Some(found.value.value)
  }

  /** It finds a record under its own identity. */
  predicate Finds(b: Bucket, t: PutTask) {
    PointedRecord(b, t).Some? && Own(Version(t.request.objectRef, Pointed(t).value), PointedRecord(b, t).value)
  }

  /** Why a put that makes this call on this bucket ends so. */
  ghost predicate PutCause(cfg: Config, b: Bucket, t: PutTask, outcome: PutOutcome) {
    var o, k := t.request.objectRef, t.Key(cfg);
    match outcome
    case Published(m) =>
      && t.stage.MoveLatest? && m == t.stage.envelope.metadata
      && (t.request.createOnly || t.request.immutable ==> Current(b.latest, o).None?)
    case Repeated(m) =>
      && t.stage.SecondReference? && Finds(b, t) && !t.request.createOnly
      && var found := PointedRecord(b, t).value;
         && found.metadata == m && m.digest == k.digest && m.attributes == t.request.attributes
         && m.immutable == t.request.immutable && found.retention == t.record
    case PutFailed(ConditionalConflict) =>
      || (Finds(b, t) && !t.stage.WinnerReference? && t.request.createOnly)
      || (Finds(b, t) && t.stage.SecondReference? && Pointed(t) == Some(k.digest) && Resubmits(b, t))
      || (t.stage.Upload? && |t.request.payload| < cfg.multipartThreshold && Current(b.blobs, k).Some?)
      || (t.stage.Refer? && Current(b.references, k).Some?)
      || (t.stage.WinnerReference? && Finds(b, t) && Pointed(t) == Some(k.digest))
      || (t.stage.MarkOrphan?)
    case PutFailed(ImmutableConflict) =>
      && t.stage.SecondReference? && Finds(b, t) && Pointed(t) != Some(k.digest)
      && t.request.immutable && !t.request.createOnly
    case PutFailed(InvalidRequest) =>
      (t.stage.First? || t.stage.FirstReference?) && |t.request.payload| > cfg.maxObjectBytes
    case PutFailed(NotFound) => t.stage.Verify? && Find(StackOf(b.blobs, k), t.stage.version).None?
    case PutFailed(IncompleteUpload) =>
      && t.stage.Verify? && Find(StackOf(b.blobs, k), t.stage.version).Some?
      && |Find(StackOf(b.blobs, k), t.stage.version).value.content| != |t.request.payload|
    case PutFailed(DigestMismatch) =>
      || (PointedRecord(b, t).Some? && !Finds(b, t))
      || (&& t.stage.Verify? && Find(StackOf(b.blobs, k), t.stage.version).Some?
          && var content := Find(StackOf(b.blobs, k), t.stage.version).value.content;
             |content| == |t.request.payload| && cfg.hash(content) != k.digest)
    case PutFailed(_) => false
  }

  /** The published version was submitted with other attributes, immutability or retention. */
  predicate Resubmits(b: Bucket, t: PutTask)
    requires PointedRecord(b, t).Some?
  {
    var found := PointedRecord(b, t).value;
    || found.metadata.attributes != t.request.attributes || found.metadata.immutable != t.request.immutable
    || found.retention != t.record
  }

  /** Why a delete that makes this call on this bucket, at this time, ends so. */
  ghost predicate DeleteCause(b: Bucket, t: DeleteTask, now: int, outcome: DeleteOutcome) {
    var o, k := t.key.objectRef, t.key;
    match outcome
    case Deleted => t.stage.Evidence? && Current(b.deletions, k).None?
    case DeleteFailed(ConditionalConflict) => t.stage.Evidence? && Current(b.deletions, k).Some?
    case DeleteFailed(NotFound) =>
      || ((t.stage.Lookup? || t.stage.HeadReference?) && Current(b.references, k).None?)
      || (t.stage.HeadLatest? && Current(b.latest, o).None?)
      || (t.stage.DropBlob? && t.envelope.None?)
    case DeleteFailed(RetentionDenied) =>
      && t.stage.Lookup? && Current(b.references, k).Some? && Own(k, Current(b.references, k).value.value)
      && !Releases(Current(b.references, k).value.value.retention, now)
    case DeleteFailed(DigestMismatch) =>
      || (t.stage.Lookup? && Current(b.references, k).Some? && !Own(k, Current(b.references, k).value.value))
      || (&& t.stage.LatestReference? && Current(b.references, Version(o, t.stage.digest)).Some?
          && !Own(Version(o, t.stage.digest), Current(b.references, Version(o, t.stage.digest)).value.value))
    case DeleteFailed(_) => false
  }

  lemma PutEndsFor(cfg: Config, b: Bucket, t: PutTask, io: IO)
    requires cfg.Valid() && !t.stage.PutEnded? && PutStep(cfg, b, t, io).1.stage.PutEnded?
    ensures PutCause(cfg, b, t, PutStep(cfg, b, t, io).1.stage.outcome)
  {
    if Checks(t.stage) {
      CheckEndsFor(cfg, b, t, io);
    } else {
      WriteEndsFor(cfg, b, t, io);
    }
    hide PutStep, PutCause;
  }

  lemma CheckEndsFor(cfg: Config, b: Bucket, t: PutTask, io: IO)
    requires cfg.Valid() && Checks(t.stage) && PutStep(cfg, b, t, io).1.stage.PutEnded?
    ensures PutCause(cfg, b, t, PutStep(cfg, b, t, io).1.stage.outcome)
  {
    hide StackOf, Find, NewEnvelope;
  }

  lemma WriteEndsFor(cfg: Config, b: Bucket, t: PutTask, io: IO)
    requires cfg.Valid() && !Checks(t.stage) && !t.stage.PutEnded? && PutStep(cfg, b, t, io).1.stage.PutEnded?
    ensures PutCause(cfg, b, t, PutStep(cfg, b, t, io).1.stage.outcome)
  {
    hide StackOf, Find, NewEnvelope, AfterFirst, AfterSecond;
  }

  lemma DeleteEndsFor(b: Bucket, t: DeleteTask, io: IO)
    requires !t.stage.DeleteEnded? && DeleteStep(b, t, io).1.stage.DeleteEnded?
    ensures DeleteCause(b, t, io.now, DeleteStep(b, t, io).1.stage.outcome)
  {
    hide StackOf, Without, Releases;
  }

  // ---------------------------------------------------------------- over a run

  /** The put that event `n` of the run steps, when that is task `i`. */
  ghost function PutCallAt(cfg: Config, w: World, events: seq<Event>, n: nat, i: nat): Option<PutTask>
    requires cfg.Valid()
  {
    if n < |events| && events[n].Step? && events[n].index == i then
      var tasks := Run(cfg, w, events[..n]).tasks;
      if i < |tasks| && tasks[i].Putting? then Some(tasks[i].put) else None
    else None
  }

  /** In event `n` put `i` of this request meets the cause of this outcome. */
  ghost predicate PutMeets(cfg: Config, w: World, events: seq<Event>, n: nat, i: nat, request: PutRequest,
                           outcome: PutOutcome)
    requires cfg.Valid()
  {
    var t := PutCallAt(cfg, w, events, n, i);
    && t.Some? && t.value.request == request && n < |events|
    && PutCause(cfg, Run(cfg, w, events[..n]).bucket, t.value, outcome)
  }

  ghost predicate DeleteMeets(cfg: Config, w: World, events: seq<Event>, n: nat, i: nat, k: Version,
                              outcome: DeleteOutcome)
    requires cfg.Valid()
  {
    var t := CallAt(cfg, w, events, n, i);
    && t.Some? && t.value.key == k && n < |events|
    && DeleteCause(Run(cfg, w, events[..n]).bucket, t.value, events[n].io.now, outcome)
  }

  /** The put asks for enforcement of its retention, which is not configured. */
  predicate Unenforceable(cfg: Config, request: PutRequest) {
    request.retention.Some? && request.retention.value.requireEnforcement && cfg.lockMode.None?
  }

  ghost predicate PutAnswered(cfg: Config, w: World, events: seq<Event>, i: nat, t: PutTask)
    requires cfg.Valid()
  {
    t.stage.PutEnded? ==>
      if t.stage.outcome == PutFailed(RetentionDenied) then Unenforceable(cfg, t.request)
      else exists n: nat :: PutMeets(cfg, w, events, n, i, t.request, t.stage.outcome)
  }

  ghost predicate DeleteAnswered(cfg: Config, w: World, events: seq<Event>, i: nat, t: DeleteTask)
    requires cfg.Valid()
  {
    t.stage.DeleteEnded? ==> exists n: nat :: DeleteMeets(cfg, w, events, n, i, t.key, t.stage.outcome)
  }

  /** The answer of task `i`, if it has one, has its cause in the run. */
  ghost predicate Answered(cfg: Config, w: World, events: seq<Event>, i: nat)
    requires cfg.Valid()
  {
    var tasks := Run(cfg, w, events).tasks;
    i < |tasks| ==>
      match tasks[i]
      case Putting(t) => PutAnswered(cfg, w, events, i, t)
      case Deleting(t) => DeleteAnswered(cfg, w, events, i, t)
  }

  lemma {:induction false} PutMeetsStill(cfg: Config, w: World, front: seq<Event>, e: Event, i: nat, t: PutTask)
    requires cfg.Valid() && PutAnswered(cfg, w, front, i, t)
    ensures PutAnswered(cfg, w, front + [e], i, t)
  {
    hide PutCause, Unenforceable;
    if t.stage.PutEnded? && t.stage.outcome != PutFailed(RetentionDenied) {
      var n: nat :| PutMeets(cfg, w, front, n, i, t.request, t.stage.outcome);
      assert (front + [e])[..n] == front[..n];
      assert PutMeets(cfg, w, front + [e], n, i, t.request, t.stage.outcome);
    }
  }

  lemma {:induction false} DeleteMeetsStill(cfg: Config, w: World, front: seq<Event>, e: Event, i: nat, t: DeleteTask)
    requires cfg.Valid() && DeleteAnswered(cfg, w, front, i, t)
    ensures DeleteAnswered(cfg, w, front + [e], i, t)
  {
    hide DeleteCause, CallAt;
    if t.stage.DeleteEnded? {
      var n: nat :| DeleteMeets(cfg, w, front, n, i, t.key, t.stage.outcome);
      CallsStay(cfg, w, front, e, n, i);
      assert (front + [e])[..n] == front[..n];
      assert DeleteMeets(cfg, w, front + [e], n, i, t.key, t.stage.outcome);
    }
  }

  lemma {:induction false} PutStepAnswers(cfg: Config, w: World, front: seq<Event>, i: nat, io: IO)
    requires cfg.Valid()
    requires var w1 := Run(cfg, w, front);
             i < |w1.tasks| && w1.tasks[i].Putting? && !w1.tasks[i].put.stage.PutEnded?
    ensures var w1 := Run(cfg, w, front);
            PutAnswered(cfg, w, front + [Step(i, io)], i, PutStep(cfg, w1.bucket, w1.tasks[i].put, io).1)
  {
    hide PutStep, PutCause;
    var w1, e := Run(cfg, w, front), Step(i, io);
    var t := w1.tasks[i].put;
    var t' := PutStep(cfg, w1.bucket, t, io).1;
    StepKeepsRequest(cfg, w1.bucket, t, io);
    if t'.stage.PutEnded? {
      PutEndsFor(cfg, w1.bucket, t, io);
      NeverDeniedLater(cfg, w1.bucket, t, t'.stage.outcome);
      assert (front + [e])[..|front|] == front && (front + [e])[|front|] == e;
      assert PutMeets(cfg, w, front + [e], |front|, i, t.request, t'.stage.outcome);
    }
  }

  lemma NeverDeniedLater(cfg: Config, b: Bucket, t: PutTask, outcome: PutOutcome)
    requires PutCause(cfg, b, t, outcome)
    ensures outcome != PutFailed(RetentionDenied)
  {
  }

  lemma {:induction false} DeleteStepAnswers(cfg: Config, w: World, front: seq<Event>, i: nat, io: IO)
    requires cfg.Valid()
    requires var w1 := Run(cfg, w, front);
             i < |w1.tasks| && w1.tasks[i].Deleting? && !w1.tasks[i].delete.stage.DeleteEnded?
    ensures var w1 := Run(cfg, w, front);
            DeleteAnswered(cfg, w, front + [Step(i, io)], i, DeleteStep(w1.bucket, w1.tasks[i].delete, io).1)
  {
    hide DeleteStep, DeleteCause;
    var w1, e := Run(cfg, w, front), Step(i, io);
    var t := w1.tasks[i].delete;
    var t' := DeleteStep(w1.bucket, t, io).1;
    DeleteStepKey(w1.bucket, t, io);
    if t'.stage.DeleteEnded? {
      DeleteEndsFor(w1.bucket, t, io);
      assert (front + [e])[..|front|] == front && (front + [e])[|front|] == e;
      assert DeleteMeets(cfg, w, front + [e], |front|, i, t.key, t'.stage.outcome);
    }
  }

  lemma StartAnswers(cfg: Config, w: World, events: seq<Event>, i: nat, request: PutRequest)
    requires cfg.Valid()
    ensures PutAnswered(cfg, w, events, i, StartPut(cfg, request))
  {
    hide PutMeets;
  }

  lemma StartAnswersDelete(cfg: Config, w: World, events: seq<Event>, i: nat, k: Version)
    requires cfg.Valid()
    ensures DeleteAnswered(cfg, w, events, i, StartDelete(k))
  {
    hide DeleteMeets;
  }

  lemma {:induction false} EventAnswers(cfg: Config, w: World, front: seq<Event>, e: Event, i: nat)
    requires cfg.Valid() && Answered(cfg, w, front, i)
    ensures Answered(cfg, w, front + [e], i)
  {
    hide PutStep, DeleteStep, PutAnswered, DeleteAnswered, FromRequest;
    var w1 := Run(cfg, w, front);
    RunSnoc(cfg, w, front, e);
    if i < |w1.tasks| {
      var steps := e.Step? && e.index == i;
      match w1.tasks[i] {
        case Putting(t) =>
          if steps && !t.stage.PutEnded? { PutStepAnswers(cfg, w, front, i, e.io); }
          else { PutMeetsStill(cfg, w, front, e, i, t); }
        case Deleting(t) =>
          if steps && !t.stage.DeleteEnded? { DeleteStepAnswers(cfg, w, front, i, e.io); }
          else { DeleteMeetsStill(cfg, w, front, e, i, t); }
      }
    } else if i == |w1.tasks| {
      match e {
        case BeginPut(request) => StartAnswers(cfg, w, front + [e], i, request);
        case BeginDelete(key) => StartAnswersDelete(cfg, w, front + [e], i, key);
        case Step(_, _) =>
      }
    }
  }

  /**
   * In every run of puts and deletes, each task that has answered met the cause of its answer in one of its calls, or
   * was a put refused from the start because its retention could not be enforced.
   */
  lemma {:induction false} EveryAnswerHasItsCause(cfg: Config, w: World, events: seq<Event>, i: nat)
    requires cfg.Valid() && w.tasks == []
    ensures Answered(cfg, w, events, i)
    decreases |events|
  {
    if events != [] {
      hide Answered;
      var m := |events| - 1;
      assert events == events[..m] + [events[m]];
      EveryAnswerHasItsCause(cfg, w, events[..m], i);
      EventAnswers(cfg, w, events[..m], events[m], i);
    }
  }
}
