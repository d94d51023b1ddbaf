/**
 * What a put has done when it answers (adapter.py, _put; transport.py, put_file), in any run of puts and deletes: the
 * two checks, the upload and its read-back, the reference record, and the pointer or the search for a winner.
 */
module AnsweredPuts {
  import opened Integrity
  import opened Retention
  import opened Bucket
  import opened Publication
  import opened Accounting
  import opened Leftovers
  import opened Trails

  // ---------------------------------------------------------------- the way of a put

  /** Both checks passed, and the upload stored this blob version, which was read back where that is configured. */
  function ToStored(cfg: Config, id: nat): seq<Act> {
    var uploaded := [PassedFirst] + [PassedSecond] + [Uploaded(id)];
    if cfg.verifyAfterWrite then uploaded + [FoundIntact(id)] else uploaded
  }

  /** Then the record that names this blob version was written. */
  function ToRecord(cfg: Config, e: Envelope): seq<Act> {
    ToStored(cfg, e.blobVersion) + [Referred(e)]
  }

  /** What a put at this stage has done; one that has moved the pointer wrote the record `e`. */
  function ActsTo(cfg: Config, stage: PutStage, e: Envelope): seq<Act> {
    match stage
    case First => []
    case FirstReference(d) => [SawPointer(d)]
    case Second => [PassedFirst]
    case SecondReference(d) => [PassedFirst] + [SawPointer(d)]
    case Upload => [PassedFirst] + [PassedSecond]
    case Verify(id) => [PassedFirst] + [PassedSecond] + [Uploaded(id)]
    case Refer(id) => ToStored(cfg, id)
    case MoveLatest(written) => ToRecord(cfg, written)
    case Winner(written) => ToRecord(cfg, written) + [LostRace(written)]
    case WinnerReference(written, d) => ToRecord(cfg, written) + [LostRace(written)] + [SawPointer(d)]
    case MarkOrphan(written) => ToRecord(cfg, written) + [LostRace(written)] + [SawNoWinner]
    case PutEnded(Published(_)) => ToRecord(cfg, e) + [MovedPointer(e)]
    case PutEnded(Repeated(_)) => [PassedFirst]
    case PutEnded(PutFailed(_)) => []
  }

  /** The acts that lead on from this stage: what was seen behind a pointer has been read by then. */
  function Settled(cfg: Config, stage: PutStage, e: Envelope): seq<Act> {
    match stage
    case FirstReference(_) => []
    case SecondReference(_) => [PassedFirst]
    case WinnerReference(written, _) => ToRecord(cfg, written) + [LostRace(written)]
    case _ => ActsTo(cfg, stage, e)
  }

  /** The answer of a put that published is the metadata of this record. */
  predicate AnswersWith(t: PutTask, e: Envelope) {
    t.stage.PutEnded? && t.stage.outcome.Published? ==> t.stage.outcome.metadata == e.metadata
  }

  /** Its retention was accepted, and it reads back only where that is configured. */
  predicate Regular(cfg: Config, t: PutTask) {
    !t.stage.PutEnded? ==> Retained(cfg, t.request, t.record) && (t.stage.Verify? ==> cfg.verifyAfterWrite)
  }

  /** It has ended without publishing. */
  predicate Stopped(t: PutTask) {
    t.stage.PutEnded? && !t.stage.outcome.Published?
  }

  /** The act takes the put one step on from what it has done. */
  predicate Continues(cfg: Config, b: Bucket, t: PutTask, io: IO, t': PutTask, e: Envelope, act: Act)
    requires cfg.Valid()
  {
    && AnswersWith(t', e) && PutActs(cfg, b, t, io, act)
    && ActsTo(cfg, t'.stage, e) == Settled(cfg, t.stage, e) + [act]
  }

  /** A call that does not end the put is the next act on the way, until the upload is due. */
  lemma CheckingAct(cfg: Config, b: Bucket, t: PutTask, io: IO, e: Envelope) returns (act: Act)
    requires cfg.Valid() && Checks(t.stage)
    ensures var t' := PutStep(cfg, b, t, io).1; Stopped(t') || Continues(cfg, b, t, io, t', e, act)
  {
    hide StackOf, Find, NewEnvelope, ToRecord, ToStored;
    var t' := PutStep(cfg, b, t, io).1;
    act := SawNoWinner;
    if t'.stage.FirstReference? || t'.stage.SecondReference? {
      act := SawPointer(t'.stage.digest);
    } else if t'.stage.Second? {
      act := PassedFirst;
    } else if t'.stage.Upload? {
      act := PassedSecond;
    }
  }

  /** The same, until the record is written. */
  lemma StoringAct(cfg: Config, b: Bucket, t: PutTask, io: IO, e: Envelope) returns (act: Act)
    requires cfg.Valid() && (t.stage.Upload? || t.stage.Verify? || t.stage.Refer?) && Regular(cfg, t)
    ensures var t' := PutStep(cfg, b, t, io).1; Stopped(t') || Continues(cfg, b, t, io, t', e, act)
  {
    hide StackOf, Find, ChunkDigests, FromRequest, ReadExact;
    var t' := PutStep(cfg, b, t, io).1;
    act := SawNoWinner;
    if t.stage.Upload? {
      act := Uploaded(b.NewId());
    } else if t.stage.Verify? {
      act := FoundIntact(t.stage.version);
    } else if t'.stage.MoveLatest? {
      act := Referred(t'.stage.envelope);
    }
  }

  /** The same, until the pointer is moved, or the race for it is lost. */
  lemma ClosingAct(cfg: Config, b: Bucket, t: PutTask, io: IO, e: Envelope) returns (act: Act)
    requires cfg.Valid()
    requires t.stage.MoveLatest? || t.stage.Winner? || t.stage.WinnerReference? || t.stage.MarkOrphan?
    requires t.stage.MoveLatest? ==> e == t.stage.envelope
    ensures var t' := PutStep(cfg, b, t, io).1; Stopped(t') || Continues(cfg, b, t, io, t', e, act)
  {
    hide StackOf, Find, NewEnvelope, ToRecord, ToStored;
    var t' := PutStep(cfg, b, t, io).1;
    act := SawNoWinner;
    if t.stage.MoveLatest? {
      act := if t'.stage.Winner? then LostRace(t.stage.envelope) else MovedPointer(t.stage.envelope);
    } else if t'.stage.WinnerReference? {
      act := SawPointer(t'.stage.digest);
    }
  }

  lemma NextAct(cfg: Config, b: Bucket, t: PutTask, io: IO, e: Envelope) returns (act: Act)
    requires cfg.Valid() && !t.stage.PutEnded? && Regular(cfg, t) && (t.stage.MoveLatest? ==> e == t.stage.envelope)
    ensures var t' := PutStep(cfg, b, t, io).1; Stopped(t') || Continues(cfg, b, t, io, t', e, act)
  {
    hide PutStep, Continues, Regular, Stopped;
    if Checks(t.stage) {
      act := CheckingAct(cfg, b, t, io, e);
    } else if t.stage.Upload? || t.stage.Verify? || t.stage.Refer? {
      act := StoringAct(cfg, b, t, io, e);
    } else {
      act := ClosingAct(cfg, b, t, io, e);
    }
  }

  lemma StaysRegular(cfg: Config, b: Bucket, t: PutTask, io: IO)
    requires cfg.Valid() && !t.stage.PutEnded? && Regular(cfg, t)
    ensures Regular(cfg, PutStep(cfg, b, t, io).1) && PutStep(cfg, b, t, io).1.request == t.request
    ensures PutStep(cfg, b, t, io).1.stage.PutEnded? && PutStep(cfg, b, t, io).1.stage.outcome.Repeated? ==>
              t.stage.SecondReference?
  {
    hide PutStep, Checks;
    StepEffect(cfg, b, t, io);
    VerifiesAfterUpload(cfg, b, t, io);
    RepeatsInSecond(cfg, b, t, io);
  }

  lemma VerifiesAfterUpload(cfg: Config, b: Bucket, t: PutTask, io: IO)
    requires cfg.Valid() && !t.stage.PutEnded?
    ensures PutStep(cfg, b, t, io).1.stage.Verify? ==> cfg.verifyAfterWrite
  {
    hide Current, StackOf, Find, NewEnvelope, ReadExact;
  }

  lemma RepeatsInSecond(cfg: Config, b: Bucket, t: PutTask, io: IO)
    requires cfg.Valid() && !t.stage.PutEnded?
    ensures var t' := PutStep(cfg, b, t, io).1;
            t'.stage.PutEnded? && t'.stage.outcome.Repeated? ==> t.stage.SecondReference?
  {
    hide Current, StackOf, Find, NewEnvelope, ReadExact;
  }

  // ---------------------------------------------------------------- in a run

  ghost predicate WentBy(cfg: Config, w: World, events: seq<Event>, i: nat, t: PutTask, e: Envelope)
    requires cfg.Valid()
  {
    AnswersWith(t, e) && Did(cfg, w, events, |events|, i, PutOf(t.request), ActsTo(cfg, t.stage, e))
  }

  ghost predicate OnAWay(cfg: Config, w: World, events: seq<Event>, i: nat)
    requires cfg.Valid()
  {
    var tasks := Run(cfg, w, events).tasks;
    i < |tasks| && tasks[i].Putting? ==>
      Regular(cfg, tasks[i].put) && exists e :: WentBy(cfg, w, events, i, tasks[i].put, e)
  }

  lemma {:induction false} ReadAlready(cfg: Config, w: World, events: seq<Event>, i: nat, t: PutTask, e: Envelope)
    requires cfg.Valid() && Did(cfg, w, events, |events|, i, PutOf(t.request), ActsTo(cfg, t.stage, e))
    ensures Did(cfg, w, events, |events|, i, PutOf(t.request), Settled(cfg, t.stage, e))
  {
    hide Did, ToRecord;
    var of, acts := PutOf(t.request), Settled(cfg, t.stage, e);
    match t.stage {
      case FirstReference(d) =>
        assert ActsTo(cfg, t.stage, e) == acts + [SawPointer(d)];
        DidBefore(cfg, w, events, |events|, i, of, acts, SawPointer(d));
      case SecondReference(d) => DidBefore(cfg, w, events, |events|, i, of, acts, SawPointer(d));
      case WinnerReference(_, d) => DidBefore(cfg, w, events, |events|, i, of, acts, SawPointer(d));
      case _ =>
    }
  }

  /** A call of the put takes it further on its way. */
  lemma {:induction false} CallGoesOn(cfg: Config, w: World, front: seq<Event>, i: nat, io: IO, e: Envelope)
      returns (e': Envelope)
    requires cfg.Valid()
    requires var w1 := Run(cfg, w, front);
             && i < |w1.tasks| && w1.tasks[i].Putting? && !w1.tasks[i].put.stage.PutEnded?
             && Regular(cfg, w1.tasks[i].put) && WentBy(cfg, w, front, i, w1.tasks[i].put, e)
    ensures var w1 := Run(cfg, w, front);
            var t' := PutStep(cfg, w1.bucket, w1.tasks[i].put, io).1;
            Regular(cfg, t') && WentBy(cfg, w, front + [Step(i, io)], i, t', e')
  {
    hide PutStep, PutActs, Did, Regular, ToRecord, ToStored;
    var w1, event := Run(cfg, w, front), Step(i, io);
    var t, events := w1.tasks[i].put, front + [event];
    var t', of := PutStep(cfg, w1.bucket, t, io).1, PutOf(t.request);
    StaysRegular(cfg, w1.bucket, t, io);
    e' := if t.stage.MoveLatest? then t.stage.envelope else e;
    ReadAlready(cfg, w, front, i, t, e');
    var act := NextAct(cfg, w1.bucket, t, io, e');
    if Stopped(t') {
      if t'.stage.outcome.Repeated? {
        DidStays(cfg, w, front, event, |front|, |events|, i, of, [PassedFirst]);
      } else {
        NothingDone(cfg, w, events, |events|, i, of);
      }
    } else {
      assert events[..|front|] == front && events[|front|] == event;
      assert ActsAt(cfg, w, events, |front|, i, of, act);
      DoesOneMore(cfg, w, front, event, i, of, Settled(cfg, t.stage, e'), act);
    }
  }

  lemma {:induction false} EventGoesOn(cfg: Config, w: World, front: seq<Event>, event: Event, i: nat)
    requires cfg.Valid() && OnAWay(cfg, w, front, i)
    ensures OnAWay(cfg, w, front + [event], i)
  {
    hide PutStep, DeleteStep, Did, FromRequest, Regular, ActsTo;
    var w1, events := Run(cfg, w, front), front + [event];
    RunSnoc(cfg, w, front, event);
    if i < |w1.tasks| && w1.tasks[i].Putting? {
      var t := w1.tasks[i].put;
      var e :| WentBy(cfg, w, front, i, t, e);
      if event.Step? && event.index == i && !t.stage.PutEnded? {
        var e' := CallGoesOn(cfg, w, front, i, event.io, e);
      } else {
        DidStays(cfg, w, front, event, |front|, |events|, i, PutOf(t.request), ActsTo(cfg, t.stage, e));
        assert WentBy(cfg, w, events, i, t, e);
      }
    } else if event.BeginPut? && i == |w1.tasks| {
      var e := BeginsAnywhere(cfg, w, events, i, event.request);
    }
  }

  lemma BeginsAnywhere(cfg: Config, w: World, events: seq<Event>, i: nat, request: PutRequest) returns (e: Envelope)
    requires cfg.Valid()
    ensures Regular(cfg, StartPut(cfg, request)) && WentBy(cfg, w, events, i, StartPut(cfg, request), e)
  {
    e := *;
    NothingDone(cfg, w, events, |events|, i, PutOf(request));
  }

  lemma {:induction false} RunGoesOn(cfg: Config, w: World, events: seq<Event>, i: nat)
    requires cfg.Valid() && w.tasks == []
    ensures OnAWay(cfg, w, events, i)
    decreases |events|
  {
    if events != [] {
      hide OnAWay;
      var m := |events| - 1;
      assert events == events[..m] + [events[m]];
      RunGoesOn(cfg, w, events[..m], i);
      EventGoesOn(cfg, w, events[..m], events[m], i);
    }
  }

  // ---------------------------------------------------------------- what the answer means

  predicate AnswersPublished(w: World, i: nat, request: PutRequest, m: Metadata) {
    && i < |w.tasks| && w.tasks[i].Putting? && w.tasks[i].put.request == request
    && w.tasks[i].put.stage == PutEnded(Published(m))
  }

  /**
   * A put that answers that it published has gone the whole way: it passed both checks, its upload was not refused and
   * was found intact if the configuration asks for that, it wrote the record of what was submitted where there was
   * none, for the blob version it had stored, and it moved the pointer, which was not there if it may only be created.
   * The answer is the metadata of that record.
   */
  lemma {:induction false} PublishedDidItsWork(cfg: Config, w: World, events: seq<Event>, i: nat, request: PutRequest,
                                               m: Metadata)
      returns (e: Envelope)
    requires cfg.Valid() && w.tasks == [] && AnswersPublished(Run(cfg, w, events), i, request, m)
    ensures e.metadata == m
    ensures Did(cfg, w, events, |events|, i, PutOf(request), ToRecord(cfg, e) + [MovedPointer(e)])
  {
    hide Did, ToRecord;
    RunGoesOn(cfg, w, events, i);
    e :| WentBy(cfg, w, events, i, Run(cfg, w, events).tasks[i].put, e);
  }

  // ---------------------------------------------------------------- orphan records

  /** Only the call that marks an orphan makes an orphan record where there was none. */
  lemma OrphanIsMarked(cfg: Config, w: World, event: Event, k: Version)
    requires cfg.Valid() && Current(w.bucket.orphans, k).None? && Current(Apply(cfg, w, event).bucket.orphans, k).Some?
    ensures event.Step? && event.index < |w.tasks| && w.tasks[event.index].Putting?
    ensures w.tasks[event.index].put.stage.MarkOrphan? && w.tasks[event.index].put.Key(cfg) == k
  {
    hide PutStep, DeleteStep;
    if event.Step? && event.index < |w.tasks| {
      match w.tasks[event.index] {
        case Putting(t) => if !t.stage.PutEnded? { MarksOwn(cfg, w.bucket, t, event.io, k); }
        case Deleting(t) => if !t.stage.DeleteEnded? { DeleteKeepsOrphans(w.bucket, t, event.io); }
      }
    }
  }

  /**
   * Where an orphan record comes from: a put of the version that had written the reference record, then lost the race
   * for the pointer, and then found that the pointer leads nowhere or to another version.
   */
  lemma {:induction false} OrphanHasItsCause(cfg: Config, w: World, events: seq<Event>, k: Version)
      returns (i: nat, n: nat, request: PutRequest, e: Envelope)
    requires cfg.Valid() && w.tasks == [] && Current(w.bucket.orphans, k).None?
    requires Current(Run(cfg, w, events).bucket.orphans, k).Some?
    ensures n < |events| && Version(request.objectRef, cfg.hash(request.payload)) == k
    ensures ActsAt(cfg, w, events, n, i, PutOf(request), MarkedOrphan)
    ensures Did(cfg, w, events, n, i, PutOf(request), ToRecord(cfg, e) + [LostRace(e)] + [SawNoWinner])
    decreases |events|
  {
    hide Current, Did, ToRecord, Apply;
    assert events != [];
    var m := |events| - 1;
    var front, event := events[..m], events[m];
    var w1 := Run(cfg, w, front);
    assert events == front + [event];
    RunSnoc(cfg, w, front, event);
    if Current(w1.bucket.orphans, k).Some? {
      i, n, request, e := OrphanHasItsCause(cfg, w, front, k);
      ActsStay(cfg, w, front, event, n, i, PutOf(request), MarkedOrphan);
      DidStays(cfg, w, front, event, n, n, i, PutOf(request), ToRecord(cfg, e) + [LostRace(e)] + [SawNoWinner]);
    } else {
      OrphanIsMarked(cfg, w1, event, k);
      i, n := event.index, m;
      var t := w1.tasks[i].put;
      request, e := t.request, t.stage.envelope;
      RunGoesOn(cfg, w, front, i);
      var other :| WentBy(cfg, w, front, i, t, other);
      DidStays(cfg, w, front, event, m, m, i, PutOf(request), ToRecord(cfg, e) + [LostRace(e)] + [SawNoWinner]);
    }
  }
}
