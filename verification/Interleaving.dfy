/**
 * Any number of puts, interleaved call by call and each free to stop anywhere, with no delete
 * running (adapter.py, _put): a latest pointer always names a record of its own object and digest,
 * whatever the uploads store.
 */
module Interleaving {
  import opened Wrappers
  import opened Bucket
  import opened Publication

  /** No event starts a delete. */
  ghost predicate DeleteFree(events: seq<Event>) {
    forall i | 0 <= i < |events| :: !events[i].BeginDelete?
  }

  ghost predicate PointersResolve(b: Bucket) {
    forall o | Current(b.latest, o).Some? ::
      Current(b.references, Version(o, Current(b.latest, o).value.value)).Some?
  }

  /** Every record carries the object and the digest of its key. */
  ghost predicate RecordsNamed(b: Bucket) {
    forall k | Current(b.references, k).Some? ::
      var m := Current(b.references, k).value.value.metadata; m.objectRef == k.objectRef && m.digest == k.digest
  }

  /** A put about to move the pointer has its record in place. */
  ghost predicate Anchored(cfg: Config, b: Bucket, t: PutTask) {
    t.stage.MoveLatest? ==> Current(b.references, t.Key(cfg)).Some?
  }

  ghost predicate Linked(cfg: Config, w: World) {
    && (forall i | 0 <= i < |w.tasks| :: w.tasks[i].Putting? && Anchored(cfg, w.bucket, w.tasks[i].put))
    && PointersResolve(w.bucket)
    && RecordsNamed(w.bucket)
  }

  /** Records once there stay as they are. */
  ghost predicate Extends(b: Bucket, b': Bucket) {
    && b'.versioned == b.versioned
    && (forall k | Current(b.references, k).Some? :: Current(b'.references, k) == Current(b.references, k))
  }

  lemma PutStepKeepsLinks(cfg: Config, b: Bucket, t: PutTask, io: IO)
    requires cfg.Valid() && !t.stage.PutEnded? && Anchored(cfg, b, t) && PointersResolve(b) && RecordsNamed(b)
    ensures var (b', t') := PutStep(cfg, b, t, io);
            Extends(b, b') && Anchored(cfg, b', t') && PointersResolve(b') && RecordsNamed(b')
  {
    hide PutStep, PointersResolve, RecordsNamed, Extends, Anchored;
    match t.stage {
      case Refer(_) => ReferKeepsLinks(cfg, b, t, io);
      case MoveLatest(_) => MoveKeepsLinks(cfg, b, t, io);
      case _ => ElsewhereKeepsLinks(cfg, b, t, io);
    }
  }

  lemma ElsewhereKeepsLinks(cfg: Config, b: Bucket, t: PutTask, io: IO)
    requires cfg.Valid() && !t.stage.PutEnded? && !t.stage.Refer? && !t.stage.MoveLatest?
    requires PointersResolve(b) && RecordsNamed(b)
    ensures var (b', t') := PutStep(cfg, b, t, io);
            Extends(b, b') && Anchored(cfg, b', t') && PointersResolve(b') && RecordsNamed(b')
  {
    hide PutStep, Current;
    ElsewhereEffect(cfg, b, t, io);
  }

  lemma ElsewhereEffect(cfg: Config, b: Bucket, t: PutTask, io: IO)
    requires cfg.Valid() && !t.stage.PutEnded? && !t.stage.Refer? && !t.stage.MoveLatest?
    ensures var (b', t') := PutStep(cfg, b, t, io);
            && t'.request == t.request && !t'.stage.MoveLatest?
            && b'.references == b.references && b'.latest == b.latest && b'.versioned == b.versioned
  {
    hide Current, StackOf, Find, ReadExact;
  }

  lemma ReferKeepsLinks(cfg: Config, b: Bucket, t: PutTask, io: IO)
    requires cfg.Valid() && t.stage.Refer? && PointersResolve(b) && RecordsNamed(b)
    ensures var (b', t') := PutStep(cfg, b, t, io);
            Extends(b, b') && Anchored(cfg, b', t') && PointersResolve(b') && RecordsNamed(b')
  {
    hide PutStep;
    ReferEffect(cfg, b, t, io);
    hide Current;
  }

  lemma ReferEffect(cfg: Config, b: Bucket, t: PutTask, io: IO)
    requires cfg.Valid() && t.stage.Refer?
    ensures var (b', t') := PutStep(cfg, b, t, io);
            var k := t.Key(cfg);
            && t'.request == t.request && b'.latest == b.latest && b'.blobs == b.blobs
            && b'.versioned == b.versioned && b'.next >= b.next
            && Current(b'.references, k).Some?
            && (forall j :: j != k ==> Current(b'.references, j) == Current(b.references, j))
            && (if Current(b.references, k).Some? then b' == b && t'.stage == PutEnded(PutFailed(ConditionalConflict))
                else
                  var envelope := NewEnvelope(cfg, t, t.stage.version, io.now);
                  t'.stage == MoveLatest(envelope) && Current(b'.references, k).value.value == envelope)
  {
    hide NewEnvelope;
  }

  lemma MoveKeepsLinks(cfg: Config, b: Bucket, t: PutTask, io: IO)
    requires cfg.Valid() && t.stage.MoveLatest? && Anchored(cfg, b, t) && PointersResolve(b) && RecordsNamed(b)
    ensures var (b', t') := PutStep(cfg, b, t, io);
            Extends(b, b') && Anchored(cfg, b', t') && PointersResolve(b') && RecordsNamed(b')
  {
    hide PutStep, StackOf, Bucket.Pushed;
    var (b', t') := PutStep(cfg, b, t, io);
    MoveEffect(cfg, b, t, io);
    forall o | Current(b'.latest, o).Some?
      ensures Current(b'.references, Version(o, Current(b'.latest, o).value.value)).Some?
    {
      if o == t.request.objectRef && b'.latest != b.latest {
        assert Version(o, Current(b'.latest, o).value.value) == t.Key(cfg);
      } else {
        assert Current(b'.latest, o) == Current(b.latest, o);
      }
    }
  }

  lemma MoveEffect(cfg: Config, b: Bucket, t: PutTask, io: IO)
    requires cfg.Valid() && t.stage.MoveLatest?
    ensures var (b', t') := PutStep(cfg, b, t, io);
            && t'.request == t.request && (t'.stage.Winner? || t'.stage.PutEnded?)
            && b'.references == b.references && b'.blobs == b.blobs && b'.versioned == b.versioned && b'.next >= b.next
            && (forall o :: o != t.request.objectRef ==> Current(b'.latest, o) == Current(b.latest, o))
            && (b'.latest != b.latest ==>
                  Current(b'.latest, t.request.objectRef).Some?
                  && Current(b'.latest, t.request.objectRef).value.value == t.Digest(cfg))
  {
  }

  lemma EventKeepsLinks(cfg: Config, w: World, e: Event)
    requires cfg.Valid() && Linked(cfg, w) && !e.BeginDelete?
    ensures Linked(cfg, Apply(cfg, w, e)) && Extends(w.bucket, Apply(cfg, w, e).bucket)
  {
    if e.Step? && e.index < |w.tasks| && !w.tasks[e.index].put.stage.PutEnded? {
      PutStepKeepsLinks(cfg, w.bucket, w.tasks[e.index].put, e.io);
      hide PutStep, PointersResolve, RecordsNamed;
      var w' := Apply(cfg, w, e);
      forall i | 0 <= i < |w'.tasks|
        ensures w'.tasks[i].Putting? && Anchored(cfg, w'.bucket, w'.tasks[i].put)
      {
        assert w.tasks[i].Putting? && Anchored(cfg, w.bucket, w.tasks[i].put);
      }
    }
  }

  lemma {:induction false} RunKeepsLinks(cfg: Config, w: World, events: seq<Event>)
    requires cfg.Valid() && Linked(cfg, w) && DeleteFree(events)
    ensures Linked(cfg, Run(cfg, w, events)) && Extends(w.bucket, Run(cfg, w, events).bucket)
    decreases |events|
  {
    if events != [] {
      EventKeepsLinks(cfg, w, events[0]);
      assert DeleteFree(events[1..]) by { assert forall i | 0 <= i < |events| - 1 :: events[1..][i] == events[i + 1]; }
      RunKeepsLinks(cfg, Apply(cfg, w, events[0]), events[1..]);
    }
  }

  /** In every delete-free run a latest pointer names a record of that object and digest, and the lookup finds it. */
  lemma {:induction false} LatestResolvesToRecord(cfg: Config, versioned: bool, events: seq<Event>, o: ObjectRef)
    requires cfg.Valid() && DeleteFree(events)
    ensures var b := Run(cfg, Initial(versioned), events).bucket;
            Current(b.latest, o).Some? ==>
              var k := Version(o, Current(b.latest, o).value.value);
              && Current(b.references, k).Some?
              && ReadEnvelope(b, o, None) == Ok(Current(b.references, k).value.value)
              && Current(b.references, k).value.value.metadata.objectRef == o
              && Current(b.references, k).value.value.metadata.digest == k.digest
  {
    RunKeepsLinks(cfg, Initial(versioned), events);
  }
}
