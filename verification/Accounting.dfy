/**
 * Delete-free runs, continued: who wrote what (adapter.py, _put and _record_orphan). Every
 * reference record is accounted for, and an object that is only ever created has one winner.
 */
module Accounting {
  import opened Wrappers
  import opened Integrity
  import opened Retention
  import opened Bucket
  import opened Publication
  import opened Interleaving

  // ---------------------------------------------------------------- every reference is accounted for

  /** Task `i` wrote the reference record of `k`. */
  ghost predicate Wrote(cfg: Config, w: World, i: nat, k: Version) {
    i < |w.tasks| && w.tasks[i].Putting? && w.tasks[i].put.referenced && w.tasks[i].put.Key(cfg) == k
  }

  /** Task `i` made the latest pointer name `k`. */
  ghost predicate Moved(cfg: Config, w: World, i: nat, k: Version) {
    Wrote(cfg, w, i, k) && w.tasks[i].put.moved
  }

  /** The reference is written and the pointer not yet decided. */
  predicate InFlight(t: PutTask) {
    t.stage.MoveLatest? || t.stage.Winner? || t.stage.WinnerReference? || t.stage.MarkOrphan?
  }

  ghost predicate Shape(cfg: Config, b: Bucket, t: PutTask) {
    && (t.moved ==> t.referenced)
    && (t.moved <==> t.stage.PutEnded? && t.stage.outcome.Published?)
    && (InFlight(t) ==> t.referenced)
    && (t.referenced ==> Current(b.references, t.Key(cfg)).Some?)
    && (t.referenced ==> InFlight(t) || t.moved || Current(b.orphans, t.Key(cfg)).Some?)
    && (t.stage.WinnerReference? ==> t.stage.digest != t.Digest(cfg))
  }

  ghost predicate Accounted(cfg: Config, w: World) {
    && (forall i | 0 <= i < |w.tasks| :: w.tasks[i].Putting? && Shape(cfg, w.bucket, w.tasks[i].put))
    && (forall k | Current(w.bucket.references, k).Some? :: exists i: nat :: Wrote(cfg, w, i, k))
    && (forall i: nat, j: nat, k | Wrote(cfg, w, i, k) && Wrote(cfg, w, j, k) :: i == j)
    && (forall o | Current(w.bucket.latest, o).Some? ::
          exists i: nat :: Moved(cfg, w, i, Version(o, Current(w.bucket.latest, o).value.value)))
  }

  predicate Creates(cfg: Config, b: Bucket, t: PutTask) {
    t.stage.Refer? && Current(b.references, t.Key(cfg)).None?
  }

  predicate Moves(b: Bucket, t: PutTask) {
    t.stage.MoveLatest? && !(t.CreatesLatest() && Current(b.latest, t.request.objectRef).Some?)
  }

  /** Which maps a step writes, and what it remembers of it. */
  lemma StepEffect(cfg: Config, b: Bucket, t: PutTask, io: IO)
    requires cfg.Valid() && !t.stage.PutEnded?
    ensures var (b', t') := PutStep(cfg, b, t, io);
            && t'.request == t.request && t'.record == t.record
            && t'.referenced == (t.referenced || Creates(cfg, b, t)) && t'.moved == (t.moved || Moves(b, t))
            && (!Creates(cfg, b, t) ==> b'.references == b.references)
            && (!Moves(b, t) ==> b'.latest == b.latest)
            && (!t.stage.MarkOrphan? ==> b'.orphans == b.orphans)
  {
    hide PutStep, Current;
    if Checks(t.stage) {
      CheckingReads(cfg, b, t, io);
    } else if Seeks(t.stage) {
      SeekingReads(cfg, b, t, io);
    } else if t.stage.Refer? || t.stage.MoveLatest? {
      PublishingEffect(cfg, b, t, io);
    } else {
      UploadingEffect(cfg, b, t, io);
    }
  }

  lemma UploadingEffect(cfg: Config, b: Bucket, t: PutTask, io: IO)
    requires cfg.Valid() && (t.stage.Upload? || t.stage.MarkOrphan?)
    ensures var (b', t') := PutStep(cfg, b, t, io);
            && t' == t.At(t'.stage) && b'.references == b.references && b'.latest == b.latest
            && (t.stage.Upload? ==> b'.orphans == b.orphans)
  {
    hide Current, StackOf;
  }

  lemma PublishingEffect(cfg: Config, b: Bucket, t: PutTask, io: IO)
    requires cfg.Valid() && (t.stage.Refer? || t.stage.MoveLatest?)
    ensures var (b', t') := PutStep(cfg, b, t, io);
            && t' == t.At(t'.stage).(referenced := t.referenced || Creates(cfg, b, t), moved := t.moved || Moves(b, t))
            && (!Creates(cfg, b, t) ==> b'.references == b.references)
            && (!Moves(b, t) ==> b'.latest == b.latest)
            && b'.orphans == b.orphans
  {
    hide Current, StackOf, NewEnvelope;
  }

  lemma CreatingEffect(cfg: Config, b: Bucket, t: PutTask, io: IO)
    requires cfg.Valid() && Creates(cfg, b, t)
    ensures var (b', t') := PutStep(cfg, b, t, io);
            && t'.stage == MoveLatest(NewEnvelope(cfg, t, t.stage.version, io.now))
            && (forall k :: Current(b'.references, k) ==
                  if k == t.Key(cfg) then Some(Entry(b.NewId(), t'.stage.envelope)) else Current(b.references, k))
  {
    hide NewEnvelope;
  }

  lemma MovingEffect(cfg: Config, b: Bucket, t: PutTask, io: IO)
    requires cfg.Valid() && t.stage.MoveLatest? && Moves(b, t)
    ensures var (b', t') := PutStep(cfg, b, t, io);
            && t'.stage == PutEnded(Published(t.stage.envelope.metadata))
            && (forall o :: Current(b'.latest, o) ==
                  if o == t.request.objectRef then Some(Entry(b.NewId(), t.Digest(cfg))) else Current(b.latest, o))
  {
  }

  lemma MarkingEffect(cfg: Config, b: Bucket, t: PutTask, io: IO)
    requires cfg.Valid() && t.stage.MarkOrphan?
    ensures var (b', t') := PutStep(cfg, b, t, io);
            && t'.stage == PutEnded(PutFailed(ConditionalConflict))
            && Current(b'.orphans, t.Key(cfg)).Some?
            && (forall k | Current(b.orphans, k).Some? :: Current(b'.orphans, k).Some?)
  {
  }

  /** Where a step can lead. */
  lemma StageOrder(cfg: Config, b: Bucket, t: PutTask, io: IO)
    requires cfg.Valid() && !t.stage.PutEnded? && RecordsNamed(b)
    ensures var t' := PutStep(cfg, b, t, io).1;
            && (InFlight(t') ==> InFlight(t) || Creates(cfg, b, t))
            && (t'.stage.PutEnded? && t'.stage.outcome.Published? ==> Moves(b, t))
            && (t'.stage.WinnerReference? ==>
                  Current(b.latest, t.request.objectRef).Some?
                      && t'.stage.digest == Current(b.latest, t.request.objectRef).value.value)
            && (t.stage.WinnerReference? && t.stage.digest != t.Digest(cfg) ==> InFlight(t'))
            && (InFlight(t) ==> InFlight(t') || t.stage.MarkOrphan? || Moves(b, t)
                                || (t.stage.WinnerReference? && t.stage.digest == t.Digest(cfg)))
  {
    hide PutStep, RecordsNamed, Current;
    if InFlight(t) {
      OrderInFlight(cfg, b, t, io);
    } else if Checks(t.stage) {
      OrderOfChecks(cfg, b, t, io);
    } else {
      OrderOfWrites(cfg, b, t, io);
    }
  }

  lemma OrderInFlight(cfg: Config, b: Bucket, t: PutTask, io: IO)
    requires cfg.Valid() && InFlight(t) && RecordsNamed(b)
    ensures var t' := PutStep(cfg, b, t, io).1;
            && (t'.stage.PutEnded? && t'.stage.outcome.Published? ==> Moves(b, t))
            && (t'.stage.WinnerReference? ==>
                  Current(b.latest, t.request.objectRef).Some?
                      && t'.stage.digest == Current(b.latest, t.request.objectRef).value.value)
            && (InFlight(t') || t.stage.MarkOrphan? || Moves(b, t)
                || (t.stage.WinnerReference? && t.stage.digest == t.Digest(cfg)))
  {
    hide StackOf;
  }

  lemma OrderOfChecks(cfg: Config, b: Bucket, t: PutTask, io: IO)
    requires cfg.Valid() && Checks(t.stage)
    ensures var t' := PutStep(cfg, b, t, io).1;
            !InFlight(t') && !(t'.stage.PutEnded? && t'.stage.outcome.Published?)
  {
    hide Current, ReadExact;
  }

  lemma OrderOfWrites(cfg: Config, b: Bucket, t: PutTask, io: IO)
    requires cfg.Valid() && (t.stage.Upload? || t.stage.Verify? || t.stage.Refer?)
    ensures var t' := PutStep(cfg, b, t, io).1;
            && (InFlight(t') ==> Creates(cfg, b, t) && t'.stage.MoveLatest?)
            && !(t'.stage.PutEnded? && t'.stage.outcome.Published?)
  {
    hide StackOf, Find, NewEnvelope;
  }

  lemma EventKeepsAccount(cfg: Config, w: World, e: Event)
    requires cfg.Valid() && Linked(cfg, w) && !e.BeginDelete?
    requires Accounted(cfg, w)
    ensures Accounted(cfg, Apply(cfg, w, e))
  {
    var w' := Apply(cfg, w, e);
    if e.Step? && e.index < |w.tasks| && !w.tasks[e.index].put.stage.PutEnded? {
      StepKeepsAccount(cfg, w, e.index, e.io);
    } else {
      assert forall i: nat, k ::
          Wrote(cfg, w', i, k) == Wrote(cfg, w, i, k) && Moved(cfg, w', i, k) == Moved(cfg, w, i, k);
    }
  }

  lemma StepKeepsAccount(cfg: Config, w: World, i: nat, io: IO)
    requires cfg.Valid() && Linked(cfg, w) && Accounted(cfg, w)
    requires i < |w.tasks| && !w.tasks[i].put.stage.PutEnded?
    ensures Accounted(cfg, Apply(cfg, w, Step(i, io)))
  {
    var t := w.tasks[i].put;
    var w' := Apply(cfg, w, Step(i, io));
    var t' := w'.tasks[i].put;
    StepEffect(cfg, w.bucket, t, io);
    StageOrder(cfg, w.bucket, t, io);
    if Creates(cfg, w.bucket, t) {
      CreatingEffect(cfg, w.bucket, t, io);
    }
    if Moves(w.bucket, t) {
      MovingEffect(cfg, w.bucket, t, io);
    }
    if t.stage.MarkOrphan? {
      MarkingEffect(cfg, w.bucket, t, io);
    }
    if t'.stage.WinnerReference? {
      NotOwnPointer(cfg, w, i);
    }
    hide PutStep, Current, NewEnvelope;
    assert w'.tasks == w.tasks[i := Putting(t')];
    forall j | 0 <= j < |w'.tasks|
      ensures w'.tasks[j].Putting? && Shape(cfg, w'.bucket, w'.tasks[j].put)
    {
      assert w.tasks[j].Putting? && Shape(cfg, w.bucket, w.tasks[j].put);
    }
    WritersKept(cfg, w, i, w');
  }

  /** Writers stay writers; the step adds at most one, of a reference that had none. */
  lemma WritersKept(cfg: Config, w: World, i: nat, w': World)
    requires Accounted(cfg, w) && i < |w.tasks| == |w'.tasks|
    requires w'.tasks[i].Putting? && w'.tasks == w.tasks[i := w'.tasks[i]]
    requires var t, t' := w.tasks[i].put, w'.tasks[i].put;
             && t'.request == t.request && (t.referenced ==> t'.referenced) && (t.moved ==> t'.moved)
             && (t'.referenced && !t.referenced ==> Current(w.bucket.references, t.Key(cfg)).None?)
             && (forall k | k != t.Key(cfg) || t'.referenced == t.referenced ::
                 Current(w'.bucket.references, k) == Current(w.bucket.references, k))
             && (forall o :: Current(w'.bucket.latest, o) == Current(w.bucket.latest, o)
                             || (o == t.request.objectRef && t'.moved && t'.referenced
                                 && Current(w'.bucket.latest, o).Some?
                                     && Current(w'.bucket.latest, o).value.value == t.Digest(cfg)))
    ensures forall k | Current(w'.bucket.references, k).Some? :: exists j: nat :: Wrote(cfg, w', j, k)
    ensures forall j: nat, l: nat, k | Wrote(cfg, w', j, k) && Wrote(cfg, w', l, k) :: j == l
    ensures forall o | Current(w'.bucket.latest, o).Some? ::
              exists j: nat :: Moved(cfg, w', j, Version(o, Current(w'.bucket.latest, o).value.value))
  {
    hide Current;
    var t, t' := w.tasks[i].put, w'.tasks[i].put;
    assert forall j: nat, k | Wrote(cfg, w, j, k) :: Wrote(cfg, w', j, k);
    assert forall j: nat, k | Moved(cfg, w, j, k) :: Moved(cfg, w', j, k);
    forall j: nat, k | Wrote(cfg, w', j, k) && !Wrote(cfg, w, j, k)
      ensures j == i && k == t.Key(cfg) && forall l: nat :: !Wrote(cfg, w, l, k)
    {
      forall l: nat
        ensures !Wrote(cfg, w, l, k)
      {
        assert l < |w.tasks| ==> Shape(cfg, w.bucket, w.tasks[l].put);
      }
    }
    forall k | Current(w'.bucket.references, k).Some?
      ensures exists j: nat :: Wrote(cfg, w', j, k)
    {
      if k == t.Key(cfg) && t'.referenced != t.referenced {
        assert Wrote(cfg, w', i, k);
      } else {
        var j: nat :| Wrote(cfg, w, j, k);
        assert Wrote(cfg, w', j, k);
      }
    }
    forall o | Current(w'.bucket.latest, o).Some?
      ensures exists j: nat :: Moved(cfg, w', j, Version(o, Current(w'.bucket.latest, o).value.value))
    {
      var k := Version(o, Current(w'.bucket.latest, o).value.value);
      if Current(w'.bucket.latest, o) == Current(w.bucket.latest, o) {
        var j: nat :| Moved(cfg, w, j, k);
        assert Moved(cfg, w', j, k);
      } else {
        assert Moved(cfg, w', i, k);
      }
    }
  }

  /** A put that lost the race never finds its own digest behind the pointer. */
  lemma NotOwnPointer(cfg: Config, w: World, i: nat)
    requires cfg.Valid() && Accounted(cfg, w)
    requires i < |w.tasks| && w.tasks[i].put.referenced && !w.tasks[i].put.moved
    ensures Current(w.bucket.latest, w.tasks[i].put.request.objectRef).Some? ==>
              Current(w.bucket.latest, w.tasks[i].put.request.objectRef).value.value != w.tasks[i].put.Digest(cfg)
  {
    var t := w.tasks[i].put;
    var pointer := Current(w.bucket.latest, t.request.objectRef);
    if pointer.Some? && pointer.value.value == t.Digest(cfg) {
      var j: nat :| Moved(cfg, w, j, t.Key(cfg));
      assert Wrote(cfg, w, i, t.Key(cfg));
    }
  }

  lemma {:induction false} RunKeepsAccount(cfg: Config, w: World, events: seq<Event>)
    requires cfg.Valid() && Linked(cfg, w) && Accounted(cfg, w) && DeleteFree(events)
    ensures Linked(cfg, Run(cfg, w, events)) && Accounted(cfg, Run(cfg, w, events))
    decreases |events|
  {
    if events != [] {
      EventKeepsLinks(cfg, w, events[0]);
      EventKeepsAccount(cfg, w, events[0]);
      RunKeepsAccount(cfg, Apply(cfg, w, events[0]), events[1..]);
    }
  }

  ghost function PointerOf(b: Bucket, o: ObjectRef): Option<Digest> {
    var pointer := Current(b.latest, o);
    if pointer.Some? then Some(pointer.value.value) else None
  }

  // ---------------------------------------------------------------- what a moved pointer named

  /** Having moved the pointer means that it named the put's digest at that step. */
  lemma MovingNames(cfg: Config, b: Bucket, t: PutTask, io: IO)
    requires cfg.Valid() && !t.stage.PutEnded? && !t.moved
    ensures var (b', t') := PutStep(cfg, b, t, io);
            t'.moved ==> Current(b'.latest, t.request.objectRef) == Some(Entry(b.NewId(), t.Digest(cfg)))
  {
    StepEffect(cfg, b, t, io);
    if Moves(b, t) {
      MovingEffect(cfg, b, t, io);
    }
  }

  /** At some moment of the run the latest pointer of the object named `k`. */
  ghost predicate NamedOnce(cfg: Config, w: World, events: seq<Event>, k: Version)
    requires cfg.Valid()
  {
    exists n | 0 <= n <= |events| :: NamedAfter(cfg, w, events, n, k)
  }

  ghost predicate NamedAfter(cfg: Config, w: World, events: seq<Event>, n: nat, k: Version)
    requires cfg.Valid() && n <= |events|
  {
    PointerOf(Run(cfg, w, events[..n]).bucket, k.objectRef) == Some(k.digest)
  }

  /** Task `i` is a put that counts as having moved the pointer. */
  predicate HasMoved(w: World, i: nat) {
    i < |w.tasks| && w.tasks[i].Putting? && w.tasks[i].put.moved
  }

  lemma MoveIsOneStep(cfg: Config, w: World, e: Event, i: nat)
    requires cfg.Valid() && HasMoved(Apply(cfg, w, e), i)
    ensures var k := Apply(cfg, w, e).tasks[i].put.Key(cfg);
            if HasMoved(w, i) then w.tasks[i].put.Key(cfg) == k
            else PointerOf(Apply(cfg, w, e).bucket, k.objectRef) == Some(k.digest)
  {
    hide PutStep, DeleteStep, Current;
    if e.Step? && e.index == i && i < |w.tasks| && w.tasks[i].Putting? && !w.tasks[i].put.stage.PutEnded? {
      StepEffect(cfg, w.bucket, w.tasks[i].put, e.io);
      if !w.tasks[i].put.moved {
        MovingNames(cfg, w.bucket, w.tasks[i].put, e.io);
      }
    }
  }

  /** A put that moved the pointer made it name the put's own version at some moment of the run. */
  lemma {:induction false} MovedNamedOnce(cfg: Config, w: World, events: seq<Event>, i: nat)
    requires cfg.Valid() && !HasMoved(w, i) && HasMoved(Run(cfg, w, events), i)
    ensures NamedOnce(cfg, w, events, Run(cfg, w, events).tasks[i].put.Key(cfg))
    decreases |events|
  {
    hide PointerOf, Apply;
    if events != [] {
      var m := |events| - 1;
      var front := events[..m];
      var w1 := Run(cfg, w, front);
      assert events == front + [events[m]] && events[..m + 1] == events;
      RunAppend(cfg, w, front, [events[m]]);
      assert Run(cfg, w1, [events[m]]) == Run(cfg, Apply(cfg, w1, events[m]), []);
      MoveIsOneStep(cfg, w1, events[m], i);
      var k := Run(cfg, w, events).tasks[i].put.Key(cfg);
      if HasMoved(w1, i) {
        MovedNamedOnce(cfg, w, front, i);
        var n :| 0 <= n <= m && NamedAfter(cfg, w, front, n, k);
        assert front[..n] == events[..n];
        assert NamedAfter(cfg, w, events, n, k);
      } else {
        assert NamedAfter(cfg, w, events, m + 1, k);
      }
    }
  }

  // ---------------------------------------------------------------- what orphan records say

  /** Orphan records give the lost race for the pointer as their reason. */
  ghost predicate OrphanReasons(b: Bucket) {
    forall k, e | e in StackOf(b.orphans, k) :: e.value == "latest-conflict"
  }

  lemma PutKeepsReasons(cfg: Config, b: Bucket, t: PutTask, io: IO)
    requires cfg.Valid() && !t.stage.PutEnded? && OrphanReasons(b)
    ensures OrphanReasons(PutStep(cfg, b, t, io).0)
  {
    hide NewEnvelope, Find, ReadExact;
    var b', k := PutStep(cfg, b, t, io).0, t.Key(cfg);
    forall j, e | e in StackOf(b'.orphans, j)
      ensures e.value == "latest-conflict"
    {
      assert e in StackOf(b.orphans, j) || (t.stage.MarkOrphan? && j == k && e == Entry(b.NewId(), "latest-conflict"));
    }
  }

  lemma DeleteKeepsOrphans(b: Bucket, t: DeleteTask, io: IO)
    requires !t.stage.DeleteEnded?
    ensures DeleteStep(b, t, io).0.orphans == b.orphans
  {
    hide Current, StackOf, Without, ReadExact, Releases;
  }

  lemma {:induction false} RunKeepsReasons(cfg: Config, w: World, events: seq<Event>)
    requires cfg.Valid() && OrphanReasons(w.bucket)
    ensures OrphanReasons(Run(cfg, w, events).bucket)
    decreases |events|
  {
    hide PutStep, DeleteStep, OrphanReasons;
    if events != [] {
      var e, w1 := events[0], Apply(cfg, w, events[0]);
      if e.Step? && e.index < |w.tasks| {
        match w.tasks[e.index] {
          case Putting(t) => if !t.stage.PutEnded? { PutKeepsReasons(cfg, w.bucket, t, e.io); }
          case Deleting(t) =>
            if !t.stage.DeleteEnded? {
              DeleteKeepsOrphans(w.bucket, t, e.io);
              SameOrphans(w.bucket, w1.bucket);
            }
        }
      }
      RunKeepsReasons(cfg, w1, events[1..]);
    }
  }

  lemma SameOrphans(b: Bucket, b': Bucket)
    requires OrphanReasons(b) && b'.orphans == b.orphans
    ensures OrphanReasons(b')
  {
  }

  lemma CurrentReason(b: Bucket, k: Version)
    requires OrphanReasons(b) && Current(b.orphans, k).Some?
    ensures Current(b.orphans, k).value.value == "latest-conflict"
  {
    var s := StackOf(b.orphans, k);
    assert s[|s| - 1] in s;
  }

  /**
   * Every reference record ever written belongs to exactly one put: one that is still in flight or
   * stopped, or moved the latest pointer, which named it at some moment of the run, or left an orphan
   * record for it, which says that the race for the pointer was lost. A put that looks for a winner never
   * finds its own digest, so the exemption from the orphan record is never taken.
   */
  lemma {:induction false} EveryReferenceIsAccountedFor(cfg: Config, versioned: bool, events: seq<Event>, k: Version)
    requires cfg.Valid() && DeleteFree(events)
    ensures var w := Run(cfg, Initial(versioned), events);
            && (Current(w.bucket.references, k).Some? ==>
                  exists i: nat ::
                    && Wrote(cfg, w, i, k) && (forall j: nat | Wrote(cfg, w, j, k) :: j == i)
                    && (|| InFlight(w.tasks[i].put)
                        || (Moved(cfg, w, i, k) && NamedOnce(cfg, Initial(versioned), events, k))
                        || (Current(w.bucket.orphans, k).Some?
                            && Current(w.bucket.orphans, k).value.value == "latest-conflict")))
            && (forall i | 0 <= i < |w.tasks| ::
                  && w.tasks[i].Putting?
                  && (w.tasks[i].put.stage.WinnerReference? ==>
                      w.tasks[i].put.stage.digest != w.tasks[i].put.Digest(cfg)))
  {
    RunKeepsAccount(cfg, Initial(versioned), events);
    RunKeepsReasons(cfg, Initial(versioned), events);
    var w := Run(cfg, Initial(versioned), events);
    if Current(w.bucket.references, k).Some? {
      var i: nat :| Wrote(cfg, w, i, k);
      assert Shape(cfg, w.bucket, w.tasks[i].put);
      if Current(w.bucket.orphans, k).Some? {
        CurrentReason(w.bucket, k);
      }
      if w.tasks[i].put.moved {
        MovedNamedOnce(cfg, Initial(versioned), events, i);
      }
    }
  }

  // ---------------------------------------------------------------- one winner

  /** No event lets a put on `o` replace its latest pointer. */
  ghost predicate OnlyCreates(events: seq<Event>, o: ObjectRef) {
    forall i | 0 <= i < |events| && events[i].BeginPut? && events[i].request.objectRef == o ::
      events[i].request.createOnly || events[i].request.immutable
  }

  /** The metadata that a successful put answered with. */
  ghost function Answer(t: PutTask): Option<Metadata> {
    if t.stage.PutEnded? && !t.stage.outcome.PutFailed? then Some(t.stage.outcome.metadata) else None
  }

  /** What the reference behind the latest pointer says. */
  ghost function Winning(b: Bucket, o: ObjectRef): Option<Metadata> {
    var pointer := PointerOf(b, o);
    if pointer.None? then None
    else
      var entry := Current(b.references, Version(o, pointer.value));
      if entry.None? then None else Some(entry.value.value.metadata)
  }

  ghost predicate Contender(cfg: Config, b: Bucket, t: PutTask, o: ObjectRef) {
    t.request.objectRef == o ==>
      && t.CreatesLatest()
      && (t.moved ==> PointerOf(b, o) == Some(t.Digest(cfg)))
      && (Answer(t).Some? ==> Winning(b, o) == Answer(t))
      && (t.stage.SecondReference? ==> PointerOf(b, o) == Some(t.stage.digest))
      && (InFlight(t) ==> Current(b.references, t.Key(cfg)).Some?
                          && Current(b.references, t.Key(cfg)).value.value == t.stage.envelope)
  }

  ghost predicate OneWinner(cfg: Config, w: World, o: ObjectRef) {
    && (forall i | 0 <= i < |w.tasks| :: w.tasks[i].Putting? && Contender(cfg, w.bucket, w.tasks[i].put, o))
    && (forall i: nat, j: nat | Committed(w, i, o) && Committed(w, j, o) :: i == j)
  }

  /** Task `i` published through the write path. */
  ghost predicate Committed(w: World, i: nat, o: ObjectRef) {
    i < |w.tasks| && w.tasks[i].Putting? && w.tasks[i].put.request.objectRef == o && w.tasks[i].put.moved
  }

  /** A pointer once set stays, with the record behind it; other records stay as they are. */
  ghost predicate PointerStays(b: Bucket, b': Bucket, o: ObjectRef) {
    && (PointerOf(b, o).Some? ==> PointerOf(b', o) == PointerOf(b, o) && Winning(b', o) == Winning(b, o))
    && (forall k | Current(b.references, k).Some? :: Current(b'.references, k) == Current(b.references, k))
  }

  lemma StepKeepsPointer(cfg: Config, b: Bucket, t: PutTask, io: IO, o: ObjectRef)
    requires cfg.Valid() && !t.stage.PutEnded? && PointersResolve(b) && Contender(cfg, b, t, o)
    requires Extends(b, PutStep(cfg, b, t, io).0)
    ensures PointerStays(b, PutStep(cfg, b, t, io).0, o)
  {
    StepEffect(cfg, b, t, io);
    if Moves(b, t) {
      MovingEffect(cfg, b, t, io);
    }
    hide PutStep;
  }

  lemma OthersStayContenders(cfg: Config, b: Bucket, b': Bucket, t: PutTask, o: ObjectRef)
    requires Contender(cfg, b, t, o) && PointerStays(b, b', o)
    ensures Contender(cfg, b', t, o)
  {
  }

  lemma StepsAsContender(cfg: Config, b: Bucket, t: PutTask, io: IO, o: ObjectRef)
    requires cfg.Valid() && !t.stage.PutEnded? && Contender(cfg, b, t, o) && t.request.objectRef == o
    requires PointersResolve(b) && RecordsNamed(b) && Shape(cfg, b, t)
    ensures var (b', t') := PutStep(cfg, b, t, io); Contender(cfg, b', t', o)
  {
    var (b', t') := PutStep(cfg, b, t, io);
    StepEffect(cfg, b, t, io);
    match t.stage {
      case Refer(_) =>
        if Creates(cfg, b, t) {
          CreatingEffect(cfg, b, t, io);
        }
      case MoveLatest(_) =>
        if Moves(b, t) {
          MovingEffect(cfg, b, t, io);
        }
      case _ => ReadsAsContender(cfg, b, t, io, o);
    }
  }

  lemma ReadsAsContender(cfg: Config, b: Bucket, t: PutTask, io: IO, o: ObjectRef)
    requires cfg.Valid() && !t.stage.PutEnded? && Contender(cfg, b, t, o) && t.request.objectRef == o
    requires !t.stage.Refer? && !t.stage.MoveLatest?
    requires PointersResolve(b) && RecordsNamed(b) && Shape(cfg, b, t)
    ensures var (b', t') := PutStep(cfg, b, t, io); Contender(cfg, b', t', o)
  {
    hide Find, StackOf, NewEnvelope, FromRequest;
    var (b', t') := PutStep(cfg, b, t, io);
    StepEffect(cfg, b, t, io);
    assert b'.latest == b.latest && b'.references == b.references;
    assert PointerOf(b', o) == PointerOf(b, o) && Winning(b', o) == Winning(b, o);
  }

  lemma StepKeepsWinner(cfg: Config, w: World, i: nat, io: IO, o: ObjectRef)
    requires cfg.Valid() && Linked(cfg, w) && Accounted(cfg, w) && OneWinner(cfg, w, o)
    requires i < |w.tasks| && !w.tasks[i].put.stage.PutEnded?
    ensures var w' := Apply(cfg, w, Step(i, io));
            OneWinner(cfg, w', o) && PointerStays(w.bucket, w'.bucket, o)
  {
    var t := w.tasks[i].put;
    var w' := Apply(cfg, w, Step(i, io));
    var t' := w'.tasks[i].put;
    assert w'.tasks == w.tasks[i := Putting(t')];
    assert Shape(cfg, w.bucket, t) && Contender(cfg, w.bucket, t, o);
    EventKeepsLinks(cfg, w, Step(i, io));
    StepKeepsPointer(cfg, w.bucket, t, io, o);
    StepEffect(cfg, w.bucket, t, io);
    if t.request.objectRef == o {
      StepsAsContender(cfg, w.bucket, t, io, o);
    }
    hide PutStep, Current, Linked, Accounted, Winning, Shape, InFlight, PointerStays;
    forall j | 0 <= j < |w'.tasks|
      ensures w'.tasks[j].Putting? && Contender(cfg, w'.bucket, w'.tasks[j].put, o)
    {
      if j != i {
        assert Contender(cfg, w.bucket, w.tasks[j].put, o);
        OthersStayContenders(cfg, w.bucket, w'.bucket, w.tasks[j].put, o);
      }
    }
    forall j: nat, l: nat | Committed(w', j, o) && Committed(w', l, o)
      ensures j == l
    {
      OnlyOneCommits(cfg, w, i, t', j, l, o);
    }
  }

  lemma OnlyOneCommits(cfg: Config, w: World, i: nat, t': PutTask, j: nat, l: nat, o: ObjectRef)
    requires OneWinner(cfg, w, o) && i < |w.tasks| && j < |w.tasks| && l < |w.tasks|
    requires t'.request == w.tasks[i].put.request && t'.moved ==
        (w.tasks[i].put.moved || Moves(w.bucket, w.tasks[i].put))
    requires Committed(w.(tasks := w.tasks[i := Putting(t')]), j, o)
        && Committed(w.(tasks := w.tasks[i := Putting(t')]), l, o)
    ensures j == l
  {
    hide Moves;
    assert j != i || Committed(w, i, o) ==> Committed(w, j, o);
    assert l != i || Committed(w, i, o) ==> Committed(w, l, o);
    if j != l {
      var other := if j == i then l else j;
      if !Committed(w, i, o) && (j == i || l == i) {
        assert Committed(w, other, o) && Contender(cfg, w.bucket, w.tasks[other].put, o);
        assert Contender(cfg, w.bucket, w.tasks[i].put, o);
        NoSecondMove(w.bucket, w.tasks[i].put, o);
      }
    }
  }

  lemma NoSecondMove(b: Bucket, t: PutTask, o: ObjectRef)
    requires t.request.objectRef == o && t.CreatesLatest() && PointerOf(b, o).Some?
    ensures !Moves(b, t)
  {
  }

  lemma EventKeepsWinner(cfg: Config, w: World, e: Event, o: ObjectRef)
    requires cfg.Valid() && Linked(cfg, w) && Accounted(cfg, w) && OneWinner(cfg, w, o)
    requires !e.BeginDelete? && OnlyCreates([e], o)
    ensures OneWinner(cfg, Apply(cfg, w, e), o) && PointerStays(w.bucket, Apply(cfg, w, e).bucket, o)
  {
    if e.Step? && e.index < |w.tasks| && !w.tasks[e.index].put.stage.PutEnded? {
      StepKeepsWinner(cfg, w, e.index, e.io, o);
    } else {
      var w' := Apply(cfg, w, e);
      assert w'.bucket == w.bucket;
      assert [e][0] == e;
      assert forall j: nat :: Committed(w', j, o) == Committed(w, j, o);
      hide Current, Winning, PointerOf;
      forall j | 0 <= j < |w'.tasks|
        ensures w'.tasks[j].Putting? && Contender(cfg, w'.bucket, w'.tasks[j].put, o)
      {
        if j < |w.tasks| {
          assert Contender(cfg, w.bucket, w.tasks[j].put, o);
        }
      }
    }
  }

  lemma {:induction false} RunKeepsWinner(cfg: Config, w: World, events: seq<Event>, o: ObjectRef)
    requires cfg.Valid() && Linked(cfg, w) && Accounted(cfg, w) && OneWinner(cfg, w, o)
    requires DeleteFree(events) && OnlyCreates(events, o)
    ensures OneWinner(cfg, Run(cfg, w, events), o) && PointerStays(w.bucket, Run(cfg, w, events).bucket, o)
    decreases |events|
  {
    if events != [] {
      assert [events[0]][0] == events[0];
      EventKeepsLinks(cfg, w, events[0]);
      EventKeepsAccount(cfg, w, events[0]);
      EventKeepsWinner(cfg, w, events[0], o);
      RunKeepsWinner(cfg, Apply(cfg, w, events[0]), events[1..], o);
    }
  }

  /**
   * For an object that every put only creates: in any interleaving at most one put publishes through
   * the write path, all successful puts answer with the metadata behind the pointer, and a pointer
   * that was set at any earlier moment of the run is still the same.
   */
  lemma {:induction false} CreateOnlyObjectHasOneWinner(cfg: Config, versioned: bool, earlier: seq<Event>,
                                                       later: seq<Event>, o: ObjectRef)
    requires cfg.Valid() && OnlyCreates(earlier + later, o)
    requires DeleteFree(earlier) && DeleteFree(later)
    ensures var middle := Run(cfg, Initial(versioned), earlier);
            var w := Run(cfg, Initial(versioned), earlier + later);
            && (PointerOf(middle.bucket, o).Some? ==> PointerOf(w.bucket, o) == PointerOf(middle.bucket, o))
            && (forall i: nat, j: nat | Committed(w, i, o) && Committed(w, j, o) :: i == j)
            && (forall i | 0 <= i < |w.tasks| ::
                  w.tasks[i].Putting?
                  && (w.tasks[i].put.request.objectRef == o && Answer(w.tasks[i].put).Some? ==>
                        Answer(w.tasks[i].put) == Winning(w.bucket, o)))
  {
    assert forall i | 0 <= i < |earlier| :: (earlier + later)[i] == earlier[i];
    assert forall i | 0 <= i < |later| :: (earlier + later)[|earlier| + i] == later[i];
    RunKeepsAccount(cfg, Initial(versioned), earlier);
    RunKeepsWinner(cfg, Initial(versioned), earlier, o);
    var middle := Run(cfg, Initial(versioned), earlier);
    RunKeepsWinner(cfg, middle, later, o);
    RunAppend(cfg, Initial(versioned), earlier, later);
    var w := Run(cfg, middle, later);
    assert forall i | 0 <= i < |w.tasks| :: Contender(cfg, w.bucket, w.tasks[i].put, o);
  }
}
