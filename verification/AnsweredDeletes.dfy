/**
 * What a delete has done when it answers (adapter.py, _delete), in any run of puts and deletes: the checks, the scan,
 * the removal of blob and record, the pointer, and the evidence.
 */
module AnsweredDeletes {
  import opened Wrappers
  import opened Integrity
  import opened Retention
  import opened Bucket
  import opened Publication
  import opened Deletion
  import opened Holding
  import opened Leftovers
  import opened Trails

  // ---------------------------------------------------------------- the way of a delete

  /** The record it found, whether the pointer led to that, the scan's answer, and the versions it headed. */
  datatype Way = Way(e: Envelope, wasLatest: bool, previous: Option<Digest>, id: nat, pointer: nat) {
    /** The record permits deletion, the pointer was looked at, the scan answered, the record was headed. */
    function ToHead(): seq<Act> {
      [Permitted(e)] + [Decided(wasLatest)] + [Scanned(previous)] + [HeadedRecord(id)]
    }

    /** Then the blob version that the record names goes, and then the record that was headed. */
    function ToDrop(): seq<Act> {
      ToHead() + [DroppedBlob(e.blobVersion)] + [DroppedRecord(id)]
    }

    /** Then a pointer that led to the version is rewritten to what the scan found, or else its current version goes. */
    function ToEvidence(): seq<Act> {
      if !wasLatest then ToDrop()
      else if previous.Some? then ToDrop() + [Repointed(previous.value)]
      else ToDrop() + [HeadedPointer(pointer)] + [DroppedPointer(pointer)]
    }
  }

  /** What a delete at this stage has done, if it has not failed. */
  function ActsTo(stage: DeleteStage, way: Way): seq<Act> {
    match stage
    case Lookup => []
    case LatestPointer => [Permitted(way.e)]
    case LatestReference(d) => [Permitted(way.e)] + [ReadPointer(d)]
    case Scan(_) => [Permitted(way.e)] + [Decided(way.wasLatest)]
    case HeadReference(_, _) => [Permitted(way.e)] + [Decided(way.wasLatest)] + [Scanned(way.previous)]
    case DropBlob(_, _, _) => way.ToHead()
    case DropReference(_, _, _) => way.ToHead() + [DroppedBlob(way.e.blobVersion)]
    case Repoint(_) => way.ToDrop()
    case HeadLatest => way.ToDrop()
    case DropLatest(_) => way.ToDrop() + [HeadedPointer(way.pointer)]
    case Evidence => way.ToEvidence()
    case DeleteEnded(Deleted) => way.ToEvidence() + [LeftEvidence]
    case DeleteEnded(DeleteFailed(ConditionalConflict)) => way.ToEvidence()
    case DeleteEnded(_) => []
  }

  /** The delete remembers what it met on its way. */
  predicate Remembers(t: DeleteTask, way: Way) {
    match t.stage
    case Lookup => true
    case LatestPointer => t.envelope == Some(way.e)
    case LatestReference(_) => t.envelope == Some(way.e)
    case Scan(was) => t.envelope == Some(way.e) && was == way.wasLatest
    case HeadReference(was, p) => t.envelope == Some(way.e) && was == way.wasLatest && p == way.previous
    case DropBlob(was, p, id) => t.envelope == Some(way.e) && was == way.wasLatest && p == way.previous && id == way.id
    case DropReference(was, p, id) =>
      t.envelope == Some(way.e) && was == way.wasLatest && p == way.previous && id == way.id
    case Repoint(to) => way.wasLatest && way.previous == Some(to)
    case HeadLatest => way.wasLatest && way.previous == None
    case DropLatest(version) => way.wasLatest && way.previous == None && version == way.pointer
    case _ => true
  }

  /** The act takes the delete one step on from what it has done. */
  predicate Continues(b: Bucket, t: DeleteTask, io: IO, way: Way, t': DeleteTask, way': Way, act: Act) {
    && Remembers(t', way') && DeleteActs(b, t, io, act)
    && ActsTo(t'.stage, way') ==
         (if t.stage.LatestReference? then [Permitted(way.e)] else ActsTo(t.stage, way)) + [act]
  }

  predicate Failed(t: DeleteTask) {
    t.stage.DeleteEnded? && t.stage.outcome != Deleted
  }

  /** A call that does not fail is the next act on the way, until the scan is due. */
  lemma CheckingAct(b: Bucket, t: DeleteTask, io: IO, way: Way) returns (way': Way, act: Act)
    requires (t.stage.Lookup? || t.stage.LatestPointer? || t.stage.LatestReference?) && Remembers(t, way)
    ensures var t' := DeleteStep(b, t, io).1; Failed(t') || Continues(b, t, io, way, t', way', act)
  {
    hide Releases, StackOf, Way.ToHead, Way.ToDrop, Way.ToEvidence;
    var t' := DeleteStep(b, t, io).1;
    way', act := way, LeftEvidence;
    if t'.stage.LatestPointer? {
      way', act := way.(e := t'.envelope.value), Permitted(t'.envelope.value);
    } else if t'.stage.LatestReference? {
      act := ReadPointer(t'.stage.digest);
    } else if t'.stage.Scan? {
      way', act := way.(wasLatest := t'.stage.wasLatest), Decided(t'.stage.wasLatest);
    }
  }

  /** The same, until the record is gone. */
  lemma DroppingAct(b: Bucket, t: DeleteTask, io: IO, way: Way) returns (way': Way, act: Act)
    requires t.stage.Scan? || t.stage.HeadReference? || t.stage.DropBlob? || t.stage.DropReference?
    requires Remembers(t, way)
    ensures var t' := DeleteStep(b, t, io).1; Failed(t') || Continues(b, t, io, way, t', way', act)
  {
    hide StackOf, Without;
    var t' := DeleteStep(b, t, io).1;
    way', act := way, LeftEvidence;
    match t.stage {
      case Scan(_) => way', act := way.(previous := io.previous), Scanned(io.previous);
      case HeadReference(_, _) =>
        if t'.stage.DropBlob? {
          way', act := way.(id := t'.stage.version), HeadedRecord(t'.stage.version);
        }
      case DropBlob(_, _, _) => act := DroppedBlob(way.e.blobVersion);
      case DropReference(_, _, _) => act := DroppedRecord(way.id);
    }
  }

  /** The same, until the evidence is there. */
  lemma ClosingAct(b: Bucket, t: DeleteTask, io: IO, way: Way) returns (way': Way, act: Act)
    requires t.stage.Repoint? || t.stage.HeadLatest? || t.stage.DropLatest? || t.stage.Evidence?
    requires Remembers(t, way)
    ensures var t' := DeleteStep(b, t, io).1; Failed(t') || Continues(b, t, io, way, t', way', act)
  {
    hide StackOf, Without;
    var t' := DeleteStep(b, t, io).1;
    way', act := way, LeftEvidence;
    match t.stage {
      case Repoint(to) => act := Repointed(to);
      case HeadLatest =>
        if t'.stage.DropLatest? {
          way', act := way.(pointer := t'.stage.version), HeadedPointer(t'.stage.version);
        }
      case DropLatest(version) => act := DroppedPointer(version);
      case Evidence =>
    }
  }

  lemma NextAct(b: Bucket, t: DeleteTask, io: IO, way: Way) returns (way': Way, act: Act)
    requires !t.stage.DeleteEnded? && Remembers(t, way)
    ensures var t' := DeleteStep(b, t, io).1; Failed(t') || Continues(b, t, io, way, t', way', act)
  {
    hide *;
    if t.stage.Lookup? || t.stage.LatestPointer? || t.stage.LatestReference? {
      way', act := CheckingAct(b, t, io, way);
    } else if t.stage.Scan? || t.stage.HeadReference? || t.stage.DropBlob? || t.stage.DropReference? {
      way', act := DroppingAct(b, t, io, way);
    } else {
      way', act := ClosingAct(b, t, io, way);
    }
  }

  // ---------------------------------------------------------------- in a run

  ghost predicate WentBy(cfg: Config, w: World, events: seq<Event>, i: nat, t: DeleteTask, way: Way)
    requires cfg.Valid()
  {
    Remembers(t, way) && Did(cfg, w, events, |events|, i, DeleteOf(t.key), ActsTo(t.stage, way))
  }

  ghost predicate OnAWay(cfg: Config, w: World, events: seq<Event>, i: nat)
    requires cfg.Valid()
  {
    var tasks := Run(cfg, w, events).tasks;
    i < |tasks| && tasks[i].Deleting? ==> exists way :: WentBy(cfg, w, events, i, tasks[i].delete, way)
  }

  /** A call of the delete takes it further on its way. */
  lemma {:induction false} CallGoesOn(cfg: Config, w: World, front: seq<Event>, i: nat, io: IO, way: Way)
      returns (way': Way)
    requires cfg.Valid()
    requires var w1 := Run(cfg, w, front);
             && i < |w1.tasks| && w1.tasks[i].Deleting? && !w1.tasks[i].delete.stage.DeleteEnded?
             && WentBy(cfg, w, front, i, w1.tasks[i].delete, way)
    ensures var w1 := Run(cfg, w, front);
            WentBy(cfg, w, front + [Step(i, io)], i, DeleteStep(w1.bucket, w1.tasks[i].delete, io).1, way')
  {
    hide DeleteStep, DeleteActs, Did;
    var w1, e := Run(cfg, w, front), Step(i, io);
    var t, of, events := w1.tasks[i].delete, DeleteOf(w1.tasks[i].delete.key), front + [e];
    var t' := DeleteStep(w1.bucket, t, io).1;
    DeleteStepKey(w1.bucket, t, io);
    var act;
    way', act := NextAct(w1.bucket, t, io, way);
    if Failed(t') {
      way' := way;
      FailedActs(w1.bucket, t, io, way);
      if t.stage.Evidence? {
        DidStays(cfg, w, front, e, |front|, |events|, i, of, ActsTo(t.stage, way));
      }
      NothingDone(cfg, w, events, |events|, i, of);
    } else {
      var acts := if t.stage.LatestReference? then [Permitted(way.e)] else ActsTo(t.stage, way);
      if t.stage.LatestReference? {
        DidBefore(cfg, w, front, |front|, i, of, [Permitted(way.e)], ReadPointer(t.stage.digest));
      }
      assert events[..|front|] == front && events[|front|] == e;
      assert ActsAt(cfg, w, events, |front|, i, of, act);
      DoesOneMore(cfg, w, front, e, i, of, acts, act);
    }
  }

  lemma FailedActs(b: Bucket, t: DeleteTask, io: IO, way: Way)
    requires !t.stage.DeleteEnded?
    ensures var t' := DeleteStep(b, t, io).1;
            Failed(t') ==>
              Remembers(t', way)
              && ActsTo(t'.stage, way) == if t.stage.Evidence? then ActsTo(t.stage, way) else []
  {
    hide Releases, StackOf, Without;
  }

  lemma {:induction false} EventGoesOn(cfg: Config, w: World, front: seq<Event>, e: Event, i: nat)
    requires cfg.Valid() && OnAWay(cfg, w, front, i)
    ensures OnAWay(cfg, w, front + [e], i)
  {
    hide PutStep, DeleteStep, Did, FromRequest;
    var w1, events := Run(cfg, w, front), front + [e];
    RunSnoc(cfg, w, front, e);
    if i < |w1.tasks| && w1.tasks[i].Deleting? {
      var t := w1.tasks[i].delete;
      var way :| WentBy(cfg, w, front, i, t, way);
      if e.Step? && e.index == i && !t.stage.DeleteEnded? {
        var way' := CallGoesOn(cfg, w, front, i, e.io, way);
      } else {
        DidStays(cfg, w, front, e, |front|, |events|, i, DeleteOf(t.key), ActsTo(t.stage, way));
        assert WentBy(cfg, w, events, i, t, way);
      }
    } else if e.BeginDelete? && i == |w1.tasks| {
      var way := BeginsAnywhere(cfg, w, events, i, e.key);
    }
  }

  lemma BeginsAnywhere(cfg: Config, w: World, events: seq<Event>, i: nat, k: Version) returns (way: Way)
    requires cfg.Valid()
    ensures WentBy(cfg, w, events, i, StartDelete(k), way)
  {
    way := *;
    NothingDone(cfg, w, events, |events|, i, DeleteOf(k));
  }

  lemma {:induction false} RunGoesOn(cfg: Config, w: World, events: seq<Event>, i: nat)
    requires cfg.Valid() && w.tasks == []
    ensures OnAWay(cfg, w, events, i)
    decreases |events|
  {
    if events != [] {
      hide OnAWay;
      var m := |events| - 1;
      assert events == events[..m] + [events[m]];
      RunGoesOn(cfg, w, events[..m], i);
      EventGoesOn(cfg, w, events[..m], events[m], i);
    }
  }

  // ---------------------------------------------------------------- what the answer means

  /** After `later` events there is evidence of the deletion, with this time. */
  ghost predicate EvidenceSays(cfg: Config, w: World, events: seq<Event>, later: nat, k: Version, time: int)
    requires cfg.Valid() && later <= |events|
  {
    var evidence := Current(Run(cfg, w, events[..later]).bucket.deletions, k);
    evidence.Some? && evidence.value.value == time
  }

  /** The evidence that a delete leaves in event `n`, with the time of that call, is there at every later moment. */
  lemma {:induction false} EvidenceIsThere(cfg: Config, w: World, events: seq<Event>, n: nat, i: nat, k: Version,
                                           later: nat)
    requires cfg.Valid() && ActsAt(cfg, w, events, n, i, DeleteOf(k), LeftEvidence) && n < later <= |events|
    ensures EvidenceSays(cfg, w, events, later, k, events[n].io.now)
  {
    var w1 := Run(cfg, w, events[..n]);
    assert events[..later] == events[..n] + events[n..later] && events[n..later][0] == events[n];
    RunAppend(cfg, w, events[..n], events[n..later]);
    DeleteActLeaves(w1.bucket, w1.tasks[i].delete, events[n].io, LeftEvidence);
    WrittenOnce(cfg, Apply(cfg, w1, events[n]), events[n..later][1..], k);
    hide Current, CallAt, DeleteStep;
  }

  /** No two events of a run leave the evidence of one version. */
  lemma {:induction false} OneLeavesEvidence(cfg: Config, w: World, events: seq<Event>, n: nat, i: nat, m: nat, j: nat,
                                             k: Version)
    requires cfg.Valid()
    requires ActsAt(cfg, w, events, n, i, DeleteOf(k), LeftEvidence)
    requires ActsAt(cfg, w, events, m, j, DeleteOf(k), LeftEvidence)
    ensures n == m && i == j
  {
    hide Current;
    if n < m {
      EvidenceIsThere(cfg, w, events, n, i, k, m);
    } else if m < n {
      EvidenceIsThere(cfg, w, events, m, j, k, n);
    }
  }

  predicate AnswersDeleted(w: World, i: nat, k: Version) {
    i < |w.tasks| && w.tasks[i].Deleting? && w.tasks[i].delete.key == k
    && w.tasks[i].delete.stage == DeleteEnded(Deleted)
  }

  lemma {:induction false} EvidenceOf(cfg: Config, w: World, events: seq<Event>, i: nat, k: Version)
      returns (way: Way, n: nat)
    requires cfg.Valid() && w.tasks == [] && AnswersDeleted(Run(cfg, w, events), i, k)
    ensures n < |events| && events[n].Step? && ActsAt(cfg, w, events, n, i, DeleteOf(k), LeftEvidence)
    ensures Did(cfg, w, events, n, i, DeleteOf(k), way.ToEvidence())
  {
    hide Did, DeleteActs, Way.ToEvidence;
    RunGoesOn(cfg, w, events, i);
    way :| WentBy(cfg, w, events, i, Run(cfg, w, events).tasks[i].delete, way);
    n := DidLast(cfg, w, events, |events|, i, DeleteOf(k), way.ToEvidence(), LeftEvidence);
  }

  /**
   * A delete that answers that it deleted has gone the whole way: it found a record that permitted deletion, looked
   * at the pointer, scanned, headed the record, dropped the blob version that the record names and then the record,
   * saw to a pointer that had led to the version, and left the evidence, where there was none. The evidence is there
   * from then on, and no other delete of the version in the run answers so.
   */
  lemma {:induction false} DeletedDidItsWork(cfg: Config, w: World, events: seq<Event>, i: nat, k: Version)
      returns (way: Way, n: nat)
    requires cfg.Valid() && w.tasks == [] && AnswersDeleted(Run(cfg, w, events), i, k)
    ensures n < |events| && events[n].Step? && ActsAt(cfg, w, events, n, i, DeleteOf(k), LeftEvidence)
    ensures Did(cfg, w, events, n, i, DeleteOf(k), way.ToEvidence())
    ensures forall later | n < later <= |events| :: EvidenceSays(cfg, w, events, later, k, events[n].io.now)
    ensures forall j: nat | AnswersDeleted(Run(cfg, w, events), j, k) :: j == i
  {
    hide Current, ActsAt, Did, Way.ToEvidence;
    way, n := EvidenceOf(cfg, w, events, i, k);
    forall later | n < later <= |events|
      ensures EvidenceSays(cfg, w, events, later, k, events[n].io.now)
    {
      EvidenceIsThere(cfg, w, events, n, i, k, later);
    }
    forall j: nat | AnswersDeleted(Run(cfg, w, events), j, k)
      ensures j == i
    {
      var way', m := EvidenceOf(cfg, w, events, j, k);
      OneLeavesEvidence(cfg, w, events, n, i, m, j, k);
    }
  }

  // ---------------------------------------------------------------- whose drop removed the record

  /** A record of the version with this id is stored. */
  ghost predicate HasRecord(b: Bucket, k: Version, id: nat) {
    exists e :: e in StackOf(b.references, k) && e.id == id
  }

  /** Some delete drops the record with this id in event `m`. */
  ghost predicate SomeDrop(cfg: Config, w: World, events: seq<Event>, m: nat, k: Version, id: nat)
    requires cfg.Valid()
  {
    exists j: nat :: ActsAt(cfg, w, events, m, j, DeleteOf(k), DroppedRecord(id))
  }

  lemma DropKeepsOthers(b: Bucket, j: Version, other: nat, k: Version, id: nat)
    requires HasRecord(b, k, id) && (j != k || other != id)
    ensures HasRecord(b.RemoveReference(j, other), k, id)
  {
    var e :| e in StackOf(b.references, k) && e.id == id;
    WithoutHas(StackOf(b.references, k), other, e);
    hide Without;
    assert e in StackOf(b.RemoveReference(j, other).references, k);
  }

  /** A stored record goes only by a delete that drops its id. */
  lemma StoredRecordStays(cfg: Config, w: World, e: Event, k: Version, id: nat)
    requires cfg.Valid() && HasRecord(w.bucket, k, id)
    requires e.Step? && e.index < |w.tasks| && w.tasks[e.index].Deleting? ==>
               var t := w.tasks[e.index].delete;
               !(t.key == k && t.stage.DropReference? && t.stage.version == id)
    ensures HasRecord(Apply(cfg, w, e).bucket, k, id)
  {
    hide PutStep, DeleteStep, Without;
    if e.Step? && e.index < |w.tasks| {
      match w.tasks[e.index] {
        case Putting(t) => if !t.stage.PutEnded? { PutKeepsRecord(cfg, w.bucket, t, e.io, k, id); }
        case Deleting(t) =>
          if !t.stage.DeleteEnded? {
            DeleteStepReferences(w.bucket, t, e.io);
            if t.stage.DropReference? {
              DropKeepsOthers(w.bucket, t.key, t.stage.version, k, id);
            }
          }
      }
    }
  }

  lemma PutKeepsRecord(cfg: Config, b: Bucket, t: PutTask, io: IO, k: Version, id: nat)
    requires cfg.Valid() && !t.stage.PutEnded? && HasRecord(b, k, id)
    ensures HasRecord(PutStep(cfg, b, t, io).0, k, id)
  {
    var e :| e in StackOf(b.references, k) && e.id == id;
    if !t.stage.Refer? {
      hide PutStep;
      PutStepKeepsReferences(cfg, b, t, io);
    } else {
      hide NewEnvelope, Find;
      assert e in StackOf(PutStep(cfg, b, t, io).0.references, k);
    }
  }

  lemma {:induction false} RecordLasts(cfg: Config, w: World, events: seq<Event>, h: nat, m: nat, k: Version, id: nat)
    requires cfg.Valid() && h <= m <= |events| && HasRecord(Run(cfg, w, events[..h]).bucket, k, id)
    requires forall x | h <= x < m :: !SomeDrop(cfg, w, events, x, k, id)
    ensures HasRecord(Run(cfg, w, events[..m]).bucket, k, id)
    decreases m
  {
    hide HasRecord, Apply;
    if h < m {
      RecordLasts(cfg, w, events, h, m - 1, k, id);
      var w1, e := Run(cfg, w, events[..m - 1]), events[m - 1];
      assert events[..m] == events[..m - 1] + [e];
      RunSnoc(cfg, w, events[..m - 1], e);
      assert !SomeDrop(cfg, w, events, m - 1, k, id);
      if e.Step? {
        assert !ActsAt(cfg, w, events, m - 1, e.index, DeleteOf(k), DroppedRecord(id));
      }
      StoredRecordStays(cfg, w1, e, k, id);
    }
  }

  /** The record that is headed is there, and that call drops nothing. */
  lemma {:induction false} FoundIsStored(cfg: Config, w: World, events: seq<Event>, h: nat, i: nat, k: Version, id: nat)
    requires cfg.Valid() && ActsAt(cfg, w, events, h, i, DeleteOf(k), HeadedRecord(id))
    ensures HasRecord(Run(cfg, w, events[..h]).bucket, k, id) && !SomeDrop(cfg, w, events, h, k, id)
  {
    var s := StackOf(Run(cfg, w, events[..h]).bucket.references, k);
    assert s[|s| - 1] in s;
  }

  /**
   * The drop removes the record that was found before, unless some delete of the version has dropped it in
   * between; afterwards it is gone.
   */
  lemma {:induction false} DropRemovesWhatWasFound(cfg: Config, w: World, events: seq<Event>, h: nat, m: nat, i: nat,
                                                   k: Version, id: nat)
    requires cfg.Valid() && h < m && ActsAt(cfg, w, events, h, i, DeleteOf(k), HeadedRecord(id))
    requires ActsAt(cfg, w, events, m, i, DeleteOf(k), DroppedRecord(id))
    ensures || HasRecord(Run(cfg, w, events[..m]).bucket, k, id)
            || exists x :: h < x < m && SomeDrop(cfg, w, events, x, k, id)
    ensures !HasRecord(Run(cfg, w, events[..m + 1]).bucket, k, id)
  {
    var w1 := Run(cfg, w, events[..m]);
    FoundIsStored(cfg, w, events, h, i, k, id);
    hide HasRecord, SomeDrop, ActsAt, DeleteStep;
    if forall x | h < x < m :: !SomeDrop(cfg, w, events, x, k, id) {
      RecordLasts(cfg, w, events, h, m, k, id);
    }
    assert events[..m + 1] == events[..m] + [events[m]];
    RunSnoc(cfg, w, events[..m], events[m]);
    DroppingOf(cfg, w, events, m, i, k, id);
    DropLeavesNone(w1.bucket, w1.tasks[i].delete, events[m].io);
  }

  lemma {:induction false} DroppingOf(cfg: Config, w: World, events: seq<Event>, m: nat, i: nat, k: Version, id: nat)
    requires cfg.Valid() && ActsAt(cfg, w, events, m, i, DeleteOf(k), DroppedRecord(id))
    ensures var tasks := Run(cfg, w, events[..m]).tasks;
            && i < |tasks| && tasks[i].Deleting? && tasks[i].delete.key == k
            && tasks[i].delete.stage.DropReference? && tasks[i].delete.stage.version == id
            && events[m].Step? && events[m].index == i
  {
  }

  lemma DropLeavesNone(b: Bucket, t: DeleteTask, io: IO)
    requires t.stage.DropReference?
    ensures !HasRecord(DeleteStep(b, t, io).0, t.key, t.stage.version)
  {
    var s, id := StackOf(b.references, t.key), t.stage.version;
    forall e
      ensures e in Without(s, id) <==> e in s && e.id != id
    {
      WithoutHas(s, id, e);
    }
    hide Without;
  }
}
