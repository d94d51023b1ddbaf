/**
 * Exactly when deletes endanger a latest pointer (adapter.py, _put, _delete and _newest_version): a delete that found
 * its version current goes on to rewrite the pointer to what a scan for the newest other record finds, or drops it
 * when the scan finds nothing.
 */
module StaleDeletes {
  import opened Wrappers
  import opened Retention
  import opened Integrity
  import opened Order
  import opened Bucket
  import opened Publication
  import opened Serial
  import opened Deletion
  import opened Accounting
  import opened Holding
  import opened Adapter
  import opened Pointers
  import Listing

  // ---------------------------------------------------------------- what a scan can still find

  /** Past its retention check of `k`, the delete can remove the record with this id without reading the pointer. */
  predicate CanRemove(t: DeleteTask, k: Version, id: nat, pointed: Version) {
    && t.key == k
    && match t.stage
       case LatestPointer => k != pointed && t.envelope.Some?
       case LatestReference(_) => t.envelope.Some?
       case Scan(_) => t.envelope.Some?
       case HeadReference(_, _) => t.envelope.Some?
       case DropBlob(_, _, version) => t.envelope.Some? && version == id
       case DropReference(_, _, version) => version == id
       case _ => false
  }

  ghost predicate CanRemoveAt(w: World, i: nat, k: Version, pointed: Version) {
    && i < |w.tasks| && w.tasks[i].Deleting? && Current(w.bucket.references, k).Some?
    && CanRemove(w.tasks[i].delete, k, Current(w.bucket.references, k).value.id, pointed)
  }

  /** A record that some delete can still remove while none of the pointed version reads the pointer. */
  ghost predicate Removable(w: World, k: Version, pointed: Version) {
    && Current(w.bucket.references, k).Some?
    && (|| (k != pointed && MayRelease(Current(w.bucket.references, k).value.value.retention))
        || exists i: nat :: CanRemoveAt(w, i, k, pointed))
  }

  /** Deletion is permitted at some time. */
  predicate MayRelease(record: Option<RetentionRecord>) {
    record.None? || record.value.retainUntil.Some?
  }

  /**
   * After some removals the scan of a delete of `k` can answer with something else than the pointed version: with
   * another record, or with none.
   */
  ghost predicate Misses(w: World, k: Version, pointed: Version) {
    exists gone: set<Digest>, previous: Option<Digest> :: MissesAfter(w, k, pointed, gone, previous)
  }

  ghost predicate MissesAfter(w: World, k: Version, pointed: Version, gone: set<Digest>, previous: Option<Digest>) {
    && k.digest !in gone && (forall d | d in gone :: Removable(w, Version(pointed.objectRef, d), pointed))
    && Listing.ScanGives(RecordsOf(w.bucket, pointed.objectRef) - gone, "", k.digest, previous)
    && previous != Some(pointed.digest)
  }

  /** The stale delete gets as far as the pointer, and then displaces it. */
  ghost predicate Succeeds(w: World, t: DeleteTask, pointer: Entry<Digest>) {
    var found := Current(w.bucket.references, t.key).Some?;
    var pointed := Version(t.key.objectRef, pointer.value);
    match t.stage
    case LatestReference(_) => t.envelope.Some? && found && (w.bucket.versioned || Misses(w, t.key, pointed))
    case Scan(_) => t.envelope.Some? && found && (w.bucket.versioned || Misses(w, t.key, pointed))
    case HeadReference(_, _) => t.envelope.Some? && found
    case DropBlob(_, _, _) => t.envelope.Some?
    case _ => true
  }

  ghost predicate Endangers(w: World, t: DeleteTask, o: ObjectRef, pointer: Entry<Digest>) {
    Stale(w.bucket, t, o, pointer) && Succeeds(w, t, pointer)
  }

  ghost predicate Unendangered(w: World, o: ObjectRef, pointer: Entry<Digest>) {
    forall i | 0 <= i < |w.tasks| && w.tasks[i].Deleting? :: !Endangers(w, w.tasks[i].delete, o, pointer)
  }

  // ---------------------------------------------------------------- runs

  /** Besides, no put of the object writes a record, and scans answer with what they find. */
  ghost predicate LeavesAlone(cfg: Config, w: World, e: Event, o: ObjectRef, pointer: Entry<Digest>) {
    && LeavesPointer(w, e, o, pointer)
    && (e.Step? && e.index < |w.tasks| ==>
          match w.tasks[e.index]
          case Putting(t) => t.request.objectRef == o ==> !Creates(cfg, w.bucket, t)
          case Deleting(t) => t.stage.Scan? ==> ScanFinds(w.bucket, t.key, e.io.previous))
  }

  ghost predicate RunLeavesAlone(cfg: Config, w: World, events: seq<Event>, o: ObjectRef, pointer: Entry<Digest>)
    requires cfg.Valid()
    decreases |events|
  {
    || events == []
    || (LeavesAlone(cfg, w, events[0], o, pointer)
        && RunLeavesAlone(cfg, Apply(cfg, w, events[0]), events[1..], o, pointer))
  }

  // ---------------------------------------------------------------- what keeps the pointer

  /**
   * From `w` to `w'` the object loses the records with digests in `lost`, each of which could be removed, gains
   * none, and no other becomes removable.
   */
  ghost predicate Shrinks(w: World, w': World, pointed: Version, lost: set<Digest>) {
    var o := pointed.objectRef;
    && w'.bucket.versioned == w.bucket.versioned
    && (forall d :: RecordAfter(w.bucket, w'.bucket, Version(o, d), lost))
    && (forall d | d in lost :: Removable(w, Version(o, d), pointed))
    && (forall d | Removable(w', Version(o, d), pointed) :: Removable(w, Version(o, d), pointed))
  }

  ghost predicate RecordAfter(b: Bucket, b': Bucket, k: Version, lost: set<Digest>) {
    Current(b'.references, k) == if k.digest in lost then None else Current(b.references, k)
  }

  lemma RecordsAfter(b: Bucket, b': Bucket, o: ObjectRef, lost: set<Digest>)
    requires forall d :: RecordAfter(b, b', Version(o, d), lost)
    ensures RecordsOf(b', o) == RecordsOf(b, o) - lost
  {
    var before, after := RecordsOf(b, o) - lost, RecordsOf(b', o);
    forall d
      ensures d in after <==> d in before
      ensures d in after ==> after[d] == before[d]
    {
      assert RecordAfter(b, b', Version(o, d), lost);
      RecordAtDigest(b, o, d);
      RecordAtDigest(b', o, d);
    }
  }

  lemma RecordAtDigest(b: Bucket, o: ObjectRef, d: Digest)
    ensures d in RecordsOf(b, o) <==> Current(b.references, Version(o, d)).Some?
    ensures d in RecordsOf(b, o) ==> RecordsOf(b, o)[d] == Current(b.references, Version(o, d)).value.value
  {
    var k := Version(o, d);
    if d in RecordsOf(b, o) {
      var j :| j in b.references && j.objectRef == o && Current(b.references, j).Some? && j.digest == d;
      assert j == k;
    }
    if Current(b.references, k).Some? {
      assert k in b.references && k.digest == d;
    }
  }

  /** What the scan could come to miss later it could miss before. */
  lemma MissedBefore(w: World, w': World, k: Version, pointed: Version, lost: set<Digest>)
    requires Shrinks(w, w', pointed, lost) && k.digest !in lost && Misses(w', k, pointed)
    ensures Misses(w, k, pointed)
  {
    hide Removable, Listing.ScanGives, RecordsOf;
    var gone: set<Digest>, previous: Option<Digest> :| MissesAfter(w', k, pointed, gone, previous);
    RecordsAfter(w.bucket, w'.bucket, pointed.objectRef, lost);
    var records := RecordsOf(w.bucket, pointed.objectRef);
    assert records - lost - gone == records - (lost + gone);
    assert MissesAfter(w, k, pointed, lost + gone, previous);
  }

  /** A delete that took no part. */
  lemma OthersStaySafe(w: World, w': World, t: DeleteTask, o: ObjectRef, pointer: Entry<Digest>, lost: set<Digest>)
    requires Shrinks(w, w', Version(o, pointer.value), lost) && !Endangers(w, t, o, pointer)
    ensures !Endangers(w', t, o, pointer)
  {
    hide Removable, Misses, Current;
    if Endangers(w', t, o, pointer) {
      assert RecordAfter(w.bucket, w'.bucket, Version(o, t.key.digest), lost) && Version(o, t.key.digest) == t.key;
      if (t.stage.LatestReference? || t.stage.Scan?) && Misses(w', t.key, Version(o, pointer.value)) {
        MissedBefore(w, w', t.key, Version(o, pointer.value), lost);
      }
    }
  }

  /** No record of the object changes, and whoever can remove one could before. */
  lemma NothingLost(w: World, w': World, pointed: Version)
    requires w'.bucket.versioned == w.bucket.versioned
    requires forall d :: RecordAfter(w.bucket, w'.bucket, Version(pointed.objectRef, d), {})
    requires forall i: nat, d | CanRemoveAt(w', i, Version(pointed.objectRef, d), pointed) ::
               Removable(w, Version(pointed.objectRef, d), pointed)
    ensures Shrinks(w, w', pointed, {})
  {
    hide CanRemoveAt, Current;
    forall d | Removable(w', Version(pointed.objectRef, d), pointed)
      ensures Removable(w, Version(pointed.objectRef, d), pointed)
    {
      assert RecordAfter(w.bucket, w'.bucket, Version(pointed.objectRef, d), {});
    }
  }

  lemma PutKeepsRecords(cfg: Config, b: Bucket, t: PutTask, io: IO, o: ObjectRef)
    requires cfg.Valid() && !t.stage.PutEnded? && (t.request.objectRef == o ==> !Creates(cfg, b, t))
    ensures var b' := PutStep(cfg, b, t, io).0;
            b'.versioned == b.versioned && forall d :: RecordAfter(b, b', Version(o, d), {})
  {
    hide PutStep, Creates;
    PutStepTouchesOwn(cfg, b, t, io);
    if t.request.objectRef == o {
      StepEffect(cfg, b, t, io);
    }
    hide StackOf;
  }

  /** The one call of a delete that takes a record. */
  predicate Takes(b: Bucket, t: DeleteTask) {
    && t.stage.DropReference? && Current(b.references, t.key).Some?
    && Current(b.references, t.key).value.id == t.stage.version
  }

  lemma DeleteTakesRecord(b: Bucket, t: DeleteTask, io: IO)
    requires !t.stage.DeleteEnded? && Identified(b)
    ensures var b' := DeleteStep(b, t, io).0;
            b'.versioned == b.versioned
            && forall k :: Current(b'.references, k) ==
                           if Takes(b, t) && k == t.key then None else Current(b.references, k)
  {
    hide DeleteStep, Identified, Bucket.RemoveReference, StackOf, Current;
    var b' := DeleteStep(b, t, io).0;
    DeleteStepReferences(b, t, io);
    DeleteStepTouchesOwn(b, t, io);
    hide OthersUntouched;
    forall k
      ensures Current(b'.references, k) == if Takes(b, t) && k == t.key then None else Current(b.references, k)
    {
      if t.stage.DropReference? {
        OneRecordGoes(b, t.key, t.stage.version);
        SameReferencesSameRecord(b.RemoveReference(t.key, t.stage.version), b', k);
      } else {
        SameReferencesSameRecord(b, b', k);
      }
    }
  }

  lemma SameReferencesSameRecord(b: Bucket, b': Bucket, k: Version)
    requires b'.references == b.references
    ensures Current(b'.references, k) == Current(b.references, k)
  {
  }

  lemma OneRecordGoes(b: Bucket, k: Version, id: nat)
    requires Identified(b)
    ensures var b' := b.RemoveReference(k, id);
            && (forall j | j != k :: Current(b'.references, j) == Current(b.references, j))
            && Current(b'.references, k) ==
               if Current(b.references, k).Some? && Current(b.references, k).value.id == id then None
               else Current(b.references, k)
  {
    var s := StackOf(b.references, k);
    assert |s| <= 1;
    if s != [] {
      assert Without(s[1..], id) == [] && s == [s[0]];
    }
  }

  /** A delete that can remove the record after a call could before, or has just been told that it may. */
  lemma StepCanRemove(b: Bucket, t: DeleteTask, io: IO, pointed: Version)
    requires !t.stage.DeleteEnded? && (t.key == pointed ==> !t.stage.LatestPointer?)
    requires Current(b.references, t.key).Some?
    requires CanRemove(DeleteStep(b, t, io).1, t.key, Current(b.references, t.key).value.id, pointed)
    ensures var entry := Current(b.references, t.key).value;
            CanRemove(t, t.key, entry.id, pointed) || (t.key != pointed && MayRelease(entry.value.retention))
  {
    hide StackOf;
  }

  lemma PutShrinks(cfg: Config, w: World, i: nat, io: IO, pointed: Version)
    requires cfg.Valid() && i < |w.tasks| && w.tasks[i].Putting? && !w.tasks[i].put.stage.PutEnded?
    requires w.tasks[i].put.request.objectRef == pointed.objectRef ==> !Creates(cfg, w.bucket, w.tasks[i].put)
    ensures Shrinks(w, Apply(cfg, w, Step(i, io)), pointed, {})
  {
    hide PutStep, Creates, Current;
    PutKeepsRecords(cfg, w.bucket, w.tasks[i].put, io, pointed.objectRef);
    var w' := Apply(cfg, w, Step(i, io));
    forall j: nat, d | CanRemoveAt(w', j, Version(pointed.objectRef, d), pointed)
      ensures Removable(w, Version(pointed.objectRef, d), pointed)
    {
      assert RecordAfter(w.bucket, w'.bucket, Version(pointed.objectRef, d), {});
      assert CanRemoveAt(w, j, Version(pointed.objectRef, d), pointed);
    }
    NothingLost(w, w', pointed);
  }

  lemma BeginShrinks(w: World, t: Task, pointed: Version)
    requires t.Deleting? ==> t.delete.stage.Lookup?
    ensures Shrinks(w, World(w.bucket, w.tasks + [t]), pointed, {})
  {
    hide Current;
    var w' := World(w.bucket, w.tasks + [t]);
    forall j: nat, d | CanRemoveAt(w', j, Version(pointed.objectRef, d), pointed)
      ensures Removable(w, Version(pointed.objectRef, d), pointed)
    {
      assert CanRemoveAt(w, j, Version(pointed.objectRef, d), pointed);
    }
    NothingLost(w, w', pointed);
  }

  /** What a call of a delete takes from the object. */
  function Lost(b: Bucket, t: DeleteTask, o: ObjectRef): set<Digest> {
    if Takes(b, t) && t.key.objectRef == o then {t.key.digest} else {}
  }

  lemma DeleteShrinks(cfg: Config, w: World, i: nat, io: IO, pointed: Version)
    requires cfg.Valid() && i < |w.tasks| && w.tasks[i].Deleting? && !w.tasks[i].delete.stage.DeleteEnded?
    requires Identified(w.bucket) && (w.tasks[i].delete.key == pointed ==> !w.tasks[i].delete.stage.LatestPointer?)
    ensures Shrinks(w, Apply(cfg, w, Step(i, io)), pointed, Lost(w.bucket, w.tasks[i].delete, pointed.objectRef))
  {
    hide DeleteStep, Current, Identified;
    var o, b, t := pointed.objectRef, w.bucket, w.tasks[i].delete;
    var w', lost := Apply(cfg, w, Step(i, io)), Lost(b, t, o);
    DeleteTakesRecord(b, t, io);
    DeleteStepKey(b, t, io);
    forall d
      ensures RecordAfter(b, w'.bucket, Version(o, d), lost)
    {
      assert Takes(b, t) && Version(o, d) == t.key <==> d in lost;
    }
    if lost != {} {
      assert CanRemoveAt(w, i, t.key, pointed) && Version(o, t.key.digest) == t.key;
    }
    forall d | Removable(w', Version(o, d), pointed)
      ensures Removable(w, Version(o, d), pointed)
    {
      DeleteRemovable(cfg, w, i, io, pointed, d);
    }
  }

  lemma DeleteRemovable(cfg: Config, w: World, i: nat, io: IO, pointed: Version, d: Digest)
    requires cfg.Valid() && i < |w.tasks| && w.tasks[i].Deleting? && !w.tasks[i].delete.stage.DeleteEnded?
    requires w.tasks[i].delete.key == pointed ==> !w.tasks[i].delete.stage.LatestPointer?
    requires var w' := Apply(cfg, w, Step(i, io));
             && Removable(w', Version(pointed.objectRef, d), pointed)
             && RecordAfter(w.bucket, w'.bucket, Version(pointed.objectRef, d),
                            Lost(w.bucket, w.tasks[i].delete, pointed.objectRef))
    ensures Removable(w, Version(pointed.objectRef, d), pointed)
  {
    hide DeleteStep, Current, Takes, CanRemove;
    var k, w' := Version(pointed.objectRef, d), Apply(cfg, w, Step(i, io));
    DeleteStepKey(w.bucket, w.tasks[i].delete, io);
    assert Current(w'.bucket.references, k) == Current(w.bucket.references, k);
    if j: nat :| CanRemoveAt(w', j, k, pointed) {
      if j == i {
        CanRemoveKey(w'.tasks[i].delete, k, Current(w.bucket.references, k).value.id, pointed);
        StepCanRemove(w.bucket, w.tasks[i].delete, io, pointed);
        if CanRemove(w.tasks[i].delete, k, Current(w.bucket.references, k).value.id, pointed) {
          assert CanRemoveAt(w, i, k, pointed);
        }
      } else {
        assert CanRemoveAt(w, j, k, pointed);
      }
    }
  }

  lemma CanRemoveKey(t: DeleteTask, k: Version, id: nat, pointed: Version)
    requires CanRemove(t, k, id, pointed)
    ensures t.key == k
  {
  }

  /** An honest scan answers with the pointed version when nothing else can come of it. */
  lemma HonestScan(w: World, k: Version, pointed: Version, previous: Option<Digest>)
    requires k.objectRef == pointed.objectRef && ScanFinds(w.bucket, k, previous) && !Misses(w, k, pointed)
    ensures previous == Some(pointed.digest)
  {
    hide Removable, RecordsOf, Listing.ScanGives;
    assert RecordsOf(w.bucket, k.objectRef) - {} == RecordsOf(w.bucket, k.objectRef);
    assert !MissesAfter(w, k, pointed, {}, previous);
  }

  /** A stale delete that cannot succeed does nothing to the bucket. */
  lemma StuckOnlyReads(b: Bucket, t: DeleteTask, io: IO)
    requires t.stage.LatestReference? || t.stage.Scan? || t.stage.HeadReference?
             || (t.stage.DropBlob? && t.envelope.None?)
    ensures var (b', t') := DeleteStep(b, t, io);
            && b' == b && t'.key == t.key && t'.envelope == t.envelope
            && (t'.stage.LatestReference? || t'.stage.Scan? || t'.stage.HeadReference? || t'.stage.DropBlob?
                || t'.stage.DeleteEnded?)
            && (t.stage.LatestReference? ==> t'.stage.Scan? || t'.stage.DeleteEnded?)
            && (t.stage.Scan? ==> t'.stage == HeadReference(t.stage.wasLatest, io.previous))
            && (t.stage.HeadReference? ==> (t'.stage.DropBlob? && Current(b.references, t.key).Some?)
                                           || t'.stage.DeleteEnded?)
            && (t.stage.DropBlob? ==> t'.stage.DeleteEnded?)
  {
    hide Current, ReadExact;
  }

  lemma StuckStaysStuck(cfg: Config, w: World, i: nat, io: IO, o: ObjectRef, pointer: Entry<Digest>)
    requires cfg.Valid() && i < |w.tasks| && w.tasks[i].Deleting? && !w.tasks[i].delete.stage.DeleteEnded?
    requires var t := w.tasks[i].delete;
             && Stale(w.bucket, t, o, pointer) && !Succeeds(w, t, pointer)
             && (t.stage.Scan? ==> ScanFinds(w.bucket, t.key, io.previous))
    requires Shrinks(w, Apply(cfg, w, Step(i, io)), Version(o, pointer.value), {})
    ensures var w' := Apply(cfg, w, Step(i, io));
            w'.bucket == w.bucket && !Endangers(w', w'.tasks[i].delete, o, pointer)
  {
    var t, pointed := w.tasks[i].delete, Version(o, pointer.value);
    StuckOnlyReads(w.bucket, t, io);
    hide DeleteStep, Misses, ScanFinds, Shrinks, Current;
    var w' := Apply(cfg, w, Step(i, io));
    var t' := w'.tasks[i].delete;
    if t.stage.Scan? && !Misses(w, t.key, pointed) {
      HonestScan(w, t.key, pointed, io.previous);
    }
    if t'.stage.Scan? && Misses(w', t.key, pointed) {
      MissedBefore(w, w', t.key, pointed, {});
    }
  }

  lemma DeleteStepStaysSafe(cfg: Config, w: World, i: nat, io: IO, o: ObjectRef, pointer: Entry<Digest>)
    requires cfg.Valid() && i < |w.tasks| && w.tasks[i].Deleting? && !w.tasks[i].delete.stage.DeleteEnded?
    requires Leads(w.bucket, o, pointer) && PointerIds(w.bucket) && Identified(w.bucket)
    requires !Endangers(w, w.tasks[i].delete, o, pointer) && LeavesAlone(cfg, w, Step(i, io), o, pointer)
    ensures var w' := Apply(cfg, w, Step(i, io));
            && Leads(w'.bucket, o, pointer) && !Endangers(w', w'.tasks[i].delete, o, pointer)
            && Shrinks(w, w', Version(o, pointer.value), Lost(w.bucket, w.tasks[i].delete, o))
  {
    var t, pointed := w.tasks[i].delete, Version(o, pointer.value);
    hide DeleteStep, Misses, ScanFinds, Shrinks, Leads, PointerIds, Identified, Stale;
    DeleteShrinks(cfg, w, i, io, pointed);
    if Stale(w.bucket, t, o, pointer) {
      StuckTakesNothing(w, t, o, pointer);
      StuckStaysStuck(cfg, w, i, io, o, pointer);
    } else {
      DeleteStepKeepsPointer(w.bucket, t, io, o, pointer);
    }
  }

  lemma StuckTakesNothing(w: World, t: DeleteTask, o: ObjectRef, pointer: Entry<Digest>)
    requires Stale(w.bucket, t, o, pointer) && !Succeeds(w, t, pointer)
    ensures Lost(w.bucket, t, o) == {}
  {
  }

  lemma TasksStaySafe(w: World, w': World, i: nat, o: ObjectRef, pointer: Entry<Digest>, lost: set<Digest>)
    requires Unendangered(w, o, pointer) && Shrinks(w, w', Version(o, pointer.value), lost)
    requires |w.tasks| <= |w'.tasks| && forall j | 0 <= j < |w.tasks| && j != i :: w'.tasks[j] == w.tasks[j]
    requires forall j | 0 <= j < |w'.tasks| && (j == i || j >= |w.tasks|) && w'.tasks[j].Deleting? ::
               !Endangers(w', w'.tasks[j].delete, o, pointer)
    ensures Unendangered(w', o, pointer)
  {
    hide Endangers, Shrinks;
    forall j | 0 <= j < |w'.tasks| && w'.tasks[j].Deleting?
      ensures !Endangers(w', w'.tasks[j].delete, o, pointer)
    {
      if j < |w.tasks| && j != i {
        OthersStaySafe(w, w', w.tasks[j].delete, o, pointer, lost);
      }
    }
  }

  lemma EventStaysSafe(cfg: Config, w: World, e: Event, o: ObjectRef, pointer: Entry<Digest>)
    requires cfg.Valid() && Leads(w.bucket, o, pointer) && PointerIds(w.bucket) && Identified(w.bucket)
    requires Unendangered(w, o, pointer) && LeavesAlone(cfg, w, e, o, pointer)
    ensures Leads(Apply(cfg, w, e).bucket, o, pointer) && Unendangered(Apply(cfg, w, e), o, pointer)
  {
    hide PutStep, DeleteStep, Leads, PointerIds, Identified, Endangers, Shrinks, Creates, Moves, ScanFinds, Lost;
    hide FromRequest;
    var w', pointed := Apply(cfg, w, e), Version(o, pointer.value);
    match e {
      case BeginPut(request) => BeginShrinks(w, Putting(StartPut(cfg, request)), pointed);
        TasksStaySafe(w, w', |w.tasks|, o, pointer, {});
      case BeginDelete(key) => BeginShrinks(w, Deleting(StartDelete(key)), pointed);
        BeginningIsSafe(w', key, o, pointer);
        TasksStaySafe(w, w', |w.tasks|, o, pointer, {});
      case Step(i, io) =>
        if i < |w.tasks| {
          match w.tasks[i] {
            case Putting(t) =>
              if !t.stage.PutEnded? {
                PutStepKeepsPointer(cfg, w.bucket, t, io, o, pointer);
                PutShrinks(cfg, w, i, io, pointed);
                TasksStaySafe(w, w', i, o, pointer, {});
              }
            case Deleting(t) =>
              if !t.stage.DeleteEnded? {
                DeleteStepStaysSafe(cfg, w, i, io, o, pointer);
                TasksStaySafe(w, w', i, o, pointer, Lost(w.bucket, t, o));
              }
          }
        }
    }
  }

  lemma BeginningIsSafe(w: World, k: Version, o: ObjectRef, pointer: Entry<Digest>)
    ensures !Endangers(w, StartDelete(k), o, pointer)
  {
  }

  lemma EventIdentified(cfg: Config, w: World, e: Event)
    requires cfg.Valid() && Identified(w.bucket)
    ensures Identified(Apply(cfg, w, e).bucket)
  {
    RunIdentified(cfg, w, [e]);
    assert Run(cfg, w, [e]) == Run(cfg, Apply(cfg, w, e), []);
    hide Identified, Apply;
  }

  /**
   * A pointer that no delete endangers stays current until a put of the object publishes or a delete of its
   * version reads it, as long as scans are honest.
   */
  lemma {:induction false} UnendangeredPointerStays(cfg: Config, w: World, events: seq<Event>, o: ObjectRef,
                                                    pointer: Entry<Digest>)
    requires cfg.Valid() && Leads(w.bucket, o, pointer) && PointerIds(w.bucket) && Identified(w.bucket)
    requires Unendangered(w, o, pointer) && RunLeavesAlone(cfg, w, events, o, pointer)
    ensures Leads(Run(cfg, w, events).bucket, o, pointer)
    decreases |events|
  {
    hide Leads, PointerIds, Identified, Unendangered, LeavesAlone, Apply;
    if events != [] {
      EventStaysSafe(cfg, w, events[0], o, pointer);
      EventKeepsPointerIds(cfg, w, events[0]);
      EventIdentified(cfg, w, events[0]);
      UnendangeredPointerStays(cfg, Apply(cfg, w, events[0]), events[1..], o, pointer);
    }
  }

  // ---------------------------------------------------------------- what can still displace it

  lemma {:induction false} LeavesAloneAppend(cfg: Config, w: World, events: seq<Event>, more: seq<Event>, o: ObjectRef,
                                             pointer: Entry<Digest>)
    requires cfg.Valid() && RunLeavesAlone(cfg, w, events, o, pointer)
    requires RunLeavesAlone(cfg, Run(cfg, w, events), more, o, pointer)
    ensures RunLeavesAlone(cfg, w, events + more, o, pointer)
    ensures Run(cfg, w, events + more) == Run(cfg, Run(cfg, w, events), more)
    decreases |events|
  {
    hide Apply, LeavesAlone;
    RunAppend(cfg, w, events, more);
    if events == [] {
      assert [] + more == more;
    } else {
      assert (events + more)[1..] == events[1..] + more;
      LeavesAloneAppend(cfg, Apply(cfg, w, events[0]), events[1..], more, o, pointer);
    }
  }

  lemma OneEvent(cfg: Config, w: World, e: Event, o: ObjectRef, pointer: Entry<Digest>)
    requires cfg.Valid() && LeavesAlone(cfg, w, e, o, pointer)
    ensures RunLeavesAlone(cfg, w, [e], o, pointer) && Run(cfg, w, [e]) == Apply(cfg, w, e)
  {
    hide Apply, LeavesAlone;
    assert [e][1..] == [] && Run(cfg, Apply(cfg, w, e), []) == Apply(cfg, w, e);
  }

  /** The records of these versions are gone; only deletes of them have gone on, and the pointers are as they were. */
  ghost predicate Removed(w: World, w': World, o: ObjectRef, gone: set<Digest>) {
    && w'.bucket.versioned == w.bucket.versioned && w'.bucket.latest == w.bucket.latest
    && (forall d :: RecordAfter(w.bucket, w'.bucket, Version(o, d), gone))
    && |w.tasks| <= |w'.tasks|
    && (forall i | 0 <= i < |w.tasks| ::
          w'.tasks[i] == w.tasks[i] || (w.tasks[i].Deleting? && w.tasks[i].delete.key.digest in gone))
  }

  lemma RemovedTransitive(w: World, w1: World, w2: World, o: ObjectRef, a: set<Digest>, c: set<Digest>)
    requires Removed(w, w1, o, a) && Removed(w1, w2, o, c)
    ensures Removed(w, w2, o, a + c)
  {
    hide Current;
    forall d
      ensures RecordAfter(w.bucket, w2.bucket, Version(o, d), a + c)
    {
      assert RecordAfter(w.bucket, w1.bucket, Version(o, d), a) && RecordAfter(w1.bucket, w2.bucket, Version(o, d), c);
    }
  }

  lemma LookingGoesOn(b: Bucket, t: DeleteTask, io: IO, id: nat, pointed: Version)
    requires CanRemove(t, t.key, id, pointed) && Identified(b) && Looks(t.stage)
    requires Current(b.references, t.key).Some? && Current(b.references, t.key).value.id == id
    ensures CanRemove(DeleteStep(b, t, io).1, t.key, id, pointed)
  {
    hide StackOf, Releases;
  }

  lemma DroppingGoesOn(b: Bucket, t: DeleteTask, io: IO, id: nat, pointed: Version)
    requires CanRemove(t, t.key, id, pointed) && !Looks(t.stage)
    requires Current(b.references, t.key).Some? && Current(b.references, t.key).value.id == id
    ensures DeleteStep(b, t, io).0.latest == b.latest
    ensures Takes(b, t) || CanRemove(DeleteStep(b, t, io).1, t.key, id, pointed)
  {
    hide StackOf, Without, Current;
  }

  /** A delete on its way to the record takes one step on, or takes it. */
  lemma TakingStep(b: Bucket, t: DeleteTask, io: IO, id: nat, pointed: Version)
    requires CanRemove(t, t.key, id, pointed) && Identified(b)
    requires Current(b.references, t.key).Some? && Current(b.references, t.key).value.id == id
    ensures !t.stage.DeleteEnded? && DeleteRank(DeleteStep(b, t, io).1.stage) < DeleteRank(t.stage)
    ensures var (b', t') := DeleteStep(b, t, io);
            && b'.latest == b.latest && t'.key == t.key
            && (Takes(b, t) || CanRemove(t', t.key, id, pointed))
  {
    hide DeleteStep, Identified, Current, DeleteRank, Takes;
    DeleteStepKey(b, t, io);
    DeleteDescends(b, t, io);
    if Looks(t.stage) {
      LookingReads(b, t, io);
      LookingGoesOn(b, t, io, id, pointed);
    } else {
      DroppingGoesOn(b, t, io, id, pointed);
    }
  }

  /** The step that a delete on its way to the record takes next, with an honest answer if it is the scan. */
  lemma TakingEvent(cfg: Config, w: World, i: nat, k: Version, o: ObjectRef, pointer: Entry<Digest>) returns (io: IO)
    requires cfg.Valid() && Identified(w.bucket) && k.objectRef == o
    requires CanRemoveAt(w, i, k, Version(o, pointer.value))
    ensures LeavesAlone(cfg, w, Step(i, io), o, pointer)
    ensures var b, t, w1 := w.bucket, w.tasks[i].delete, Apply(cfg, w, Step(i, io));
            && t.key == k && Identified(w1.bucket) && w1.bucket.versioned == b.versioned && w1.bucket.latest == b.latest
            && |w1.tasks| == |w.tasks| && (forall j | 0 <= j < |w.tasks| && j != i :: w1.tasks[j] == w.tasks[j])
            && (forall j :: Current(w1.bucket.references, j) ==
                  if Takes(b, t) && j == k then None else Current(b.references, j))
            && (Takes(b, t) || CanRemoveAt(w1, i, k, Version(o, pointer.value)))
            && w1.tasks[i].Deleting? && DeleteRank(w1.tasks[i].delete.stage) < DeleteRank(t.stage)
  {
    hide DeleteStep, Identified, Takes, RecordsOf, Listing.ScanGives, Current, DeleteRank;
    var b, t, pointed := w.bucket, w.tasks[i].delete, Version(o, pointer.value);
    var previous := Listing.AnswerExists(RecordsOf(b, t.key.objectRef), "", t.key.digest);
    io := IO(0, [], previous);
    TakingStep(b, t, io, Current(b.references, k).value.id, pointed);
    DeleteTakesRecord(b, t, io);
    EventIdentified(cfg, w, Step(i, io));
  }

  lemma TakeRecord(cfg: Config, w: World, i: nat, k: Version, o: ObjectRef, pointer: Entry<Digest>)
      returns (events: seq<Event>)
    requires cfg.Valid() && Identified(w.bucket) && k.objectRef == o
    requires CanRemoveAt(w, i, k, Version(o, pointer.value))
    ensures RunLeavesAlone(cfg, w, events, o, pointer) && Removed(w, Run(cfg, w, events), o, {k.digest})
    decreases DeleteRank(w.tasks[i].delete.stage)
  {
    hide Identified, Takes, CanRemove, Current, Apply, Run, RunLeavesAlone, LeavesAlone, Removed, DeleteRank;
    var t := w.tasks[i].delete;
    var io := TakingEvent(cfg, w, i, k, o, pointer);
    var w1 := Apply(cfg, w, Step(i, io));
    OneEvent(cfg, w, Step(i, io), o, pointer);
    events := [Step(i, io)];
    if Takes(w.bucket, t) {
      TakenIsRemoved(w, w1, i, o, k);
    } else {
      var rest := TakeRecord(cfg, w1, i, k, o, pointer);
      LeavesAloneAppend(cfg, w, events, rest, o, pointer);
      events := events + rest;
      SteppedIsRemoved(w, w1, Run(cfg, w1, rest), i, o, k);
    }
  }

  lemma TakenIsRemoved(w: World, w': World, i: nat, o: ObjectRef, k: Version)
    requires i < |w.tasks| && w.tasks[i].Deleting? && w.tasks[i].delete.key == k && k.objectRef == o
    requires |w'.tasks| == |w.tasks| && forall j | 0 <= j < |w.tasks| && j != i :: w'.tasks[j] == w.tasks[j]
    requires w'.bucket.versioned == w.bucket.versioned && w'.bucket.latest == w.bucket.latest
    requires forall j :: Current(w'.bucket.references, j) == if j == k then None else Current(w.bucket.references, j)
    ensures Removed(w, w', o, {k.digest})
  {
    hide Current;
    forall d
      ensures RecordAfter(w.bucket, w'.bucket, Version(o, d), {k.digest})
    {
      assert Version(o, d) == k <==> d == k.digest;
    }
  }

  lemma SteppedIsRemoved(w: World, w1: World, w2: World, i: nat, o: ObjectRef, k: Version)
    requires i < |w.tasks| && w.tasks[i].Deleting? && w.tasks[i].delete.key == k && k.objectRef == o
    requires |w1.tasks| == |w.tasks| && forall j | 0 <= j < |w.tasks| && j != i :: w1.tasks[j] == w.tasks[j]
    requires w1.bucket.versioned == w.bucket.versioned && w1.bucket.latest == w.bucket.latest
    requires forall j :: Current(w1.bucket.references, j) == Current(w.bucket.references, j)
    requires Removed(w1, w2, o, {k.digest})
    ensures Removed(w, w2, o, {k.digest})
  {
    hide Current;
    forall d
      ensures RecordAfter(w.bucket, w2.bucket, Version(o, d), {k.digest})
    {
      assert RecordAfter(w1.bucket, w2.bucket, Version(o, d), {k.digest});
    }
  }

  lemma ReleasingTime(record: Option<RetentionRecord>) returns (now: int)
    requires MayRelease(record)
    ensures Releases(record, now)
  {
    now := if record.Some? then record.value.retainUntil.value else 0;
  }

  /** A new delete of a record that may be released passes its check. */
  lemma NewDeletePasses(cfg: Config, w: World, k: Version, pointed: Version) returns (now: int)
    requires cfg.Valid() && Identified(w.bucket) && Current(w.bucket.references, k).Some? && k != pointed
    requires MayRelease(Current(w.bucket.references, k).value.value.retention)
    ensures var n := |w.tasks|;
            var w1 := Apply(cfg, w, BeginDelete(k));
            var w2 := Apply(cfg, w1, Step(n, IO(now, [], None)));
            && w1 == World(w.bucket, w.tasks + [Deleting(StartDelete(k))])
            && w2.bucket == w.bucket && |w2.tasks| == n + 1 && w2.tasks[..n] == w.tasks
            && CanRemoveAt(w2, n, k, pointed)
  {
    now := ReleasingTime(Current(w.bucket.references, k).value.value.retention);
    LookupPasses(w.bucket, k, IO(now, [], None));
    hide DeleteStep, Identified, Current;
    var w1 := Apply(cfg, w, BeginDelete(k));
    assert w1.tasks[|w.tasks|] == Deleting(StartDelete(k));
  }

  lemma LookupPasses(b: Bucket, k: Version, io: IO)
    requires Identified(b) && Current(b.references, k).Some?
    requires Releases(Current(b.references, k).value.value.retention, io.now)
    ensures var (b', t') := DeleteStep(b, StartDelete(k), io);
            b' == b && t'.key == k && t'.stage.LatestPointer? && t'.envelope.Some?
  {
  }

  lemma RemoveOne(cfg: Config, w: World, k: Version, o: ObjectRef, pointer: Entry<Digest>) returns (events: seq<Event>)
    requires cfg.Valid() && Identified(w.bucket) && k.objectRef == o
    requires Removable(w, k, Version(o, pointer.value))
    ensures RunLeavesAlone(cfg, w, events, o, pointer) && Removed(w, Run(cfg, w, events), o, {k.digest})
  {
    hide Identified, CanRemoveAt, Current, MayRelease, Removed;
    var pointed := Version(o, pointer.value);
    if i: nat :| CanRemoveAt(w, i, k, pointed) {
      events := TakeRecord(cfg, w, i, k, o, pointer);
    } else {
      var now := NewDeletePasses(cfg, w, k, pointed);
      var n, e := |w.tasks|, BeginDelete(k);
      var w1 := Apply(cfg, w, e);
      var w2 := Apply(cfg, w1, Step(n, IO(now, [], None)));
      assert LeavesAlone(cfg, w, e, o, pointer);
      OneEvent(cfg, w, e, o, pointer);
      assert w1.tasks[n] == Deleting(StartDelete(k)) && LeavesAlone(cfg, w1, Step(n, IO(now, [], None)), o, pointer);
      OneEvent(cfg, w1, Step(n, IO(now, [], None)), o, pointer);
      hide Apply, LeavesAlone;
      LeavesAloneAppend(cfg, w, [e], [Step(n, IO(now, [], None))], o, pointer);
      var rest := TakeRecord(cfg, w2, n, k, o, pointer);
      LeavesAloneAppend(cfg, w, [e] + [Step(n, IO(now, [], None))], rest, o, pointer);
      events := [e] + [Step(n, IO(now, [], None))] + rest;
      FewerTasks(w, w2, Run(cfg, w2, rest), o, k);
    }
  }

  lemma FewerTasks(w: World, w2: World, w3: World, o: ObjectRef, k: Version)
    requires w2.bucket == w.bucket && |w2.tasks| == |w.tasks| + 1 && w2.tasks[..|w.tasks|] == w.tasks
    requires Removed(w2, w3, o, {k.digest})
    ensures Removed(w, w3, o, {k.digest})
  {
    hide RecordAfter;
    forall i | 0 <= i < |w.tasks|
      ensures w3.tasks[i] == w.tasks[i] || (w.tasks[i].Deleting? && w.tasks[i].delete.key.digest in {k.digest})
    {
      assert w2.tasks[i] == w2.tasks[..|w.tasks|][i];
    }
  }

  /** What could be removed beside a record that is gone can still be. */
  lemma StillRemovable(w: World, w': World, o: ObjectRef, gone: set<Digest>, d: Digest, pointed: Version)
    requires Removed(w, w', o, gone) && d !in gone && Removable(w, Version(o, d), pointed)
    ensures Removable(w', Version(o, d), pointed)
  {
    hide Current, MayRelease;
    var k := Version(o, d);
    assert RecordAfter(w.bucket, w'.bucket, k, gone);
    if i: nat :| CanRemoveAt(w, i, k, pointed) {
      assert CanRemoveAt(w', i, k, pointed);
    }
  }

  lemma RemoveAll(cfg: Config, w: World, gone: set<Digest>, o: ObjectRef, pointer: Entry<Digest>)
      returns (events: seq<Event>)
    requires cfg.Valid() && Identified(w.bucket)
    requires forall d | d in gone :: Removable(w, Version(o, d), Version(o, pointer.value))
    ensures RunLeavesAlone(cfg, w, events, o, pointer) && Removed(w, Run(cfg, w, events), o, gone)
    decreases |gone|
  {
    hide Identified, Removable, Run;
    if gone == {} {
      events := [];
      NothingRun(cfg, w, o, pointer);
    } else {
      hide Removed;
      var d :| d in gone;
      events := RemoveOne(cfg, w, Version(o, d), o, pointer);
      var w1 := Run(cfg, w, events);
      RunIdentified(cfg, w, events);
      forall e | e in gone - {d}
        ensures Removable(w1, Version(o, e), Version(o, pointer.value))
      {
        StillRemovable(w, w1, o, {d}, e, Version(o, pointer.value));
      }
      var rest := RemoveAll(cfg, w1, gone - {d}, o, pointer);
      LeavesAloneAppend(cfg, w, events, rest, o, pointer);
      RemovedTransitive(w, w1, Run(cfg, w1, rest), o, {d}, gone - {d});
      assert {d} + (gone - {d}) == gone;
      events := events + rest;
    }
  }

  lemma NothingRun(cfg: Config, w: World, o: ObjectRef, pointer: Entry<Digest>)
    requires cfg.Valid()
    ensures Run(cfg, w, []) == w && RunLeavesAlone(cfg, w, [], o, pointer)
  {
  }

  /** Stale, past its scan, and on its way to the pointer. */
  ghost predicate Late(b: Bucket, t: DeleteTask, o: ObjectRef, pointer: Entry<Digest>) {
    && Stale(b, t, o, pointer) && !t.stage.LatestReference? && !t.stage.Scan?
    && (t.stage.HeadReference? ==> t.envelope.Some? && Current(b.references, t.key).Some?)
    && (t.stage.DropBlob? ==> t.envelope.Some?)
  }

  lemma LateStep(b: Bucket, t: DeleteTask, io: IO, o: ObjectRef, pointer: Entry<Digest>)
    requires Late(b, t, o, pointer) && Leads(b, o, pointer) && PointerIds(b)
    ensures !t.stage.DeleteEnded? && !t.stage.LatestPointer? && !t.stage.Lookup? && !t.stage.Scan?
    ensures var (b', t') := DeleteStep(b, t, io); !Leads(b', o, pointer) || Late(b', t', o, pointer)
  {
    if t.stage.Repoint? || t.stage.DropLatest? {
      PointingDisplaces(b, t, io, o, pointer);
      hide DeleteStep, Late;
    } else {
      hide PointerIds, StackOf, Without;
    }
  }

  lemma PointingDisplaces(b: Bucket, t: DeleteTask, io: IO, o: ObjectRef, pointer: Entry<Digest>)
    requires (t.stage.Repoint? || t.stage.DropLatest?) && Stale(b, t, o, pointer) && Leads(b, o, pointer)
    requires PointerIds(b)
    ensures !Leads(DeleteStep(b, t, io).0, o, pointer)
  {
    var s := StackOf(b.latest, o);
    assert s[|s| - 1] in s;
    WithoutRemoves(s, pointer.id);
    hide Without;
  }

  ghost predicate LateAt(w: World, i: nat, o: ObjectRef, pointer: Entry<Digest>) {
    i < |w.tasks| && w.tasks[i].Deleting? && Late(w.bucket, w.tasks[i].delete, o, pointer)
  }

  /** Past its scan a stale delete displaces the pointer by itself. */
  lemma LateDisplaces(cfg: Config, w: World, i: nat, o: ObjectRef, pointer: Entry<Digest>) returns (events: seq<Event>)
    requires cfg.Valid() && LateAt(w, i, o, pointer) && Leads(w.bucket, o, pointer) && PointerIds(w.bucket)
    ensures RunLeavesAlone(cfg, w, events, o, pointer) && !Leads(Run(cfg, w, events).bucket, o, pointer)
    decreases DeleteRank(w.tasks[i].delete.stage)
  {
    var t, io := w.tasks[i].delete, IO(0, [], None);
    LateStep(w.bucket, t, io, o, pointer);
    DeleteDescends(w.bucket, t, io);
    EventKeepsPointerIds(cfg, w, Step(i, io));
    hide DeleteStep, Late, PointerIds, Leads, Run;
    var w1 := Apply(cfg, w, Step(i, io));
    OneEvent(cfg, w, Step(i, io), o, pointer);
    hide RunLeavesAlone;
    events := [Step(i, io)];
    if Leads(w1.bucket, o, pointer) {
      var rest := LateDisplaces(cfg, w1, i, o, pointer);
      LeavesAloneAppend(cfg, w, events, rest, o, pointer);
      events := events + rest;
    }
  }

  /** A stale delete that found its record reads it again, and comes to the scan. */
  lemma ComesToScan(cfg: Config, w: World, i: nat, io: IO, o: ObjectRef, pointer: Entry<Digest>)
    requires cfg.Valid() && i < |w.tasks| && w.tasks[i].Deleting? && Identified(w.bucket)
    requires var t := w.tasks[i].delete;
             t.stage == LatestReference(t.key.digest) && Current(w.bucket.references, t.key).Some?
    ensures var w1 := Apply(cfg, w, Step(i, io));
            && w1 == World(w.bucket, w.tasks[i := Deleting(w.tasks[i].delete.At(Scan(true)))])
            && LeavesAlone(cfg, w, Step(i, io), o, pointer)
  {
    assert Version(w.tasks[i].delete.key.objectRef, w.tasks[i].delete.key.digest) == w.tasks[i].delete.key;
    hide StackOf;
  }

  /** From the scan on, with an honest answer that is not the pointed version. */
  lemma ScanDisplaces(cfg: Config, w: World, i: nat, previous: Option<Digest>, o: ObjectRef, pointer: Entry<Digest>)
      returns (events: seq<Event>)
    requires cfg.Valid() && i < |w.tasks| && w.tasks[i].Deleting? && Leads(w.bucket, o, pointer) && PointerIds(w.bucket)
    requires var t := w.tasks[i].delete;
             && t.key.objectRef == o && t.stage == Scan(true) && t.envelope.Some?
             && Current(w.bucket.references, t.key).Some? && ScanFinds(w.bucket, t.key, previous)
             && Displaces(w.bucket, pointer, previous)
    ensures RunLeavesAlone(cfg, w, events, o, pointer) && !Leads(Run(cfg, w, events).bucket, o, pointer)
  {
    hide ScanFinds, Leads, PointerIds, Current, Run, RunLeavesAlone;
    var io := IO(0, [], previous);
    var w1 := Apply(cfg, w, Step(i, io));
    assert w1 == World(w.bucket, w.tasks[i := Deleting(w.tasks[i].delete.At(HeadReference(true, previous)))]);
    OneEvent(cfg, w, Step(i, io), o, pointer);
    var rest := LateDisplaces(cfg, w1, i, o, pointer);
    LeavesAloneAppend(cfg, w, [Step(i, io)], rest, o, pointer);
    events := [Step(i, io)] + rest;
  }

  /** Which records go first, and what the scan then answers. */
  lemma SomethingElse(w: World, t: DeleteTask, o: ObjectRef, pointer: Entry<Digest>)
      returns (gone: set<Digest>, previous: Option<Digest>)
    requires t.key.objectRef == o && (w.bucket.versioned || Misses(w, t.key, Version(o, pointer.value)))
    ensures t.key.digest !in gone && forall d | d in gone :: Removable(w, Version(o, d), Version(o, pointer.value))
    ensures Listing.ScanGives(RecordsOf(w.bucket, o) - gone, "", t.key.digest, previous)
    ensures Displaces(w.bucket, pointer, previous)
  {
    hide Removable, RecordsOf, Listing.ScanGives;
    if w.bucket.versioned {
      gone := {};
      previous := Listing.AnswerExists(RecordsOf(w.bucket, o) - {}, "", t.key.digest);
    } else {
      gone, previous :| MissesAfter(w, t.key, Version(o, pointer.value), gone, previous);
    }
  }

  lemma ReadingDisplaces(cfg: Config, w: World, i: nat, o: ObjectRef, pointer: Entry<Digest>)
    returns (events: seq<Event>)
    requires cfg.Valid() && i < |w.tasks| && w.tasks[i].Deleting? && Leads(w.bucket, o, pointer)
    requires PointerIds(w.bucket) && Identified(w.bucket)
    requires var t := w.tasks[i].delete;
             && Endangers(w, t, o, pointer) && (t.stage.LatestReference? || t.stage.Scan?)
    ensures RunLeavesAlone(cfg, w, events, o, pointer) && !Leads(Run(cfg, w, events).bucket, o, pointer)
  {
    var t := w.tasks[i].delete;
    hide Misses, Removable, RecordsOf, Listing.ScanGives, Identified, PointerIds, Current, Run, RunLeavesAlone;
    var gone, previous := SomethingElse(w, t, o, pointer);
    events := RemoveAll(cfg, w, gone, o, pointer);
    var w1 := Run(cfg, w, events);
    RunIdentified(cfg, w, events);
    RunKeepsPointerIds(cfg, w, events);
    RecordsAfter(w.bucket, w1.bucket, o, gone);
    SamePointer(w.bucket, w1.bucket, o, pointer);
    assert RecordAfter(w.bucket, w1.bucket, Version(o, t.key.digest), gone) && Version(o, t.key.digest) == t.key;
    var w2 := w1;
    if t.stage.LatestReference? {
      ComesToScan(cfg, w1, i, IO(0, [], None), o, pointer);
      w2 := Apply(cfg, w1, Step(i, IO(0, [], None)));
      OneEvent(cfg, w1, Step(i, IO(0, [], None)), o, pointer);
      LeavesAloneAppend(cfg, w, events, [Step(i, IO(0, [], None))], o, pointer);
      events := events + [Step(i, IO(0, [], None))];
    }
    var rest := ScanDisplaces(cfg, w2, i, previous, o, pointer);
    LeavesAloneAppend(cfg, w, events, rest, o, pointer);
    events := events + rest;
  }

  lemma SamePointer(b: Bucket, b': Bucket, o: ObjectRef, pointer: Entry<Digest>)
    requires b'.latest == b.latest && Leads(b, o, pointer)
    ensures Leads(b', o, pointer)
  {
  }

  ghost predicate EndangersAt(w: World, i: nat, o: ObjectRef, pointer: Entry<Digest>) {
    i < |w.tasks| && w.tasks[i].Deleting? && Endangers(w, w.tasks[i].delete, o, pointer)
  }

  /** An endangering delete can still displace the pointer, without reading it again and with an honest scan. */
  lemma EndangeringDisplaces(cfg: Config, w: World, i: nat, o: ObjectRef, pointer: Entry<Digest>)
      returns (events: seq<Event>)
    requires cfg.Valid() && EndangersAt(w, i, o, pointer) && Leads(w.bucket, o, pointer)
    requires PointerIds(w.bucket) && Identified(w.bucket)
    ensures RunLeavesAlone(cfg, w, events, o, pointer) && !Leads(Run(cfg, w, events).bucket, o, pointer)
  {
    hide Misses, PointerIds, Identified, Leads, Displaces, RunLeavesAlone, Run;
    var t := w.tasks[i].delete;
    if t.stage.LatestReference? || t.stage.Scan? {
      events := ReadingDisplaces(cfg, w, i, o, pointer);
    } else {
      events := LateDisplaces(cfg, w, i, o, pointer);
    }
  }

  lemma NothingPoints(versioned: bool)
    ensures PointerIds(Empty(versioned)) && Identified(Empty(versioned))
  {
  }

  /**
   * Exactly when a latest pointer is safe from deletes: in any reachable state, the pointer version outlives
   * every further run in which scans are honest, no put of the object publishes and no delete of the version it
   * names reads it, just when no delete endangers it.
   */
  lemma {:induction false} PointerSafeIff(cfg: Config, versioned: bool, earlier: seq<Event>, o: ObjectRef,
                                          pointer: Entry<Digest>)
    requires cfg.Valid() && Leads(Run(cfg, Initial(versioned), earlier).bucket, o, pointer)
    ensures var w := Run(cfg, Initial(versioned), earlier);
            Unendangered(w, o, pointer) <==>
            forall later | RunLeavesAlone(cfg, w, later, o, pointer) :: Leads(Run(cfg, w, later).bucket, o, pointer)
  {
    var w := Run(cfg, Initial(versioned), earlier);
    NothingPoints(versioned);
    RunIdentified(cfg, Initial(versioned), earlier);
    RunKeepsPointerIds(cfg, Initial(versioned), earlier);
    hide Leads, RunLeavesAlone, Run, Identified, PointerIds, Endangers;
    if Unendangered(w, o, pointer) {
      forall later | RunLeavesAlone(cfg, w, later, o, pointer)
        ensures Leads(Run(cfg, w, later).bucket, o, pointer)
      {
        UnendangeredPointerStays(cfg, w, later, o, pointer);
      }
    } else {
      var i :| 0 <= i < |w.tasks| && w.tasks[i].Deleting? && Endangers(w, w.tasks[i].delete, o, pointer);
      var later := EndangeringDisplaces(cfg, w, i, o, pointer);
    }
  }

  // ---------------------------------------------------------------- up to 10,000 versions

  /** Records by their own digests. */
  ghost predicate OwnDigests(docs: Listing.Documents) {
    forall d | d in docs :: docs[d].metadata.digest == d
  }

  lemma {:induction false} SortedIndices(seen: seq<string>, i: nat, j: nat)
    requires Sorted(seen) && i < |seen| && j < |seen| && Less(seen[i], seen[j])
    ensures i < j
  {
    hide Less;
    if i == j {
      LessIrreflexive(seen[i]);
    } else if j < i {
      assert Less(seen[j], seen[i]);
      LessTransitive(seen[i], seen[j], seen[i]);
      LessIrreflexive(seen[i]);
    }
  }

  /** How the selected record compares with another that the scan read. */
  lemma {:induction false} SelectedBeats(docs: Listing.Documents, seen: seq<string>, exclude: Digest,
                                         d: Digest, e: Digest)
    requires OwnDigests(docs) && Sorted(seen) && (forall x | x in seen :: x in docs) && d in docs && e in seen
    requires Listing.NewestOf(docs, seen, Some(exclude), Some(docs[d])) && e != exclude && e != d
    ensures d in seen && d != exclude && (Less(e, d) || Less(d, e))
    ensures Less(e, d) ==> docs[e].metadata.createdAt < docs[d].metadata.createdAt
    ensures Less(d, e) ==> docs[e].metadata.createdAt <= docs[d].metadata.createdAt
  {
    hide Less;
    var i :| 0 <= i < |seen| && docs[seen[i]] == docs[d]
             && forall j | 0 <= j < |seen| && Some(docs[seen[j]].metadata.digest) != Some(exclude) ::
                  if j < i then docs[seen[j]].metadata.createdAt < docs[d].metadata.createdAt
                  else docs[seen[j]].metadata.createdAt <= docs[d].metadata.createdAt;
    assert seen[i] in seen && seen[i] == d;
    var j :| 0 <= j < |seen| && seen[j] == e;
    LessTotal(d, e);
    if Less(e, d) {
      SortedIndices(seen, j, i);
    }
  }

  /** What a complete scan selects it still selects when others are gone. */
  lemma {:induction false} SelectionStays(docs: Listing.Documents, gone: set<Digest>, exclude: Digest, d: Digest,
                                          previous: Option<Digest>)
    requires |docs| <= Listing.MAX_INTERNAL_LIST_PAGES * Listing.PAGE_SIZE && OwnDigests(docs) && d !in gone
    requires Listing.ScanGives(docs, "", exclude, Some(d)) && Listing.ScanGives(docs - gone, "", exclude, previous)
    ensures previous == Some(d)
  {
    hide Less, Listing.NewestOf;
    var some := docs - gone;
    FewerDocuments(docs, gone);
    var seen, selected := CompleteScan(docs, exclude, Some(d));
    var seen', selected' := CompleteScan(some, exclude, previous);
    var key := Listing.NewestMeans(docs, seen, Some(exclude), selected);
    var key' := Listing.NewestMeans(some, seen', Some(exclude), selected');
    assert Listing.Listable(some, "", None, d);
    if previous != Some(d) {
      assert docs[key'].metadata.digest == key' && key' in some;
      SelectedBeats(docs, seen, exclude, d, key');
      SelectedBeats(some, seen', exclude, key', d);
      LessTotal(d, key');
      assert false;
    }
  }

  lemma FewerDocuments(docs: Listing.Documents, gone: set<Digest>)
    ensures |docs - gone| <= |docs|
  {
    assert (docs - gone).Keys <= docs.Keys && |(docs - gone).Keys| == |docs - gone| && |docs.Keys| == |docs|;
    Listing.SubsetSize((docs - gone).Keys, docs.Keys);
  }

  lemma {:induction false} CompleteScan(docs: Listing.Documents, exclude: Digest, previous: Option<Digest>)
      returns (seen: seq<string>, selected: Option<Envelope>)
    requires |docs| <= Listing.MAX_INTERNAL_LIST_PAGES * Listing.PAGE_SIZE
    requires Listing.ScanGives(docs, "", exclude, previous)
    ensures Sorted(seen) && (forall d :: d in seen <==> d in docs)
    ensures Listing.NewestOf(docs, seen, Some(exclude), selected)
    ensures previous == if selected.Some? then Some(selected.value.metadata.digest) else None
  {
    hide Less, Listing.NewestOf;
    selected :| Listing.ScanSelects(docs, "", Some(exclude), selected)
                && previous == if selected.Some? then Some(selected.value.metadata.digest) else None;
    seen :|
      && Listing.Initial(docs, "", None, seen)
      && (Listing.Complete(docs, "", None, seen) || |seen| == Listing.MAX_INTERNAL_LIST_PAGES * Listing.PAGE_SIZE)
      && (forall k | k in seen :: k in docs)
      && Listing.NewestOf(docs, seen, Some(exclude), selected);
    Listing.FullScanIsComplete(docs, seen);
    assert forall d | d in docs :: Listing.Listable(docs, "", None, d);
  }

  /** The scan finds something else already. */
  ghost predicate SeesOther(b: Bucket, k: Version, pointed: Version) {
    exists previous :: ScanFinds(b, k, previous) && previous != Some(pointed.digest)
  }

  lemma SeesOtherMisses(w: World, k: Version, pointed: Version)
    requires k.objectRef == pointed.objectRef && SeesOther(w.bucket, k, pointed)
    ensures Misses(w, k, pointed)
  {
    hide Removable, RecordsOf, Listing.ScanGives;
    var previous :| ScanFinds(w.bucket, k, previous) && previous != Some(pointed.digest);
    assert RecordsOf(w.bucket, k.objectRef) - {} == RecordsOf(w.bucket, k.objectRef);
    assert MissesAfter(w, k, pointed, {}, previous);
  }

  lemma RemovedMisses(w: World, k: Version, pointed: Version)
    requires k.objectRef == pointed.objectRef && k != pointed && Identified(w.bucket) && Removable(w, pointed, pointed)
    ensures Misses(w, k, pointed)
  {
    OwnRecords(w.bucket, k.objectRef);
    hide Removable, RecordsOf, Listing.ScanGives, Identified;
    var d := pointed.digest;
    var docs := RecordsOf(w.bucket, k.objectRef) - {d};
    var previous := Listing.AnswerExists(docs, "", k.digest);
    AnswerIsThere(docs, k.digest, previous);
    assert Version(k.objectRef, d) == pointed;
    assert MissesAfter(w, k, pointed, {d}, previous);
  }

  lemma MissesMeans(w: World, k: Version, pointed: Version)
    requires k.objectRef == pointed.objectRef && Identified(w.bucket) && Misses(w, k, pointed)
    requires |RecordsOf(w.bucket, k.objectRef)| <= Listing.MAX_INTERNAL_LIST_PAGES * Listing.PAGE_SIZE
    ensures (k != pointed && Removable(w, pointed, pointed)) || SeesOther(w.bucket, k, pointed)
  {
    var docs, d := RecordsOf(w.bucket, k.objectRef), pointed.digest;
    OwnRecords(w.bucket, k.objectRef);
    hide Removable, RecordsOf, Listing.ScanGives, Identified;
    var gone: set<Digest>, previous: Option<Digest> :| MissesAfter(w, k, pointed, gone, previous);
    var answer := Listing.AnswerExists(docs, "", k.digest);
    assert ScanFinds(w.bucket, k, answer);
    if d in gone {
      assert Version(pointed.objectRef, d) == pointed && Removable(w, Version(pointed.objectRef, d), pointed);
    } else if answer == Some(d) {
      SelectionStays(docs, gone, k.digest, d, previous);
    }
  }

  /**
   * Up to 10,000 versions, a scan can miss the pointed version just when it finds something else already, or a
   * delete past its own read of the pointer can still remove the pointed version's record.
   */
  lemma MissesFewRecords(w: World, k: Version, pointed: Version)
    requires k.objectRef == pointed.objectRef && Identified(w.bucket)
    requires |RecordsOf(w.bucket, k.objectRef)| <= Listing.MAX_INTERNAL_LIST_PAGES * Listing.PAGE_SIZE
    ensures Misses(w, k, pointed) <==>
            (k != pointed && Removable(w, pointed, pointed)) || SeesOther(w.bucket, k, pointed)
  {
    hide Misses, Removable, SeesOther, Identified, RecordsOf;
    if Misses(w, k, pointed) {
      MissesMeans(w, k, pointed);
    }
    if SeesOther(w.bucket, k, pointed) {
      SeesOtherMisses(w, k, pointed);
    } else if k != pointed && Removable(w, pointed, pointed) {
      RemovedMisses(w, k, pointed);
    }
  }

  lemma OwnRecords(b: Bucket, o: ObjectRef)
    requires Identified(b)
    ensures OwnDigests(RecordsOf(b, o))
  {
    forall d | d in RecordsOf(b, o)
      ensures RecordsOf(b, o)[d].metadata.digest == d
    {
      RecordAtDigest(b, o, d);
      var s := StackOf(b.references, Version(o, d));
      assert s[|s| - 1] in s;
    }
  }

  /** An answer is the digest of a record that is there. */
  lemma {:induction false} AnswerIsThere(docs: Listing.Documents, exclude: Digest, previous: Option<Digest>)
    requires OwnDigests(docs) && Listing.ScanGives(docs, "", exclude, previous)
    ensures previous.Some? ==> previous.value in docs
  {
    hide Listing.NewestOf;
    var selected :| Listing.ScanSelects(docs, "", Some(exclude), selected)
                && previous == if selected.Some? then Some(selected.value.metadata.digest) else None;
    var seen: seq<string> :|
      && Listing.Initial(docs, "", None, seen)
      && (Listing.Complete(docs, "", None, seen) || |seen| == Listing.MAX_INTERNAL_LIST_PAGES * Listing.PAGE_SIZE)
      && (forall k | k in seen :: k in docs)
      && Listing.NewestOf(docs, seen, Some(exclude), selected);
    var key := Listing.NewestMeans(docs, seen, Some(exclude), selected);
  }
}
