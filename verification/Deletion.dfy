/**
 * What a step may touch, deletes that stop half way, and running a delete again
 * (adapter.py, _delete, _put, _stat, _read_envelope).
 */
module Deletion {
  import opened Wrappers
  import opened Integrity
  import opened Retention
  import opened Bucket
  import opened Publication
  import opened Serial

  // ---------------------------------------------------------------- a step touches one version and one pointer

  /** Only keys of version `k` and the pointer of its object may differ. */
  ghost predicate OthersUntouched(b: Bucket, b': Bucket, k: Version) {
    && b'.versioned == b.versioned
    && (forall j | j != k ::
          && StackOf(b'.blobs, j) == StackOf(b.blobs, j)
          && StackOf(b'.references, j) == StackOf(b.references, j)
          && StackOf(b'.orphans, j) == StackOf(b.orphans, j)
          && StackOf(b'.deletions, j) == StackOf(b.deletions, j))
    && (forall o | o != k.objectRef :: StackOf(b'.latest, o) == StackOf(b.latest, o))
  }

  lemma BlobTouchesOwn(b: Bucket, k: Version, blob: Blob, id: nat)
    ensures OthersUntouched(b, b.WriteBlob(k, blob), k) && OthersUntouched(b, b.RemoveBlob(k, id), k)
  {
  }

  lemma ReferenceTouchesOwn(b: Bucket, k: Version, envelope: Envelope)
    ensures OthersUntouched(b, b.WriteReference(k, envelope), k)
  {
  }

  lemma RemovalTouchesOwn(b: Bucket, k: Version, id: nat)
    ensures OthersUntouched(b, b.RemoveReference(k, id), k)
  {
  }

  lemma LatestTouchesOwn(b: Bucket, k: Version, d: Digest, id: nat)
    ensures OthersUntouched(b, b.WriteLatest(k.objectRef, d), k)
        && OthersUntouched(b, b.RemoveLatest(k.objectRef, id), k)
  {
  }

  lemma RecordTouchesOwn(b: Bucket, k: Version, reason: string, now: int)
    ensures OthersUntouched(b, b.WriteOrphan(k, reason), k) && OthersUntouched(b, b.WriteDeletion(k, now), k)
  {
  }

  lemma PutStepTouchesOwn(cfg: Config, b: Bucket, t: PutTask, io: IO)
    requires cfg.Valid() && !t.stage.PutEnded?
    ensures OthersUntouched(b, PutStep(cfg, b, t, io).0, t.Key(cfg))
  {
    hide PutStep, StackOf;
    if Checks(t.stage) {
      CheckingReads(cfg, b, t, io);
    } else if Seeks(t.stage) {
      SeekingReads(cfg, b, t, io);
    } else {
      PutWriteTouchesOwn(cfg, b, t, io);
    }
  }

  lemma PutWriteTouchesOwn(cfg: Config, b: Bucket, t: PutTask, io: IO)
    requires cfg.Valid() && (t.stage.Upload? || t.stage.Refer? || t.stage.MoveLatest? || t.stage.MarkOrphan?)
    ensures OthersUntouched(b, PutStep(cfg, b, t, io).0, t.Key(cfg))
  {
    hide Current, NewEnvelope, StackOf;
    var k := t.Key(cfg);
    BlobTouchesOwn(b, k, Blob(io.landed, t.Digest(cfg)), 0);
    if t.stage.Refer? {
      ReferenceTouchesOwn(b, k, NewEnvelope(cfg, t, t.stage.version, io.now));
    }
    LatestTouchesOwn(b, k, t.Digest(cfg), 0);
    RecordTouchesOwn(b, k, "latest-conflict", 0);
  }

  lemma DeleteStepTouchesOwn(b: Bucket, t: DeleteTask, io: IO)
    requires !t.stage.DeleteEnded?
    ensures OthersUntouched(b, DeleteStep(b, t, io).0, t.key)
  {
    hide DeleteStep, StackOf;
    if Looks(t.stage) {
      LookingReads(b, t, io);
    } else {
      DeleteWriteTouchesOwn(b, t, io);
    }
  }

  lemma DeleteWriteTouchesOwn(b: Bucket, t: DeleteTask, io: IO)
    requires !Looks(t.stage) && !t.stage.DeleteEnded?
    ensures OthersUntouched(b, DeleteStep(b, t, io).0, t.key)
  {
    hide Current, StackOf;
    if t.envelope.Some? {
      BlobTouchesOwn(b, t.key, Blob([], ""), t.envelope.value.blobVersion);
    }
    if t.stage.DropReference? {
      RemovalTouchesOwn(b, t.key, t.stage.version);
    }
    LatestTouchesOwn(b, t.key, if t.stage.Repoint? then t.stage.to else "", if t.stage.DropLatest? then t.stage.version
                     else 0);
    RecordTouchesOwn(b, t.key, "", io.now);
  }

  function ObjectOf(t: Task): ObjectRef {
    match t
    case Putting(put) => put.request.objectRef
    case Deleting(delete) => delete.key.objectRef
  }

  /** No event of a run steps a task on `o`. */
  ghost predicate Elsewhere(cfg: Config, w: World, events: seq<Event>, o: ObjectRef)
    requires cfg.Valid()
    decreases |events|
  {
    events == [] ||
    ((events[0].Step? && events[0].index < |w.tasks| ==> ObjectOf(w.tasks[events[0].index]) != o)
     && Elsewhere(cfg, Apply(cfg, w, events[0]), events[1..], o))
  }

  /** Everything the bucket holds for an object. */
  ghost predicate SameObject(b: Bucket, b': Bucket, o: ObjectRef) {
    && b'.versioned == b.versioned && StackOf(b'.latest, o) == StackOf(b.latest, o)
    && forall j: Version | j.objectRef == o ::
         && StackOf(b'.blobs, j) == StackOf(b.blobs, j)
         && StackOf(b'.references, j) == StackOf(b.references, j)
         && StackOf(b'.orphans, j) == StackOf(b.orphans, j)
         && StackOf(b'.deletions, j) == StackOf(b.deletions, j)
  }

  lemma SameObjectReads(b: Bucket, b': Bucket, o: ObjectRef, digest: Option<Digest>)
    requires SameObject(b, b', o)
    ensures ReadEnvelope(b', o, digest) == ReadEnvelope(b, o, digest)
    ensures Stat(b', o, digest) == Stat(b, o, digest)
  {
    var d := if digest.Some? then digest else if Current(b.latest, o).Some? then Some(Current(b.latest, o).value.value)
        else None;
    if d.Some? {
      var j := Version(o, d.value);
      assert StackOf(b'.references, j) == StackOf(b.references, j);
      assert StackOf(b'.blobs, j) == StackOf(b.blobs, j);
    }
    hide StackOf, Find;
  }

  lemma EventTouchesOwn(cfg: Config, w: World, e: Event, o: ObjectRef)
    requires cfg.Valid() && (e.Step? && e.index < |w.tasks| ==> ObjectOf(w.tasks[e.index]) != o)
    ensures SameObject(w.bucket, Apply(cfg, w, e).bucket, o)
  {
    hide PutStep, DeleteStep, StackOf;
    if e.Step? && e.index < |w.tasks| {
      match w.tasks[e.index] {
        case Putting(t) => if !t.stage.PutEnded? { PutStepTouchesOwn(cfg, w.bucket, t, e.io); }
        case Deleting(t) => if !t.stage.DeleteEnded? { DeleteStepTouchesOwn(w.bucket, t, e.io); }
      }
    }
  }

  /** Whatever puts and deletes of other objects do, an object keeps all its records and reads the same. */
  lemma {:induction false} OthersDoNotDisturb(cfg: Config, w: World, events: seq<Event>, o: ObjectRef,
                                              digest: Option<Digest>)
    requires cfg.Valid() && Elsewhere(cfg, w, events, o)
    ensures SameObject(w.bucket, Run(cfg, w, events).bucket, o)
    ensures Stat(Run(cfg, w, events).bucket, o, digest) == Stat(w.bucket, o, digest)
    decreases |events|
  {
    hide Stat, StackOf;
    if events != [] {
      EventTouchesOwn(cfg, w, events[0], o);
      OthersDoNotDisturb(cfg, Apply(cfg, w, events[0]), events[1..], o, digest);
    }
    SameObjectReads(w.bucket, Run(cfg, w, events).bucket, o, digest);
  }

  // ---------------------------------------------------------------- a delete that stops

  /** As many steps as there are answers from the surroundings, or as the delete has left. */
  function DeleteSteps(b: Bucket, t: DeleteTask, ios: seq<IO>): (Bucket, DeleteTask)
    decreases |ios|
  {
    if ios == [] || t.stage.DeleteEnded? then (b, t)
    else var (b', t') := DeleteStep(b, t, ios[0]); DeleteSteps(b', t', ios[1..])
  }

  /** Blob and reference of the version are gone. */
  function BothRemoved(b: Bucket, k: Version, envelope: Envelope, version: nat): Bucket {
    b.RemoveBlob(k, envelope.blobVersion).RemoveReference(k, version)
  }

  ghost predicate AfterDrop(b: Bucket, b': Bucket, k: Version) {
    && ReadExact(b, k).Ok?
    && var b1 := BothRemoved(b, k, ReadExact(b, k).value, Current(b.references, k).value.id);
       b'.blobs == b1.blobs && b'.references == b1.references && b'.versioned == b.versioned
  }

  /** A pointer that named `k` names what the scan found, or lost that version when nothing was found. */
  ghost predicate PointerMoved(b: Bucket, b': Bucket, k: Version, heard: set<IO>) {
    var o := k.objectRef;
    if !PointsAt(b, k) then StackOf(b'.latest, o) == StackOf(b.latest, o)
    else
      || (Current(b'.latest, o).Some? && ScanHeard(heard, Some(Current(b'.latest, o).value.value)))
      || (ScanHeard(heard, None)
          && StackOf(b'.latest, o) == Without(StackOf(b.latest, o), Current(b.latest, o).value.id))
  }

  ghost predicate PointsAt(b: Bucket, k: Version) {
    Current(b.latest, k.objectRef).Some? && Current(b.latest, k.objectRef).value.value == k.digest
  }

  /** Where a lone delete of `k` that started in `b` can stand. */
  ghost predicate Stands(b: Bucket, k: Version, b': Bucket, t: DeleteTask, heard: set<IO>) {
    && t.key == k
    && match t.stage
       case Lookup => b' == b
       case LatestPointer => b' == b && LookedUp(b, k, t, heard)
       case LatestReference(d) => b' == b && LookedUp(b, k, t, heard) && Current(b.latest, k.objectRef).Some?
                                  && Current(b.latest, k.objectRef).value.value == d
       case Scan(wasLatest) => b' == b && Decided(b, k, t, heard, wasLatest)
       case HeadReference(wasLatest, previous) =>
         b' == b && Decided(b, k, t, heard, wasLatest) && ScanHeard(heard, previous)
       case DropBlob(wasLatest, previous, version) =>
         b' == b && Decided(b, k, t, heard, wasLatest) && ScanHeard(heard, previous)
         && version == Current(b.references, k).value.id
       case DropReference(wasLatest, previous, version) =>
         Decided(b, k, t, heard, wasLatest) && ScanHeard(heard, previous)
         && b' == b.RemoveBlob(k, t.envelope.value.blobVersion) && version == Current(b.references, k).value.id
       case Repoint(to) => AfterDrop(b, b', k) && b'.latest == b.latest && PointsAt(b, k) && ScanHeard(heard, Some(to))
       case HeadLatest => AfterDrop(b, b', k) && b'.latest == b.latest && PointsAt(b, k) && ScanHeard(heard, None)
       case DropLatest(version) => AfterDrop(b, b', k) && b'.latest == b.latest && PointsAt(b, k)
           && ScanHeard(heard, None)
                                   && version == Current(b.latest, k.objectRef).value.id
       case Evidence => AfterDrop(b, b', k) && PointerMoved(b, b', k, heard)
       case DeleteEnded(outcome) =>
         || (b' == b && outcome.DeleteFailed?)
         || (AfterDrop(b, b', k) && PointerMoved(b, b', k, heard)
             && (outcome == Deleted || outcome == DeleteFailed(ConditionalConflict)))
  }

  ghost predicate ScanHeard(heard: set<IO>, previous: Option<Digest>) {
    exists io | io in heard :: io.previous == previous
  }

  /** The lookup found the record, and found it released at a time it heard. */
  ghost predicate LookedUp(b: Bucket, k: Version, t: DeleteTask, heard: set<IO>) {
    && ReadExact(b, k).Ok? && t.envelope == Some(ReadExact(b, k).value)
    && exists io | io in heard :: Releases(ReadExact(b, k).value.retention, io.now)
  }

  /** It also knows whether the version is the one that the pointer resolves to. */
  ghost predicate Decided(b: Bucket, k: Version, t: DeleteTask, heard: set<IO>, wasLatest: bool) {
    LookedUp(b, k, t, heard) && TryLatest(b, k.objectRef).Ok? && (wasLatest <==> PointsAt(b, k))
  }

  lemma StepStands(b: Bucket, k: Version, b': Bucket, t: DeleteTask, heard: set<IO>, io: IO)
    requires Stands(b, k, b', t, heard) && !t.stage.DeleteEnded?
    ensures var (b'', t') := DeleteStep(b', t, io); Stands(b, k, b'', t', heard + {io})
  {
    if t.stage.Repoint? || t.stage.HeadLatest? || t.stage.DropLatest? {
      PointerStepStands(b, k, b', t, heard, io);
    } else if t.stage.Evidence? {
      EvidenceStepStands(b, k, b', t, heard, io);
    } else if t.stage.Lookup? || t.stage.LatestPointer? || t.stage.LatestReference? {
      ReadingStepStands(b, k, b', t, heard, io);
    } else {
      DroppingStepStands(b, k, b', t, heard, io);
    }
  }

  lemma ReadingStepStands(b: Bucket, k: Version, b': Bucket, t: DeleteTask, heard: set<IO>, io: IO)
    requires Stands(b, k, b', t, heard) && (t.stage.Lookup? || t.stage.LatestPointer? || t.stage.LatestReference?)
    ensures var (b'', t') := DeleteStep(b', t, io); Stands(b, k, b'', t', heard + {io})
  {
    hide StackOf, Without, Releases;
  }

  lemma DroppingStepStands(b: Bucket, k: Version, b': Bucket, t: DeleteTask, heard: set<IO>, io: IO)
    requires Stands(b, k, b', t, heard)
    requires t.stage.Scan? || t.stage.HeadReference? || t.stage.DropBlob? || t.stage.DropReference?
    ensures var (b'', t') := DeleteStep(b', t, io); Stands(b, k, b'', t', heard + {io})
  {
    hide StackOf, Without, Releases, TryLatest;
  }

  lemma PointerStepStands(b: Bucket, k: Version, b': Bucket, t: DeleteTask, heard: set<IO>, io: IO)
    requires Stands(b, k, b', t, heard)
    requires t.stage.Repoint? || t.stage.HeadLatest? || t.stage.DropLatest?
    ensures var (b'', t') := DeleteStep(b', t, io); Stands(b, k, b'', t', heard + {io})
  {
    hide Without, ReadExact, Releases, LookedUp;
  }

  lemma EvidenceStepStands(b: Bucket, k: Version, b': Bucket, t: DeleteTask, heard: set<IO>, io: IO)
    requires Stands(b, k, b', t, heard) && t.stage.Evidence?
    ensures var (b'', t') := DeleteStep(b', t, io); Stands(b, k, b'', t', heard + {io})
  {
    hide Without, ReadExact, Releases, LookedUp, Current, BothRemoved;
  }

  ghost function Heard(ios: seq<IO>): set<IO> {
    set io | io in ios
  }

  lemma {:induction false} StepsStand(b: Bucket, k: Version, b': Bucket, t: DeleteTask, heard: set<IO>, ios: seq<IO>)
    requires Stands(b, k, b', t, heard)
    ensures var (b'', t') := DeleteSteps(b', t, ios); Stands(b, k, b'', t', heard + Heard(ios))
    decreases |ios|
  {
    hide Stands;
    if ios == [] || t.stage.DeleteEnded? {
      StandsMore(b, k, b', t, heard, heard + Heard(ios));
    } else {
      StepStands(b, k, b', t, heard, ios[0]);
      var (b1, t1) := DeleteStep(b', t, ios[0]);
      StepsStand(b, k, b1, t1, heard + {ios[0]}, ios[1..]);
      var (b2, t2) := DeleteSteps(b1, t1, ios[1..]);
      StandsMore(b, k, b2, t2, heard + {ios[0]} + Heard(ios[1..]), heard + Heard(ios));
    }
  }

  lemma StandsMore(b: Bucket, k: Version, b': Bucket, t: DeleteTask, heard: set<IO>, more: set<IO>)
    requires Stands(b, k, b', t, heard) && heard <= more
    ensures Stands(b, k, b', t, more)
  {
    hide StackOf, Without, ReadExact, Current;
  }

  lemma {:induction false} StepsTouchOwn(b: Bucket, t: DeleteTask, ios: seq<IO>)
    ensures OthersUntouched(b, DeleteSteps(b, t, ios).0, t.key)
    decreases |ios|
  {
    hide DeleteStep, StackOf;
    if ios != [] && !t.stage.DeleteEnded? {
      DeleteStepTouchesOwn(b, t, ios[0]);
      var (b', t') := DeleteStep(b, t, ios[0]);
      DeleteStepKey(b, t, ios[0]);
      StepsTouchOwn(b', t', ios[1..]);
    }
  }

  lemma DeleteStepKey(b: Bucket, t: DeleteTask, io: IO)
    requires !t.stage.DeleteEnded?
    ensures DeleteStep(b, t, io).1.key == t.key
  {
    hide Current, ReadExact, Releases;
  }

  /** Wherever a delete stops, every other version of every object reads as before. */
  lemma {:induction false} StoppedDeleteKeepsTheRest(b: Bucket, k: Version, ios: seq<IO>, j: Version)
    requires j != k
    ensures var b' := DeleteSteps(b, StartDelete(k), ios).0;
            && StackOf(b'.blobs, j) == StackOf(b.blobs, j) && StackOf(b'.references, j) == StackOf(b.references, j)
            && Stat(b', j.objectRef, Some(j.digest)) == Stat(b, j.objectRef, Some(j.digest))
            && (j.objectRef != k.objectRef ==> Stat(b', j.objectRef, None) == Stat(b, j.objectRef, None))
  {
    StepsTouchOwn(b, StartDelete(k), ios);
    var b' := DeleteSteps(b, StartDelete(k), ios).0;
    if j.objectRef != k.objectRef {
      hide DeleteSteps, Stat, StackOf;
      SameObjectReads(b, b', j.objectRef, Some(j.digest));
      SameObjectReads(b, b', j.objectRef, None);
    } else {
      hide DeleteSteps, OthersUntouched, StackOf, Find;
    }
  }

  /** The scans were right: they found another version that is there, or there is none. */
  ghost predicate RightAnswers(b: Bucket, k: Version, heard: set<IO>) {
    forall io | io in heard ::
      match io.previous
      case Some(d) => d != k.digest && Current(b.references, Version(k.objectRef, d)).Some?
      case None => forall d | d != k.digest :: Current(b.references, Version(k.objectRef, d)).None?
  }

  /**
   * While a delete stands anywhere, the object reads as before, or as the successor once the pointer
   * was rewritten, or as not found; between the drop and the rewrite it is always not found.
   */
  lemma {:induction false} StoppedDeleteReads(b: Bucket, k: Version, ios: seq<IO>)
    requires |StackOf(b.references, k)| <= 1 && RightAnswers(b, k, Heard(ios))
    ensures var (b', t') := DeleteSteps(b, StartDelete(k), ios);
            var read := ReadEnvelope(b', k.objectRef, None);
            && (Dangles(t'.stage) ==> read == Err(NotFound))
            && (|| read == ReadEnvelope(b, k.objectRef, None)
                || read == Err(NotFound)
                || exists io :: io in ios && io.previous.Some?
                    && read == ReadExact(b, Version(k.objectRef, io.previous.value)))
  {
    var (b', t') := DeleteSteps(b, StartDelete(k), ios);
    assert {} + Heard(ios) == Heard(ios);
    StepsStand(b, k, b, StartDelete(k), {}, ios);
    StepsTouchOwn(b, StartDelete(k), ios);
    StandsBeforeOrAfter(b, k, b', t', Heard(ios));
    hide DeleteSteps, Stands, OthersUntouched, RightAnswers, StackOf, Without, AfterDrop, PointerMoved, ReadExact;
    if AfterDrop(b, b', k) {
      ReadsAfterDrop(b, b', k, Heard(ios));
    }
  }

  predicate Dangles(stage: DeleteStage) {
    stage.Repoint? || stage.HeadLatest? || stage.DropLatest?
  }

  lemma StandsBeforeOrAfter(b: Bucket, k: Version, b': Bucket, t: DeleteTask, heard: set<IO>)
    requires Stands(b, k, b', t, heard)
    ensures Dangles(t.stage) ==> AfterDrop(b, b', k) && b'.latest == b.latest && PointsAt(b, k)
    ensures !Dangles(t.stage) ==>
              (b'.references == b.references && b'.latest == b.latest)
                  || (AfterDrop(b, b', k) && PointerMoved(b, b', k, heard))
  {
    hide StackOf, Without, ReadExact, Current, PointerMoved, LookedUp, Decided;
  }

  lemma ReadsAfterDrop(b: Bucket, b': Bucket, k: Version, heard: set<IO>)
    requires |StackOf(b.references, k)| <= 1 && RightAnswers(b, k, heard)
    requires AfterDrop(b, b', k) && OthersUntouched(b, b', k)
    ensures Current(b'.references, k).None?
    ensures b'.latest == b.latest && PointsAt(b, k) ==> ReadEnvelope(b', k.objectRef, None) == Err(NotFound)
    ensures PointerMoved(b, b', k, heard) ==>
              var read := ReadEnvelope(b', k.objectRef, None);
              || read == ReadEnvelope(b, k.objectRef, None)
              || read == Err(NotFound)
              || exists io :: io in heard && io.previous.Some?
                  && read == ReadExact(b, Version(k.objectRef, io.previous.value))
  {
    var o := k.objectRef;
    NoReferenceLeft(b, b', k);
    forall d | d != k.digest
      ensures ReadExact(b', Version(o, d)) == ReadExact(b, Version(o, d))
      ensures Current(b.references, Version(o, d)).None? ==> ReadExact(b', Version(o, d)) == Err(NotFound)
    {
      assert StackOf(b'.references, Version(o, d)) == StackOf(b.references, Version(o, d));
    }
    assert Version(o, k.digest) == k;
    hide StackOf, Without, OthersUntouched;
    if PointerMoved(b, b', k, heard) && PointsAt(b, k) && Current(b'.latest, o).Some? {
      var d := Current(b'.latest, o).value.value;
      if !ScanHeard(heard, Some(d)) {
        assert ScanHeard(heard, None);
      }
    }
  }

  lemma NoReferenceLeft(b: Bucket, b': Bucket, k: Version)
    requires |StackOf(b.references, k)| <= 1 && AfterDrop(b, b', k)
    ensures Current(b'.references, k).None?
  {
    var s := StackOf(b.references, k);
    assert |s| == 1 && s == [s[0]];
    assert Without(s[1..], s[0].id) == [];
  }

  /** Once a delete has removed anything, its version is not found. */
  lemma {:induction false} HalfDeletedIsNotFound(b: Bucket, k: Version, ios: seq<IO>)
    requires |StackOf(b.references, k)| <= 1
    ensures var b' := DeleteSteps(b, StartDelete(k), ios).0;
            b' == b || Stat(b', k.objectRef, Some(k.digest)) == Err(NotFound)
  {
    var (b', t') := DeleteSteps(b, StartDelete(k), ios);
    assert {} + Heard(ios) == Heard(ios);
    StepsStand(b, k, b, StartDelete(k), {}, ios);
    assert Version(k.objectRef, k.digest) == k;
    hide DeleteSteps, PointerMoved, TryLatest, Without, StackOf;
    if AfterDrop(b, b', k) {
      NoReferenceLeft(b, b', k);
    } else if b' != b {
      WithoutBlobIsNotFound(b, k);
    }
  }

  lemma WithoutBlobIsNotFound(b: Bucket, k: Version)
    requires ReadExact(b, k).Ok?
    ensures Stat(b.RemoveBlob(k, ReadExact(b, k).value.blobVersion), k.objectRef, Some(k.digest)) == Err(NotFound)
  {
    var id := ReadExact(b, k).value.blobVersion;
    FindWithout(StackOf(b.blobs, k), id, id);
    hide Without, Find;
  }

  // ---------------------------------------------------------------- running it again

  lemma {:induction false} WithoutTwice<T>(s: seq<Entry<T>>, id: nat)
    ensures Without(Without(s, id), id) == Without(s, id)
  {
    if s != [] {
      WithoutTwice(s[1..], id);
    }
  }

  lemma RemoveBlobTwice(b: Bucket, k: Version, id: nat)
    ensures b.RemoveBlob(k, id).RemoveBlob(k, id) == b.RemoveBlob(k, id)
  {
    WithoutTwice(StackOf(b.blobs, k), id);
    hide Without;
  }

  /** The blob plays no part in what a delete does besides removing it. */
  lemma RunDeleteWithoutBlob(b: Bucket, k: Version, io: IO)
    requires ReadExact(b, k).Ok?
    requires Releases(ReadExact(b, k).value.retention, io.now) && TryLatest(b, k.objectRef).Ok?
    ensures RunDelete(b.RemoveBlob(k, ReadExact(b, k).value.blobVersion), k, io) == RunDelete(b, k, io)
  {
    var id := ReadExact(b, k).value.blobVersion;
    RemoveBlobTwice(b, k, id);
    var b1 := b.RemoveBlob(k, id);
    assert ReadExact(b1, k) == ReadExact(b, k) && TryLatest(b1, k.objectRef) == TryLatest(b, k.objectRef);
    hide FinishDelete, ReadExact, TryLatest, Without, Releases;
  }

  /**
   * A delete run again after one that stopped anywhere: while the reference record is still there it
   * ends exactly as one undisturbed delete of the original bucket; otherwise it finds nothing to do.
   */
  lemma {:induction false} RunAgainAfterStop(b: Bucket, k: Version, ios: seq<IO>, io: IO)
    requires |StackOf(b.references, k)| <= 1
    requires forall x | x in ios :: x.now <= io.now
    ensures var b' := DeleteSteps(b, StartDelete(k), ios).0;
            RunDelete(b', k, io) ==
            if Current(b'.references, k).Some? then RunDelete(b, k, io) else (b', DeleteFailed(NotFound))
  {
    var (b', t') := DeleteSteps(b, StartDelete(k), ios);
    assert {} + Heard(ios) == Heard(ios);
    StepsStand(b, k, b, StartDelete(k), {}, ios);
    hide DeleteSteps, StackOf, Without, TryLatest, FinishDelete, RunDelete, PointerMoved;
    if Current(b'.references, k).None? {
      NothingToDelete(b', k, io);
    }
    if AfterDrop(b, b', k) {
      NoReferenceLeft(b, b', k);
    } else if b' != b {
      assert LookedUp(b, k, t', Heard(ios)) && TryLatest(b, k.objectRef).Ok?;
      ReleasedLater(ReadExact(b, k).value.retention, Heard(ios), io.now);
      RunDeleteWithoutBlob(b, k, io);
    }
  }

  lemma ReleasedLater(record: Option<RetentionRecord>, heard: set<IO>, now: int)
    requires (exists io | io in heard :: Releases(record, io.now)) && forall io | io in heard :: io.now <= now
    ensures Releases(record, now)
  {
  }

  lemma NothingToDelete(b: Bucket, k: Version, io: IO)
    requires Current(b.references, k).None?
    ensures RunDelete(b, k, io) == (b, DeleteFailed(NotFound))
  {
    hide FinishDelete;
  }
}
