/**
 * Retention over arbitrary runs of puts and deletes, interleaved call by call (adapter.py, _put and
 * _delete; retention.py, require_delete_allowed): exactly when a retained record is safe.
 */
module Holding {
  import opened Wrappers
  import opened Retention
  import opened Bucket
  import opened Publication
  import opened Serial
  import opened Deletion

  /**
   * The record `entry` is current for `k`, and the blob version that it names is stored: as `blob`, when that
   * is given, or with any bytes.
   */
  ghost predicate Kept(b: Bucket, k: Version, entry: Entry<Envelope>, blob: Option<Blob>) {
    var found := Find(StackOf(b.blobs, k), entry.value.blobVersion);
    && Current(b.references, k) == Some(entry)
    && found.Some? && (blob.Some? ==> found == blob)
    && (!b.versioned ==> entry.value.blobVersion == UNVERSIONED)
  }

  /** A delete that is past its retention check and can still remove the record or its blob. */
  predicate Threatens(t: DeleteTask, k: Version, entry: Entry<Envelope>) {
    && t.key == k && (t.envelope.Some? || t.stage.DropReference?)
    && match t.stage
       case LatestPointer => true
       case LatestReference(_) => true
       case Scan(_) => true
       case HeadReference(_, _) => true
       case DropBlob(_, _, version) => version == entry.id || t.envelope.value.blobVersion == entry.value.blobVersion
       case DropReference(_, _, version) => version == entry.id
       case _ => false
  }

  ghost predicate Unthreatened(w: World, k: Version, entry: Entry<Envelope>) {
    forall i | 0 <= i < |w.tasks| && w.tasks[i].Deleting? :: !Threatens(w.tasks[i].delete, k, entry)
  }

  /** If the event is a delete's retention check of `k`, the record forbids it at that time. */
  ghost predicate Refused(w: World, e: Event, k: Version, entry: Entry<Envelope>) {
    e.Step? && e.index < |w.tasks| && w.tasks[e.index].Deleting?
    && w.tasks[e.index].delete.key == k && w.tasks[e.index].delete.stage.Lookup? ==>
      !Releases(entry.value.retention, e.io.now)
  }

  /** Only the multipart path replaces a blob, and only where there are no versions. */
  ghost predicate Overwrites(cfg: Config, b: Bucket, t: PutTask, k: Version) {
    !b.versioned && t.stage.Upload? && t.Key(cfg) == k && !t.Single(cfg)
  }

  /** If the event overwrites the blob of `k`, and `blob` is to stay, it stores just that. */
  ghost predicate Spares(cfg: Config, w: World, e: Event, k: Version, blob: Option<Blob>) {
    e.Step? && e.index < |w.tasks| && w.tasks[e.index].Putting?
    && Overwrites(cfg, w.bucket, w.tasks[e.index].put, k) && blob.Some? ==>
      Blob(e.io.landed, k.digest) == blob.value
  }

  ghost predicate RunRefused(cfg: Config, w: World, events: seq<Event>, k: Version, entry: Entry<Envelope>,
                            blob: Option<Blob>)
    requires cfg.Valid()
    decreases |events|
  {
    || events == []
    || (Refused(w, events[0], k, entry) && Spares(cfg, w, events[0], k, blob)
        && RunRefused(cfg, Apply(cfg, w, events[0]), events[1..], k, entry, blob))
  }

  lemma {:induction false} WithoutKeepsLast<T>(s: seq<Entry<T>>, id: nat)
    requires s != [] && s[|s| - 1].id != id
    ensures Without(s, id) != [] && Without(s, id)[|Without(s, id)| - 1] == s[|s| - 1]
  {
    if |s| > 1 {
      WithoutKeepsLast(s[1..], id);
    }
  }

  lemma {:induction false} WithoutRemoves<T>(s: seq<Entry<T>>, id: nat)
    ensures forall e | e in Without(s, id) :: e.id != id
  {
    if s != [] {
      WithoutRemoves(s[1..], id);
    }
  }

  // ---------------------------------------------------------------- what keeps the record

  lemma UntouchedStaysKept(b: Bucket, b': Bucket, j: Version, k: Version, entry: Entry<Envelope>, blob: Option<Blob>)
    requires Kept(b, k, entry, blob) && OthersUntouched(b, b', j)
    requires j != k || (b'.blobs == b.blobs && b'.references == b.references)
    ensures Kept(b', k, entry, blob)
  {
    hide Find, StackOf;
    if j != k {
      assert StackOf(b'.references, k) == StackOf(b.references, k) && StackOf(b'.blobs, k) == StackOf(b.blobs, k);
    }
  }

  lemma PutStepKeepsRecord(cfg: Config, b: Bucket, t: PutTask, io: IO, k: Version, entry: Entry<Envelope>,
                           blob: Option<Blob>)
    requires cfg.Valid() && !t.stage.PutEnded? && Kept(b, k, entry, blob)
    requires Overwrites(cfg, b, t, k) && blob.Some? ==> Blob(io.landed, k.digest) == blob.value
    ensures Kept(PutStep(cfg, b, t, io).0, k, entry, blob)
  {
    PutStepTouchesOwn(cfg, b, t, io);
    if t.Key(cfg) == k && t.stage.Upload? {
      UploadKeepsRecord(cfg, b, t, io, k, entry, blob);
    } else {
      if t.Key(cfg) == k {
        PutStepKeepsReference(cfg, b, t, io);
      }
      hide PutStep, OthersUntouched, Kept;
      UntouchedStaysKept(b, PutStep(cfg, b, t, io).0, t.Key(cfg), k, entry, blob);
    }
  }

  lemma UploadKeepsRecord(cfg: Config, b: Bucket, t: PutTask, io: IO, k: Version, entry: Entry<Envelope>,
                          blob: Option<Blob>)
    requires cfg.Valid() && t.stage.Upload? && Kept(b, k, entry, blob) && t.Key(cfg) == k
    requires Overwrites(cfg, b, t, k) && blob.Some? ==> Blob(io.landed, k.digest) == blob.value
    ensures Kept(PutStep(cfg, b, t, io).0, k, entry, blob)
  {
    if b.versioned {
      FindAppend(StackOf(b.blobs, k), Entry(b.next, Blob(io.landed, t.Digest(cfg))), entry.value.blobVersion);
    }
  }

  /** A reference that exists is never written again. */
  lemma PutStepKeepsReference(cfg: Config, b: Bucket, t: PutTask, io: IO)
    requires cfg.Valid() && !t.stage.PutEnded? && !t.stage.Upload? && Current(b.references, t.Key(cfg)).Some?
    ensures var b' := PutStep(cfg, b, t, io).0; b'.blobs == b.blobs && b'.references == b.references
  {
    if Checks(t.stage) {
      CheckingReads(cfg, b, t, io);
    } else if Seeks(t.stage) {
      SeekingReads(cfg, b, t, io);
    } else {
      LateStepKeepsReference(cfg, b, t, io);
    }
    hide PutStep;
  }

  lemma LateStepKeepsReference(cfg: Config, b: Bucket, t: PutTask, io: IO)
    requires cfg.Valid() && (t.stage.Refer? || t.stage.MoveLatest? || t.stage.MarkOrphan?)
    requires Current(b.references, t.Key(cfg)).Some?
    ensures var b' := PutStep(cfg, b, t, io).0; b'.blobs == b.blobs && b'.references == b.references
  {
    hide Current, StackOf, NewEnvelope;
  }

  lemma DeleteStepKeepsRecord(b: Bucket, t: DeleteTask, io: IO, k: Version, entry: Entry<Envelope>, blob: Option<Blob>)
    requires !t.stage.DeleteEnded? && Kept(b, k, entry, blob) && !Threatens(t, k, entry)
    requires t.key == k && t.stage.Lookup? ==> !Releases(entry.value.retention, io.now)
    ensures var (b', t') := DeleteStep(b, t, io); Kept(b', k, entry, blob) && !Threatens(t', k, entry)
  {
    if t.key != k {
      DeleteStepTouchesOwn(b, t, io);
      DeleteStepKey(b, t, io);
      hide DeleteStep, OthersUntouched, Kept;
      UntouchedStaysKept(b, DeleteStep(b, t, io).0, t.key, k, entry, blob);
    } else if Looks(t.stage) {
      LookingReads(b, t, io);
      LookingStaysHarmless(b, t, io, k, entry);
      hide DeleteStep, Kept, Threatens;
    } else {
      HarmlessStepKeeps(b, t, io, k, entry, blob);
      hide DeleteStep, Kept, Threatens;
    }
  }

  lemma LookingStaysHarmless(b: Bucket, t: DeleteTask, io: IO, k: Version, entry: Entry<Envelope>)
    requires t.key == k && Looks(t.stage) && !Threatens(t, k, entry) && Current(b.references, k) == Some(entry)
    requires t.stage.Lookup? ==> !Releases(entry.value.retention, io.now)
    ensures !Threatens(DeleteStep(b, t, io).1, k, entry)
  {
    hide StackOf;
  }

  lemma HarmlessStepKeeps(b: Bucket, t: DeleteTask, io: IO, k: Version, entry: Entry<Envelope>, blob: Option<Blob>)
    requires t.key == k && !t.stage.DeleteEnded? && !Looks(t.stage) && !Threatens(t, k, entry)
        && Kept(b, k, entry, blob)
    ensures var (b', t') := DeleteStep(b, t, io); Kept(b', k, entry, blob) && !Threatens(t', k, entry)
  {
    if t.stage.DropBlob? {
      if t.envelope.Some? {
        FindWithout(StackOf(b.blobs, k), t.envelope.value.blobVersion, entry.value.blobVersion);
      }
      hide Without, Find;
    } else if t.stage.DropReference? {
      ReferenceDropMisses(b, t, io, k, entry, blob);
      hide DeleteStep, Kept, Threatens;
    } else {
      DeleteStepTouchesOwn(b, t, io);
      PointerStepsKeep(b, t, io, k, entry);
      hide DeleteStep, OthersUntouched, Kept, Threatens;
      UntouchedStaysKept(b, DeleteStep(b, t, io).0, k, k, entry, blob);
    }
  }

  lemma PointerStepsKeep(b: Bucket, t: DeleteTask, io: IO, k: Version, entry: Entry<Envelope>)
    requires t.stage.Repoint? || t.stage.DropLatest? || t.stage.Evidence?
    ensures var (b', t') := DeleteStep(b, t, io);
            b'.blobs == b.blobs && b'.references == b.references && !Threatens(t', k, entry)
  {
    hide Current, StackOf, Without;
  }

  lemma ReferenceDropMisses(b: Bucket, t: DeleteTask, io: IO, k: Version, entry: Entry<Envelope>, blob: Option<Blob>)
    requires t.key == k && t.stage.DropReference? && Kept(b, k, entry, blob)
    requires t.stage.version != entry.id
    ensures var (b', t') := DeleteStep(b, t, io); !Threatens(t', k, entry) && Kept(b', k, entry, blob)
  {
    WithoutKeepsLast(StackOf(b.references, k), t.stage.version);
    hide Without, Find;
  }

  lemma EventKeepsRecord(cfg: Config, w: World, e: Event, k: Version, entry: Entry<Envelope>, blob: Option<Blob>)
    requires cfg.Valid() && Kept(w.bucket, k, entry, blob) && Unthreatened(w, k, entry) && Refused(w, e, k, entry)
    requires Spares(cfg, w, e, k, blob)
    ensures Kept(Apply(cfg, w, e).bucket, k, entry, blob) && Unthreatened(Apply(cfg, w, e), k, entry)
  {
    hide PutStep, DeleteStep, Kept, StartPut;
    if e.Step? && e.index < |w.tasks| {
      match w.tasks[e.index] {
        case Putting(t) => if !t.stage.PutEnded? { PutStepKeepsRecord(cfg, w.bucket, t, e.io, k, entry, blob); }
        case Deleting(t) => if !t.stage.DeleteEnded? { DeleteStepKeepsRecord(w.bucket, t, e.io, k, entry, blob); }
      }
    }
  }

  /** A record that nothing threatens stays, with its blob, until a delete finds it released. */
  lemma {:induction false} RetainedRecordStays(cfg: Config, w: World, events: seq<Event>, k: Version,
                                               entry: Entry<Envelope>, blob: Option<Blob>)
    requires cfg.Valid() && Kept(w.bucket, k, entry, blob) && Unthreatened(w, k, entry)
        && RunRefused(cfg, w, events, k, entry, blob)
    ensures Kept(Run(cfg, w, events).bucket, k, entry, blob)
    decreases |events|
  {
    if events != [] {
      EventKeepsRecord(cfg, w, events[0], k, entry, blob);
      RetainedRecordStays(cfg, Apply(cfg, w, events[0]), events[1..], k, entry, blob);
    }
  }

  // ---------------------------------------------------------------- what can still remove it

  /** Every record sits under its own key, and there is at most one for each key. */
  ghost predicate Identified(b: Bucket) {
    && (forall k, e | e in StackOf(b.references, k) ::
          e.value.metadata.objectRef == k.objectRef && e.value.metadata.digest == k.digest)
    && (forall k :: |StackOf(b.references, k)| <= 1)
  }

  lemma {:induction false} WithoutSelects<T>(s: seq<Entry<T>>, id: nat)
    ensures |Without(s, id)| <= |s| && forall e | e in Without(s, id) :: e in s
  {
    if s != [] {
      WithoutSelects(s[1..], id);
    }
  }

  lemma PutStepIdentified(cfg: Config, b: Bucket, t: PutTask, io: IO)
    requires cfg.Valid() && !t.stage.PutEnded? && Identified(b)
    ensures Identified(PutStep(cfg, b, t, io).0)
  {
    if t.stage.Refer? {
      ReferIdentified(cfg, b, t, io);
    } else {
      PutStepKeepsReferences(cfg, b, t, io);
      SameReferencesIdentified(b, PutStep(cfg, b, t, io).0);
    }
    hide PutStep, Identified;
  }

  lemma SameReferencesIdentified(b: Bucket, b': Bucket)
    requires Identified(b) && b'.references == b.references
    ensures Identified(b')
  {
  }

  lemma PutStepKeepsReferences(cfg: Config, b: Bucket, t: PutTask, io: IO)
    requires cfg.Valid() && !t.stage.PutEnded? && !t.stage.Refer?
    ensures PutStep(cfg, b, t, io).0.references == b.references
  {
    if Checks(t.stage) {
      CheckingReads(cfg, b, t, io);
    } else if Seeks(t.stage) {
      SeekingReads(cfg, b, t, io);
    } else {
      OtherWritesKeepReferences(cfg, b, t, io);
    }
    hide PutStep;
  }

  lemma OtherWritesKeepReferences(cfg: Config, b: Bucket, t: PutTask, io: IO)
    requires cfg.Valid() && (t.stage.Upload? || t.stage.MoveLatest? || t.stage.MarkOrphan?)
    ensures PutStep(cfg, b, t, io).0.references == b.references
  {
    hide Current, StackOf;
  }

  lemma ReferIdentified(cfg: Config, b: Bucket, t: PutTask, io: IO)
    requires cfg.Valid() && t.stage.Refer? && Identified(b)
    ensures Identified(PutStep(cfg, b, t, io).0)
  {
    var b' := PutStep(cfg, b, t, io).0;
    forall k, e | e in StackOf(b'.references, k)
      ensures e.value.metadata.objectRef == k.objectRef && e.value.metadata.digest == k.digest
    {
      assert e in StackOf(b.references, k) || (k == t.Key(cfg)
                                               && e.value == NewEnvelope(cfg, t, t.stage.version, io.now));
    }
    forall k
      ensures |StackOf(b'.references, k)| <= 1
    {
      assert |StackOf(b.references, k)| <= 1;
    }
  }

  lemma DeleteStepIdentified(b: Bucket, t: DeleteTask, io: IO)
    requires !t.stage.DeleteEnded? && Identified(b)
    ensures Identified(DeleteStep(b, t, io).0)
  {
    hide Identified, Without;
    DeleteStepReferences(b, t, io);
    if t.stage.DropReference? {
      DropIdentified(b, t.key, t.stage.version);
    }
    hide DeleteStep;
    SameReferencesIdentified(if t.stage.DropReference? then b.RemoveReference(t.key, t.stage.version) else b,
                             DeleteStep(b, t, io).0);
  }

  lemma DeleteStepReferences(b: Bucket, t: DeleteTask, io: IO)
    requires !t.stage.DeleteEnded?
    ensures DeleteStep(b, t, io).0.references ==
            (if t.stage.DropReference? then b.RemoveReference(t.key, t.stage.version) else b).references
  {
    hide Current, StackOf, Without, ReadExact, Releases;
  }

  lemma DropIdentified(b: Bucket, k: Version, id: nat)
    requires Identified(b)
    ensures Identified(b.RemoveReference(k, id))
  {
    WithoutSelects(StackOf(b.references, k), id);
    hide Without;
    var b' := b.RemoveReference(k, id);
    forall j
      ensures |StackOf(b'.references, j)| <= |StackOf(b.references, j)|
      ensures forall e | e in StackOf(b'.references, j) :: e in StackOf(b.references, j)
    {
    }
  }

  lemma EmptyIsIdentified(versioned: bool)
    ensures Identified(Empty(versioned))
  {
  }

  /** In every run of puts and deletes each key has at most one record, which is its own. */
  lemma {:induction false} RunIdentified(cfg: Config, w: World, events: seq<Event>)
    requires cfg.Valid() && Identified(w.bucket)
    ensures Identified(Run(cfg, w, events).bucket)
    decreases |events|
  {
    hide Identified, PutStep, DeleteStep, StartPut;
    if events != [] {
      var e := events[0];
      if e.Step? && e.index < |w.tasks| {
        match w.tasks[e.index] {
          case Putting(t) => if !t.stage.PutEnded? { PutStepIdentified(cfg, w.bucket, t, e.io); }
          case Deleting(t) => if !t.stage.DeleteEnded? { DeleteStepIdentified(w.bucket, t, e.io); }
        }
      }
      RunIdentified(cfg, Apply(cfg, w, e), events[1..]);
    }
  }

  /** A threatening delete removes the record or the blob, or goes on threatening with nothing changed. */
  lemma ThreatStep(b: Bucket, t: DeleteTask, io: IO, k: Version, entry: Entry<Envelope>)
    requires Threatens(t, k, entry) && !t.stage.DeleteEnded? && Identified(b) && Current(b.references, k) == Some(entry)
    ensures var (b', t') := DeleteStep(b, t, io);
            || Current(b'.references, k) != Some(entry)
            || Find(StackOf(b'.blobs, k), entry.value.blobVersion).None?
            || (Threatens(t', k, entry) && !t'.stage.DeleteEnded? && Identified(b')
                && Current(b'.references, k) == Some(entry))
  {
    if Looks(t.stage) {
      LookingReads(b, t, io);
      LookingStaysThreat(b, t, io, k, entry);
      hide DeleteStep, Identified, Threatens;
    } else if t.stage.DropBlob? {
      FindWithout(StackOf(b.blobs, k), t.envelope.value.blobVersion, entry.value.blobVersion);
      assert DeleteStep(b, t, io).0.references == b.references;
      hide Find, Without;
    } else {
      WithoutRemoves(StackOf(b.references, k), entry.id);
      hide Find, Without;
    }
  }

  lemma LookingStaysThreat(b: Bucket, t: DeleteTask, io: IO, k: Version, entry: Entry<Envelope>)
    requires Threatens(t, k, entry) && Looks(t.stage) && Identified(b) && Current(b.references, k) == Some(entry)
    ensures Threatens(DeleteStep(b, t, io).1, k, entry) && !DeleteStep(b, t, io).1.stage.DeleteEnded?
  {
    hide StackOf, Releases;
  }

  ghost predicate ThreatAt(w: World, i: nat, k: Version, entry: Entry<Envelope>) {
    && i < |w.tasks| && w.tasks[i].Deleting? && !w.tasks[i].delete.stage.DeleteEnded?
    && Threatens(w.tasks[i].delete, k, entry)
  }

  /** Left to itself, a threatening delete removes the record without looking at its retention. */
  lemma ThreatRemoves(cfg: Config, w: World, i: nat, io: IO, k: Version, entry: Entry<Envelope>, blob: Option<Blob>)
      returns (events: seq<Event>)
    requires cfg.Valid() && ThreatAt(w, i, k, entry) && Identified(w.bucket)
        && Current(w.bucket.references, k) == Some(entry)
    ensures RunRefused(cfg, w, events, k, entry, blob) && !Kept(Run(cfg, w, events).bucket, k, entry, blob)
    decreases DeleteRank(w.tasks[i].delete.stage)
  {
    var t := w.tasks[i].delete;
    ThreatStep(w.bucket, t, io, k, entry);
    ThreatIsPastLookup(w.bucket, t, io, k, entry);
    hide DeleteStep, Threatens, Identified, StackOf, Find, Current;
    var w1 := Apply(cfg, w, Step(i, io));
    if ThreatAt(w1, i, k, entry) && Identified(w1.bucket) && Current(w1.bucket.references, k) == Some(entry) {
      events := ThreatRemoves(cfg, w1, i, io, k, entry, blob);
      events := [Step(i, io)] + events;
    } else {
      events := [Step(i, io)];
      assert Run(cfg, w1, []) == w1;
    }
    assert Run(cfg, w, events) == Run(cfg, w1, events[1..]);
  }

  lemma ThreatIsPastLookup(b: Bucket, t: DeleteTask, io: IO, k: Version, entry: Entry<Envelope>)
    requires Threatens(t, k, entry) && !t.stage.DeleteEnded?
    ensures !t.stage.Lookup? && DeleteRank(DeleteStep(b, t, io).1.stage) < DeleteRank(t.stage)
  {
    hide Current, ReadExact, Releases;
  }

  /**
   * Exactly when a retained record is safe: in any reachable state, it outlives every further run in
   * which each retention check of it is refused just when no delete is already past that check. When its
   * bytes are to stay too, the runs are those in which no upload overwrites them with others.
   */
  lemma {:induction false} SafeIffUnthreatened(cfg: Config, versioned: bool, earlier: seq<Event>,
                                               k: Version, entry: Entry<Envelope>, blob: Option<Blob>)
    requires cfg.Valid() && Kept(Run(cfg, Initial(versioned), earlier).bucket, k, entry, blob)
    ensures var w := Run(cfg, Initial(versioned), earlier);
            Unthreatened(w, k, entry) <==>
            forall later | RunRefused(cfg, w, later, k, entry, blob) :: Kept(Run(cfg, w, later).bucket, k, entry, blob)
  {
    var w := Run(cfg, Initial(versioned), earlier);
    assert Identified(Empty(versioned));
    RunIdentified(cfg, Initial(versioned), earlier);
    KeptIsCurrent(w.bucket, k, entry, blob);
    hide Kept, RunRefused, Run;
    if Unthreatened(w, k, entry) {
      forall later | RunRefused(cfg, w, later, k, entry, blob)
        ensures Kept(Run(cfg, w, later).bucket, k, entry, blob)
      {
        RetainedRecordStays(cfg, w, later, k, entry, blob);
      }
    } else {
      var i :| 0 <= i < |w.tasks| && w.tasks[i].Deleting? && Threatens(w.tasks[i].delete, k, entry);
      var later := ThreatRemoves(cfg, w, i, IO(0, [], None), k, entry, blob);
    }
  }

  lemma KeptIsCurrent(b: Bucket, k: Version, entry: Entry<Envelope>, blob: Option<Blob>)
    requires Kept(b, k, entry, blob)
    ensures Current(b.references, k) == Some(entry)
  {
  }
}
