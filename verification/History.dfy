/**
 * Serial histories of puts and deletes on one bucket: the current version is the newest surviving one,
 * and stat reads exactly what the catalog says (adapter.py, _put, _delete, _stat, _newest_version).
 */
module History {
  import opened Wrappers
  import opened Integrity
  import opened Retention
  import opened Bucket
  import opened Publication
  import opened Serial
  import opened Catalog
  import Listing

  datatype Operation = Put(request: PutRequest, io: IO) | Delete(key: Version, io: IO)

  ghost function Perform(cfg: Config, b: Bucket, op: Operation): Bucket
    requires cfg.Valid()
  {
    match op
    case Put(request, io) => RunPut(cfg, b, request, io).0
    case Delete(k, io) => RunDelete(b, k, io).0
  }

  /** The clock has moved on, and a delete's scan found the newest other version. */
  ghost predicate Proper(b: Bucket, clock: int, op: Operation) {
    op.io.now > clock && (op.Delete? ==> RightSuccessor(Abstract(b), op.key, op.io.previous))
  }

  // ---------------------------------------------------------------- the newest version is current

  /** A put that publishes its version and leaves the pointer at another, unpublished one. */
  ghost predicate LeavesStrand(cfg: Config, b: Bucket, op: Operation) {
    && op.Put?
    && Strands(cfg, b, op.request, op.io)
    && Current(b.latest, op.request.objectRef).value.value != cfg.hash(op.request.payload)
  }

  lemma PublishIsTidy(c: Catalog, k: Version, envelope: Envelope)
    requires Tidy(c) && k !in c.published
    requires forall j | j in c.published :: c.published[j].metadata.createdAt < envelope.metadata.createdAt
    ensures Tidy(Publish(c, k, envelope))
  {
    var c' := Publish(c, k, envelope);
    forall o
      ensures TidyAt(c', o)
    {
      assert TidyAt(c, o);
      assert forall d :: Has(c', o, d) <==> Has(c, o, d) || Version(o, d) == k;
      if o != k.objectRef && o in c.current {
        assert forall d | Has(c, o, d) :: c'.published[Version(o, d)] == c.published[Version(o, d)];
      }
    }
  }

  lemma RetractIsTidy(c: Catalog, k: Version, successor: Option<Digest>)
    requires Tidy(c) && k in c.published && RightSuccessor(c, k, successor)
    ensures Tidy(Retract(c, k, successor))
  {
    var c' := Retract(c, k, successor);
    assert Has(c, k.objectRef, k.digest);
    forall o
      ensures TidyAt(c', o)
    {
      assert TidyAt(c, o);
      assert forall d :: Has(c', o, d) <==> Has(c, o, d) && Version(o, d) != k;
    }
  }

  /** Each operation keeps the newest version current, except exactly the put that leaves a strand. */
  lemma TidyUnlessStranded(cfg: Config, b: Bucket, clock: int, op: Operation)
    requires cfg.Valid() && Sound(b, clock) && Tidy(Abstract(b)) && Proper(b, clock, op)
    ensures Sound(Perform(cfg, b, op), op.io.now)
    ensures Tidy(Abstract(Perform(cfg, b, op))) <==> !LeavesStrand(cfg, b, op)
  {
    match op {
      case Put(request, io) => PutTidyUnlessStranded(cfg, b, clock, request, io);
      case Delete(k, io) =>
        DeleteRefines(b, clock, k, io);
        hide Abstract, Sound, RunDelete, Tidy, RightSuccessor;
        if k in Abstract(b).published {
          RetractIsTidy(Abstract(b), k, io.previous);
        }
    }
  }

  lemma PutTidyUnlessStranded(cfg: Config, b: Bucket, clock: int, request: PutRequest, io: IO)
    requires cfg.Valid() && Sound(b, clock) && Tidy(Abstract(b)) && io.now > clock
    ensures var b' := RunPut(cfg, b, request, io).0;
            Sound(b', io.now) && (Tidy(Abstract(b')) <==> !LeavesStrand(cfg, b, Put(request, io)))
  {
    var c := Abstract(b);
    var k := Version(request.objectRef, cfg.hash(request.payload));
    var envelope := WrittenEnvelope(cfg, b, request, io);
    OlderThanClock(b, clock);
    PutRefines(cfg, b, clock, request, io);
    assert envelope.metadata.createdAt == io.now;
    hide Abstract, Sound, RunPut, Strands, WrittenEnvelope, Tidy, Publish, Current;
    if k !in c.published {
      PublishIsTidy(c, k, envelope);
      StrandIsUntidy(c, k, envelope);
    }
    if Strands(cfg, b, request, io) {
      StrandedFails(cfg, b, clock, request, io);
    }
  }

  lemma StrandedFails(cfg: Config, b: Bucket, clock: int, request: PutRequest, io: IO)
    requires cfg.Valid() && Sound(b, clock) && io.now > clock && Strands(cfg, b, request, io)
    ensures RunPut(cfg, b, request, io).1.PutFailed?
  {
    var t := StartPut(cfg, request);
    StrandsMeans(cfg, b, request, io);
    AdmissionDecides(cfg, b, clock, request, io);
    WritingPutRefines(cfg, b, clock, t, io);
    hide RunPut, WritePut;
  }

  lemma OlderThanClock(b: Bucket, clock: int)
    requires Sound(b, clock)
    ensures forall j | j in Abstract(b).published :: Abstract(b).published[j].metadata.createdAt <= clock
  {
  }

  lemma StrandIsUntidy(c: Catalog, k: Version, envelope: Envelope)
    ensures k.objectRef !in c.current ==> !Tidy(c.(published := c.published[k := envelope]))
  {
    var c' := c.(published := c.published[k := envelope]);
    if k.objectRef !in c.current {
      assert Has(c', k.objectRef, k.digest);
      assert !TidyAt(c', k.objectRef);
    }
  }

  ghost function PerformAll(cfg: Config, b: Bucket, ops: seq<Operation>): Bucket
    requires cfg.Valid()
    decreases |ops|
  {
    if ops == [] then b else PerformAll(cfg, Perform(cfg, b, ops[0]), ops[1..])
  }

  /** A history with an increasing clock, right scans, and no put that leaves a strand. */
  ghost predicate ProperHistory(cfg: Config, b: Bucket, clock: int, ops: seq<Operation>)
    requires cfg.Valid()
    decreases |ops|
  {
    ops == [] ||
    (Proper(b, clock, ops[0]) && ProperHistory(cfg, Perform(cfg, b, ops[0]), ops[0].io.now, ops[1..]))
  }

  ghost predicate NeverStrands(cfg: Config, b: Bucket, ops: seq<Operation>)
    requires cfg.Valid()
    decreases |ops|
  {
    ops == [] || (!LeavesStrand(cfg, b, ops[0]) && NeverStrands(cfg, Perform(cfg, b, ops[0]), ops[1..]))
  }

  lemma {:induction false} HistoryIsTidy(cfg: Config, b: Bucket, clock: int, ops: seq<Operation>)
    requires cfg.Valid() && Sound(b, clock) && Tidy(Abstract(b))
    requires ProperHistory(cfg, b, clock, ops) && NeverStrands(cfg, b, ops)
    ensures Tidy(Abstract(PerformAll(cfg, b, ops)))
    decreases |ops|
  {
    if ops != [] {
      TidyUnlessStranded(cfg, b, clock, ops[0]);
      HistoryIsTidy(cfg, Perform(cfg, b, ops[0]), ops[0].io.now, ops[1..]);
    }
  }

  lemma EmptyIsSound(versioned: bool, clock: int)
    ensures Sound(Empty(versioned), clock) && Tidy(Abstract(Empty(versioned)))
    ensures forall o :: !Dangling(Empty(versioned), o)
  {
  }

  // ---------------------------------------------------------------- without versioning nothing strands

  ghost predicate NoneDangling(b: Bucket) {
    forall o :: !Dangling(b, o)
  }

  /** What a put may touch: its own blob, its own reference once the blob is verified, its own pointer. */
  ghost predicate PutTouches(b: Bucket, b': Bucket, k: Version, blob: Blob, published: bool, verified: bool) {
    && b'.versioned == b.versioned
    && (!published ==> b'.latest == b.latest)
    && (forall p | p != k.objectRef :: Current(b'.latest, p) == Current(b.latest, p))
    && ((b'.blobs == b.blobs && b'.next == b.next && b'.references == b.references)
        || (b'.blobs == b.WriteBlob(k, blob).blobs && b'.next > b.next && (b'.references != b.references ==> verified)))
  }

  lemma FinishPutTouches(cfg: Config, b: Bucket, t: PutTask, envelope: Envelope)
    ensures var (b', outcome) := FinishPut(cfg, b, t, envelope);
            && b'.versioned == b.versioned && b'.blobs == b.blobs && b'.references == b.references && b'.next >= b.next
            && (!outcome.Published? ==> b'.latest == b.latest)
            && (forall p | p != t.request.objectRef :: Current(b'.latest, p) == Current(b.latest, p))
  {
    hide TryLatest, Current, StackOf, Bucket.Pushed;
    OtherPointersStay(b, t.request.objectRef, t.Digest(cfg), 0);
  }

  /** Writing or removing a pointer version concerns one object. */
  lemma OtherPointersStay(b: Bucket, o: ObjectRef, d: Digest, id: nat)
    ensures forall p | p != o :: Current(b.WriteLatest(o, d).latest, p) == Current(b.latest, p)
    ensures forall p | p != o :: Current(b.RemoveLatest(o, id).latest, p) == Current(b.latest, p)
  {
    hide Without;
  }

  lemma WritePutTouches(cfg: Config, b: Bucket, t: PutTask, io: IO)
    requires cfg.Valid()
    ensures var (b', outcome) := WritePut(cfg, b, t, io);
            PutTouches(b, b', t.Key(cfg), Blob(io.landed, t.Digest(cfg)), outcome.Published?,
                       ReadBack(cfg, io.landed, t).None?)
  {
    hide FinishPut, Current, StackOf, NewEnvelope, ReadBack;
    var k := t.Key(cfg);
    var envelope := NewEnvelope(cfg, t, b.NewId(), io.now);
    FinishPutTouches(cfg, b.WriteBlob(k, Blob(io.landed, k.digest)).WriteReference(k, envelope), t, envelope);
  }

  lemma RunPutTouches(cfg: Config, b: Bucket, request: PutRequest, io: IO)
    requires cfg.Valid()
    ensures var (b', outcome) := RunPut(cfg, b, request, io);
            var k := Version(request.objectRef, cfg.hash(request.payload));
            PutTouches(b, b', k, Blob(io.landed, k.digest), outcome.Published?,
                       ReadBack(cfg, io.landed, StartPut(cfg, request)).None?)
  {
    hide WritePut, TryLatest, Current, FromRequest, ReadBack;
    WritePutTouches(cfg, b, StartPut(cfg, request), io);
  }

  lemma FinishMovesOnlyItsPointer(b: Bucket, k: Version, wasLatest: bool, io: IO)
    ensures var b' := FinishDelete(b, k, wasLatest, io).0;
            && b'.versioned == b.versioned && b'.blobs == b.blobs && b'.next >= b.next
            && (!wasLatest ==> b'.latest == b.latest)
            && (forall p | p != k.objectRef :: Current(b'.latest, p) == Current(b.latest, p))
  {
    hide FinishDelete, Repointed, Current, StackOf;
    if wasLatest && io.previous.None? && Current(b.latest, k.objectRef).None? {
      NoPointerNoFinish(b, k, io);
    } else {
      RepointingMovesOnlyItsPointer(b, k, wasLatest, io.previous);
      FinishDeleteShape(b, k, wasLatest, io);
    }
  }

  lemma RepointingMovesOnlyItsPointer(b: Bucket, k: Version, wasLatest: bool, successor: Option<Digest>)
    requires wasLatest && successor.None? ==> Current(b.latest, k.objectRef).Some?
    ensures var b' := Repointed(b, k, wasLatest, successor);
            && b'.versioned == b.versioned && b'.blobs == b.blobs && b'.next >= b.next
            && (!wasLatest ==> b'.latest == b.latest)
            && (forall p | p != k.objectRef :: Current(b'.latest, p) == Current(b.latest, p))
  {
    hide Current, StackOf, Without;
    var pointer := Current(b.latest, k.objectRef);
    OtherPointersStay(b, k.objectRef, if successor.Some? then successor.value else "", if pointer.Some?
                      then pointer.value.id else 0);
  }

  lemma NoPointerNoFinish(b: Bucket, k: Version, io: IO)
    requires io.previous.None? && Current(b.latest, k.objectRef).None?
    ensures FinishDelete(b, k, true, io) == (b, DeleteFailed(NotFound))
  {
  }

  lemma DeleteMovesOnlyItsPointer(b: Bucket, k: Version, io: IO)
    ensures var b' := RunDelete(b, k, io).0;
            && b'.versioned == b.versioned
            && (forall p | p != k.objectRef :: Current(b'.latest, p) == Current(b.latest, p))
            && (TryLatest(b, k.objectRef).Ok? && (TryLatest(b, k.objectRef).value.None?
                                                  || TryLatest(b, k.objectRef).value.value.metadata.digest != k.digest)
                ==> b'.latest == b.latest)
            && (ReadExact(b, k).Err? || !Releases(ReadExact(b, k).value.retention, io.now) ==> b' == b)
  {
    if ReadExact(b, k).Ok? && TryLatest(b, k.objectRef).Ok? {
      var latest := TryLatest(b, k.objectRef).value;
      var head := Current(b.references, k).value.id;
      var b1 := b.RemoveBlob(k, ReadExact(b, k).value.blobVersion).RemoveReference(k, head);
      FinishMovesOnlyItsPointer(b1, k, latest.Some? && latest.value.metadata.digest == k.digest, io);
      assert b1.latest == b.latest && b1.versioned == b.versioned;
    }
    hide FinishDelete, TryLatest, Without, Releases, StackOf;
  }

  lemma NothingDanglesUnversioned(cfg: Config, b: Bucket, clock: int, op: Operation)
    requires cfg.Valid() && Sound(b, clock) && Tidy(Abstract(b)) && Proper(b, clock, op)
    requires !b.versioned && NoneDangling(b)
    ensures !Perform(cfg, b, op).versioned && NoneDangling(Perform(cfg, b, op))
    ensures !LeavesStrand(cfg, b, op)
  {
    var b' := Perform(cfg, b, op);
    assert !LeavesStrand(cfg, b, op) by {
      if op.Put? {
        assert !Dangling(b, op.request.objectRef);
      }
    }
    forall o
      ensures !Dangling(b', o)
    {
      assert !Dangling(b, o);
      DanglingNeedsPointer(b, o);
      DanglingNeedsPointer(b', o);
      match op {
        case Put(request, io) => PutKeepsResolving(cfg, b, clock, request, io, o);
        case Delete(k, io) => DeleteKeepsResolving(b, clock, k, io, o);
      }
    }
    match op {
      case Put(request, io) => RunPutTouches(cfg, b, request, io);
      case Delete(k, io) => DeleteMovesOnlyItsPointer(b, k, io);
    }
  }

  lemma PutKeepsResolving(cfg: Config, b: Bucket, clock: int, request: PutRequest, io: IO, o: ObjectRef)
    requires cfg.Valid() && Sound(b, clock) && io.now > clock && !Dangling(b, o) && !Dangling(b, request.objectRef)
    ensures !Dangling(RunPut(cfg, b, request, io).0, o)
  {
    var (b', outcome) := RunPut(cfg, b, request, io);
    PutRefines(cfg, b, clock, request, io);
    RunPutTouches(cfg, b, request, io);
    DanglingNeedsPointer(b, o);
    DanglingNeedsPointer(b', o);
    hide Abstract, RunPut, Sound, CurrentAt;
    assert !Strands(cfg, b, request, io);
  }

  lemma DeleteKeepsResolving(b: Bucket, clock: int, k: Version, io: IO, o: ObjectRef)
    requires Sound(b, clock) && Proper(b, clock, Delete(k, io)) && Tidy(Abstract(b)) && !b.versioned && NoneDangling(b)
    ensures !Dangling(RunDelete(b, k, io).0, o)
  {
    hide Abstract, RunDelete, RightSuccessor, Without;
    var b' := RunDelete(b, k, io).0;
    DeleteRefines(b, clock, k, io);
    DeleteMovesOnlyItsPointer(b, k, io);
    assert !Dangling(b, o);
    DanglingNeedsPointer(b, o);
    DanglingNeedsPointer(b', o);
    ReadsAgree(b, clock, k.objectRef);
    AbstractLookup(b);
    assert |StackOf(b.latest, k.objectRef)| <= 1;
    assert Get(Abstract(b).published, k) == PublishedAt(b, k);
    hide StackOf, Current, Tidy;
  }

  lemma {:induction false} UnversionedHistoryIsTidy(cfg: Config, b: Bucket, clock: int, ops: seq<Operation>)
    requires cfg.Valid() && Sound(b, clock) && Tidy(Abstract(b)) && !b.versioned && NoneDangling(b)
    requires ProperHistory(cfg, b, clock, ops)
    ensures Tidy(Abstract(PerformAll(cfg, b, ops))) && NoneDangling(PerformAll(cfg, b, ops))
    decreases |ops|
  {
    if ops != [] {
      NothingDanglesUnversioned(cfg, b, clock, ops[0]);
      TidyUnlessStranded(cfg, b, clock, ops[0]);
      UnversionedHistoryIsTidy(cfg, Perform(cfg, b, ops[0]), ops[0].io.now, ops[1..]);
    }
  }

  // ---------------------------------------------------------------- the scan for a successor

  /** The published versions of an object by digest, in which order their keys are listed. */
  ghost function VersionsOf(c: Catalog, o: ObjectRef): Listing.Documents {
    map k | k in c.published && k.objectRef == o :: k.digest := c.published[k]
  }

  lemma VersionsOfAt(c: Catalog, o: ObjectRef, d: Digest)
    ensures d in VersionsOf(c, o) <==> Has(c, o, d)
    ensures Has(c, o, d) ==> VersionsOf(c, o)[d] == c.published[Version(o, d)]
  {
    if Has(c, o, d) {
      assert Version(o, d).digest == d;
    }
  }

  ghost predicate DistinctTimes(c: Catalog) {
    forall j, k | j in c.published && k in c.published && j.objectRef == k.objectRef && j != k ::
      c.published[j].metadata.createdAt != c.published[k].metadata.createdAt
  }

  /** A complete scan over records with distinct times finds the right successor. */
  lemma {:induction false} ScanFindsSuccessor(c: Catalog, k: Version, seen: seq<string>, selected: Option<Envelope>)
    requires var docs := VersionsOf(c, k.objectRef);
             && Listing.Complete(docs, "", None, seen)
             && (forall x | x in seen :: x in docs)
             && Listing.NewestOf(docs, seen, Some(k.digest), selected)
    requires DistinctTimes(c) && forall j | j in c.published :: c.published[j].metadata.digest == j.digest
    ensures RightSuccessor(c, k, if selected.Some? then Some(selected.value.metadata.digest) else None)
  {
    var o := k.objectRef;
    var docs := VersionsOf(c, o);
    var found := Listing.NewestMeans(docs, seen, Some(k.digest), selected);
    hide VersionsOf, Listing.NewestOf;
    forall d
      ensures Has(c, o, d) <==> d in seen
      ensures Has(c, o, d) ==> docs[d] == c.published[Version(o, d)] && docs[d].metadata.digest == d
    {
      VersionsOfAt(c, o, d);
      assert d in docs ==> Listing.Listable(docs, "", None, d);
    }
    if selected.Some? {
      assert Has(c, o, found) && selected.value.metadata.digest == found;
      forall d | Has(c, o, d) && d != found && d != k.digest
        ensures c.published[Version(o, d)].metadata.createdAt < c.published[Version(o, found)].metadata.createdAt
      {
        assert d in seen;
        assert Version(o, d) in c.published && Version(o, found) in c.published && Version(o, d) != Version(o, found);
      }
    }
  }

  // ---------------------------------------------------------------- stat

  /** The recorded blob version is stored with the recorded length, under the recorded digest. */
  ghost predicate Holds(b: Bucket, k: Version, envelope: Envelope) {
    var blob := Find(StackOf(b.blobs, k), envelope.blobVersion);
    && blob.Some? && |blob.value.content| == envelope.metadata.length && blob.value.tag == envelope.metadata.digest
    && (!b.versioned ==> envelope.blobVersion == UNVERSIONED)
  }

  ghost predicate BlobsHold(b: Bucket) {
    && (forall k :: IdsBelow(StackOf(b.blobs, k), b.next))
    && (forall k | PublishedAt(b, k).Some? :: Holds(b, k, PublishedAt(b, k).value))
  }

  /** Stat reads the catalog: the given version, or the current one. */
  lemma StatReadsCatalog(b: Bucket, clock: int, o: ObjectRef, digest: Option<Digest>)
    requires Sound(b, clock) && BlobsHold(b)
    ensures var c := Abstract(b);
            var d := if digest.Some? then digest else Get(c.current, o);
            Stat(b, o, digest) ==
            if d.Some? && Has(c, o, d.value) then Ok(c.published[Version(o, d.value)]) else Err(NotFound)
  {
    ReadsAgree(b, clock, o);
    AbstractLookup(b);
    var c := Abstract(b);
    assert Get(c.current, o) == CurrentAt(b, o);
    var d := if digest.Some? then digest else CurrentAt(b, o);
    if d.Some? {
      assert Get(c.published, Version(o, d.value)) == PublishedAt(b, Version(o, d.value));
      assert PublishedAt(b, Version(o, d.value)).Some? ==> Holds(b, Version(o, d.value),
                                                                 PublishedAt(b, Version(o, d.value)).value);
    }
    hide Abstract, Find;
  }

  /** What lands is read back or is what was sent, and replaces no blob by one of another length. */
  ghost predicate Landed(cfg: Config, b: Bucket, request: PutRequest, io: IO) {
    var k := Version(request.objectRef, cfg.hash(request.payload));
    && (cfg.verifyAfterWrite || io.landed == request.payload)
    && (!b.versioned && PublishedAt(b, k).Some? ==> |io.landed| == PublishedAt(b, k).value.metadata.length)
  }

  lemma PutKeepsBlobs(cfg: Config, b: Bucket, clock: int, request: PutRequest, io: IO)
    requires cfg.Valid() && Sound(b, clock) && io.now > clock && BlobsHold(b) && Landed(cfg, b, request, io)
    ensures BlobsHold(RunPut(cfg, b, request, io).0)
  {
    hide RunPut, Sound, IdsBelow, Holds, PublishedAt, StackOf, Current, ReadBack;
    var b' := RunPut(cfg, b, request, io).0;
    var k := Version(request.objectRef, cfg.hash(request.payload));
    RunPutTouches(cfg, b, request, io);
    PublishedUnderOwnDigest(b, clock, k);
    forall j
      ensures IdsBelow(StackOf(b'.blobs, j), b'.next)
      ensures PublishedAt(b', j).Some? ==> Holds(b', j, PublishedAt(b', j).value)
    {
      assert IdsBelow(StackOf(b.blobs, j), b.next);
      assert PublishedAt(b, j).Some? ==> Holds(b, j, PublishedAt(b, j).value);
      BlobsStayBelow(b, b', k, Blob(io.landed, k.digest), j);
      PublishedAfterPut(cfg, b, clock, request, io, j);
      if PublishedAt(b, j).Some? {
        OldBlobStays(b, b', j, k, Blob(io.landed, k.digest));
      } else if PublishedAt(b', j).Some? {
        NewBlobHolds(cfg, b, b', request, io);
      }
    }
  }

  lemma PublishedUnderOwnDigest(b: Bucket, clock: int, k: Version)
    requires Sound(b, clock)
    ensures PublishedAt(b, k).Some? ==> PublishedAt(b, k).value.metadata.digest == k.digest
  {
  }

  lemma BlobsStayBelow(b: Bucket, b': Bucket, k: Version, blob: Blob, j: Version)
    requires IdsBelow(StackOf(b.blobs, j), b.next)
    requires (b'.blobs == b.blobs && b'.next == b.next) || (b'.blobs == b.WriteBlob(k, blob).blobs && b'.next > b.next)
    ensures IdsBelow(StackOf(b'.blobs, j), b'.next)
  {
    assert b'.blobs != b.blobs ==> StackOf(b'.blobs, j) == if j ==
        k then b.Pushed(StackOf(b.blobs, k), blob) else StackOf(b.blobs, j);
  }

  /** A put publishes no other version than its own, and replaces none. */
  lemma PublishedAfterPut(cfg: Config, b: Bucket, clock: int, request: PutRequest, io: IO, j: Version)
    requires cfg.Valid() && Sound(b, clock) && io.now > clock
    ensures var b' := RunPut(cfg, b, request, io).0;
            if PublishedAt(b, j).Some? then PublishedAt(b', j) == PublishedAt(b, j)
            else PublishedAt(b', j).Some? ==>
                   && j == Version(request.objectRef, cfg.hash(request.payload))
                   && b'.references != b.references
                   && PublishedAt(b', j) == Some(WrittenEnvelope(cfg, b, request, io))
  {
    var b' := RunPut(cfg, b, request, io).0;
    PutRefines(cfg, b, clock, request, io);
    AbstractLookup(b);
    AbstractLookup(b');
    var c, c' := Abstract(b), Abstract(b');
    assert b'.references == b.references ==> PublishedAt(b', j) == PublishedAt(b, j);
    hide RunPut, Abstract, Sound, Strands, PublishedAt, WrittenEnvelope, Current;
    assert Get(c'.published, j) == PublishedAt(b', j) && Get(c.published, j) == PublishedAt(b, j);
  }

  lemma OldBlobStays(b: Bucket, b': Bucket, j: Version, k: Version, blob: Blob)
    requires PublishedAt(b, j).Some? && Holds(b, j, PublishedAt(b, j).value) && b'.versioned == b.versioned
    requires b'.blobs == b.blobs || b'.blobs == b.WriteBlob(k, blob).blobs
    requires !b.versioned && PublishedAt(b, k).Some? ==>
               |blob.content| == PublishedAt(b, k).value.metadata.length
                   && blob.tag == PublishedAt(b, k).value.metadata.digest
    ensures Holds(b', j, PublishedAt(b, j).value)
  {
    if b'.blobs != b.blobs && j == k && b.versioned {
      FindAppend(StackOf(b.blobs, k), Entry(b.next, blob), PublishedAt(b, j).value.blobVersion);
    }
  }

  lemma NewBlobHolds(cfg: Config, b: Bucket, b': Bucket, request: PutRequest, io: IO)
    requires cfg.Valid() && (cfg.verifyAfterWrite || io.landed == request.payload) && b'.versioned == b.versioned
    requires var k := Version(request.objectRef, cfg.hash(request.payload));
             && IdsBelow(StackOf(b.blobs, k), b.next)
             && b'.blobs == b.WriteBlob(k, Blob(io.landed, k.digest)).blobs
             && ReadBack(cfg, io.landed, StartPut(cfg, request)).None?
    ensures Holds(b', Version(request.objectRef, cfg.hash(request.payload)), WrittenEnvelope(cfg, b, request, io))
  {
    var k := Version(request.objectRef, cfg.hash(request.payload));
    StoredReadsBack(b, k, Blob(io.landed, k.digest));
  }

  lemma DeleteTouchesBlobs(b: Bucket, clock: int, k: Version, io: IO)
    requires Sound(b, clock)
    ensures var b' := RunDelete(b, k, io).0;
            && b'.versioned == b.versioned && b'.next >= b.next
            && (b'.blobs == b.blobs
                || (PublishedAt(b, k).Some? && Releases(PublishedAt(b, k).value.retention, io.now)
                    && b'.blobs == b.RemoveBlob(k, PublishedAt(b, k).value.blobVersion).blobs))
  {
    ReadsAgree(b, clock, k.objectRef);
    if PublishedAt(b, k).Some? && Releases(PublishedAt(b, k).value.retention, io.now) {
      RunDeleteShape(b, clock, k, io);
      FinishMovesOnlyItsPointer(Dropped(b, k), k, CurrentAt(b, k.objectRef) == Some(k.digest), io);
    } else {
      DeleteMovesOnlyItsPointer(b, k, io);
    }
    hide RunDelete, FinishDelete, Current, StackOf, Without;
  }

  lemma {:induction false} WithoutBelow<T>(s: seq<Entry<T>>, id: nat, bound: nat)
    requires IdsBelow(s, bound)
    ensures IdsBelow(Without(s, id), bound)
  {
    if s != [] {
      WithoutBelow(s[1..], id, bound);
    }
  }

  lemma DeleteKeepsBlobs(b: Bucket, clock: int, k: Version, io: IO)
    requires Sound(b, clock) && io.now > clock && BlobsHold(b) && RightSuccessor(Abstract(b), k, io.previous)
    ensures BlobsHold(RunDelete(b, k, io).0)
  {
    hide RunDelete, Sound, IdsBelow, Holds, PublishedAt, Current, Without, Abstract, RightSuccessor;
    var b' := RunDelete(b, k, io).0;
    DeleteTouchesBlobs(b, clock, k, io);
    forall j
      ensures IdsBelow(StackOf(b'.blobs, j), b'.next)
      ensures PublishedAt(b', j).Some? ==> Holds(b', j, PublishedAt(b', j).value)
    {
      assert IdsBelow(StackOf(b.blobs, j), b.next);
      assert PublishedAt(b, j).Some? ==> Holds(b, j, PublishedAt(b, j).value);
      PublishedAfterDelete(b, clock, k, io, j);
      if b'.blobs != b.blobs && j == k {
        WithoutBelow(StackOf(b.blobs, k), PublishedAt(b, k).value.blobVersion, b.next);
      } else {
        assert StackOf(b'.blobs, j) == StackOf(b.blobs, j);
        SameStackHolds(b, b', j);
      }
      IdsBelowMore(StackOf(b'.blobs, j), b.next, b'.next);
    }
  }

  lemma {:induction false} IdsBelowMore<T>(s: seq<Entry<T>>, bound: nat, more: nat)
    requires bound <= more
    ensures IdsBelow(s, bound) ==> IdsBelow(s, more)
  {
  }

  lemma SameStackHolds(b: Bucket, b': Bucket, j: Version)
    requires StackOf(b'.blobs, j) == StackOf(b.blobs, j) && b'.versioned == b.versioned
    ensures PublishedAt(b, j).Some? ==> Holds(b', j, PublishedAt(b, j).value) == Holds(b, j, PublishedAt(b, j).value)
  {
  }

  lemma PublishedAfterDelete(b: Bucket, clock: int, k: Version, io: IO, j: Version)
    requires Sound(b, clock) && io.now > clock && RightSuccessor(Abstract(b), k, io.previous)
    ensures PublishedAt(RunDelete(b, k, io).0, j) ==
            if j == k && PublishedAt(b, k).Some? && Releases(PublishedAt(b, k).value.retention, io.now) then None
                else PublishedAt(b, j)
  {
    var b' := RunDelete(b, k, io).0;
    DeleteRefines(b, clock, k, io);
    AbstractLookup(b);
    AbstractLookup(b');
    var c, c' := Abstract(b), Abstract(b');
    hide RunDelete, Abstract, Sound, PublishedAt, RightSuccessor, Dangling;
    assert Get(c'.published, j) == PublishedAt(b', j) && Get(c.published, j) == PublishedAt(b, j);
    assert Get(c.published, k) == PublishedAt(b, k);
  }

  // ---------------------------------------------------------------- whole histories

  /** What serial operation keeps: the current version is the newest, and its bytes are there. */
  ghost predicate Orderly(b: Bucket, clock: int) {
    Sound(b, clock) && Tidy(Abstract(b)) && BlobsHold(b) && DistinctTimes(Abstract(b))
  }

  /** The scan of a delete read the record of every version of the object. */
  ghost predicate ScanAnswers(c: Catalog, k: Version, previous: Option<Digest>) {
    exists seen: seq<string>, selected: Option<Envelope> ::
      && Listing.Complete(VersionsOf(c, k.objectRef), "", None, seen)
      && (forall x | x in seen :: x in VersionsOf(c, k.objectRef))
      && Listing.NewestOf(VersionsOf(c, k.objectRef), seen, Some(k.digest), selected)
      && previous == if selected.Some? then Some(selected.value.metadata.digest) else None
  }

  /** The clock has moved on; uploads land or are read back; scans are complete; no put leaves a strand. */
  ghost predicate Careful(cfg: Config, b: Bucket, clock: int, op: Operation) {
    && op.io.now > clock && !LeavesStrand(cfg, b, op)
    && match op
       case Put(request, io) => Landed(cfg, b, request, io)
       case Delete(k, io) => ScanAnswers(Abstract(b), k, io.previous)
  }

  ghost predicate CarefulHistory(cfg: Config, b: Bucket, clock: int, ops: seq<Operation>)
    requires cfg.Valid()
    decreases |ops|
  {
    ops == [] ||
    (Careful(cfg, b, clock, ops[0]) && CarefulHistory(cfg, Perform(cfg, b, ops[0]), ops[0].io.now, ops[1..]))
  }

  lemma ScanIsRight(b: Bucket, clock: int, k: Version, previous: Option<Digest>)
    requires Sound(b, clock) && DistinctTimes(Abstract(b)) && ScanAnswers(Abstract(b), k, previous)
    ensures RightSuccessor(Abstract(b), k, previous)
  {
    var c := Abstract(b);
    assert forall j | j in c.published :: c.published[j].metadata.digest == j.digest;
    hide Abstract, VersionsOf, Listing.NewestOf, Listing.Complete, Sound;
    var seen: seq<string>, selected: Option<Envelope> :|
      && Listing.Complete(VersionsOf(c, k.objectRef), "", None, seen)
      && (forall x | x in seen :: x in VersionsOf(c, k.objectRef))
      && Listing.NewestOf(VersionsOf(c, k.objectRef), seen, Some(k.digest), selected)
      && previous == if selected.Some? then Some(selected.value.metadata.digest) else None;
    ScanFindsSuccessor(c, k, seen, selected);
  }

  lemma TimesStayDistinct(cfg: Config, b: Bucket, clock: int, op: Operation)
    requires cfg.Valid() && Sound(b, clock) && DistinctTimes(Abstract(b)) && Proper(b, clock, op)
    ensures DistinctTimes(Abstract(Perform(cfg, b, op)))
  {
    var b' := Perform(cfg, b, op);
    var c, c' := Abstract(b), Abstract(b');
    OlderThanClock(b, clock);
    AbstractLookup(b);
    AbstractLookup(b');
    hide Abstract, Sound, RunPut, RunDelete, PublishedAt, RightSuccessor;
    forall j | j in c'.published
      ensures j in c.published ==> c'.published[j] == c.published[j]
      ensures j !in c.published ==>
                && op.Put? && j == Version(op.request.objectRef, cfg.hash(op.request.payload))
                && c'.published[j].metadata.createdAt == op.io.now
    {
      assert Get(c'.published, j) == PublishedAt(b', j) && Get(c.published, j) == PublishedAt(b, j);
      match op {
        case Put(request, io) => PublishedAfterPut(cfg, b, clock, request, io, j);
        case Delete(k, io) => PublishedAfterDelete(b, clock, k, io, j);
      }
    }
  }

  lemma OrderlyStep(cfg: Config, b: Bucket, clock: int, op: Operation)
    requires cfg.Valid() && Orderly(b, clock) && Careful(cfg, b, clock, op)
    ensures Orderly(Perform(cfg, b, op), op.io.now)
  {
    hide Abstract, Sound, RunPut, RunDelete, RightSuccessor, Tidy, BlobsHold, DistinctTimes, Landed, ScanAnswers,
        LeavesStrand;
    match op {
      case Put(request, io) => PutKeepsBlobs(cfg, b, clock, request, io);
      case Delete(k, io) =>
        ScanIsRight(b, clock, k, io.previous);
        DeleteKeepsBlobs(b, clock, k, io);
    }
    TidyUnlessStranded(cfg, b, clock, op);
    TimesStayDistinct(cfg, b, clock, op);
  }

  lemma {:induction false} OrderlyHistory(cfg: Config, b: Bucket, clock: int, ops: seq<Operation>)
    requires cfg.Valid() && Orderly(b, clock) && CarefulHistory(cfg, b, clock, ops)
    ensures exists later :: Orderly(PerformAll(cfg, b, ops), later)
    decreases |ops|
  {
    hide Orderly, Careful;
    if ops == [] {
      assert Orderly(PerformAll(cfg, b, ops), clock);
    } else {
      OrderlyStep(cfg, b, clock, ops[0]);
      OrderlyHistory(cfg, Perform(cfg, b, ops[0]), ops[0].io.now, ops[1..]);
      assert PerformAll(cfg, b, ops) == PerformAll(cfg, Perform(cfg, b, ops[0]), ops[1..]);
    }
  }

  /**
   * After any careful history on a fresh bucket: an exact stat finds a version just when it is published,
   * and a stat of the object finds the newest surviving version, or nothing just when none survives.
   */
  lemma {:induction false} StatFindsNewest(cfg: Config, versioned: bool, clock: int, ops: seq<Operation>, o: ObjectRef)
    requires cfg.Valid() && CarefulHistory(cfg, Empty(versioned), clock, ops)
    ensures var b := PerformAll(cfg, Empty(versioned), ops);
            var c := Abstract(b);
            && (forall d :: Stat(b, o, Some(d)) == if Has(c, o, d) then Ok(c.published[Version(o, d)])
                else Err(NotFound))
            && match Stat(b, o, None)
               case Ok(envelope) =>
                 var d := envelope.metadata.digest;
                 Newest(c, o, d, None) && envelope == c.published[Version(o, d)]
               case Err(failure) => failure == NotFound && forall d :: !Has(c, o, d)
  {
    EmptyIsOrderly(versioned, clock);
    OrderlyHistory(cfg, Empty(versioned), clock, ops);
    var b := PerformAll(cfg, Empty(versioned), ops);
    var later :| Orderly(b, later);
    OrderlyStat(b, later, o);
  }

  lemma EmptyIsOrderly(versioned: bool, clock: int)
    ensures Orderly(Empty(versioned), clock)
  {
    EmptyIsSound(versioned, clock);
  }

  lemma OrderlyStat(b: Bucket, clock: int, o: ObjectRef)
    requires Orderly(b, clock)
    ensures var c := Abstract(b);
            && (forall d :: Stat(b, o, Some(d)) == if Has(c, o, d) then Ok(c.published[Version(o, d)])
                else Err(NotFound))
            && match Stat(b, o, None)
               case Ok(envelope) =>
                 var d := envelope.metadata.digest;
                 Newest(c, o, d, None) && envelope == c.published[Version(o, d)]
               case Err(failure) => failure == NotFound && forall d :: !Has(c, o, d)
  {
    var c := Abstract(b);
    assert forall j | j in c.published :: c.published[j].metadata.digest == j.digest;
    hide Abstract, Sound, Stat, BlobsHold, DistinctTimes;
    assert TidyAt(c, o);
    StatReadsCatalog(b, clock, o, None);
    forall d
      ensures Stat(b, o, Some(d)) == if Has(c, o, d) then Ok(c.published[Version(o, d)]) else Err(NotFound)
    {
      StatReadsCatalog(b, clock, o, Some(d));
    }
  }

  /** A caller whose put succeeded finds its own version with the next stat. */
  lemma ReadsOwnWrite(cfg: Config, b: Bucket, clock: int, request: PutRequest, io: IO)
    requires cfg.Valid() && Orderly(b, clock) && Careful(cfg, b, clock, Put(request, io))
    ensures var (b', outcome) := RunPut(cfg, b, request, io);
            !outcome.PutFailed? ==>
              && Stat(b', request.objectRef, None).Ok?
              && Stat(b', request.objectRef, None).value.metadata == outcome.metadata
              && outcome.metadata.objectRef == request.objectRef
              && outcome.metadata.digest == cfg.hash(request.payload)
              && outcome.metadata.attributes == request.attributes
              && outcome.metadata.immutable == request.immutable
              && (outcome.Published? ==>
                    outcome.metadata.length == |request.payload| && outcome.metadata.createdAt == io.now)
  {
    var (b', outcome) := RunPut(cfg, b, request, io);
    PutRefines(cfg, b, clock, request, io);
    PutKeepsBlobs(cfg, b, clock, request, io);
    StatReadsCatalog(b', io.now, request.objectRef, None);
    OlderThanClock(b, clock);
    assert forall j | j in Abstract(b).published ::
        var m := Abstract(b).published[j].metadata; m.digest == j.digest && m.objectRef == j.objectRef;
    hide Abstract, RunPut, Sound, Stat, BlobsHold, Strands, LeavesStrand, DistinctTimes, Tidy;
  }
}
