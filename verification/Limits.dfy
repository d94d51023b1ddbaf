/**
 * Where the guarantees of operations that run one after the other end (adapter.py, _put and _delete;
 * transport.py, put_file): when a put can succeed at all, and what a failing one can leave behind.
 */
module Limits {
  import opened Wrappers
  import opened Integrity
  import opened Retention
  import opened Bucket
  import opened Publication
  import opened Serial
  import opened Catalog
  import opened History

  // ---------------------------------------------------------------- progress

  /**
   * A put that runs alone publishes exactly when the checks admit it, the upload is not blocked by a
   * blob without a pointer to it and reads back, the version has no record yet, and a pointer that may
   * only be created does not exist in any form.
   */
  lemma PutPublishesIff(cfg: Config, b: Bucket, clock: int, request: PutRequest, io: IO)
    requires cfg.Valid() && Sound(b, clock) && io.now > clock
    ensures RunPut(cfg, b, request, io).1.Published? <==>
            && Admitted(cfg, b, request)
            && Writes(cfg, b, StartPut(cfg, request), io)
            && (request.createOnly || request.immutable ==> Current(b.latest, request.objectRef).None?)
  {
    var t := StartPut(cfg, request);
    AdmissionDecides(cfg, b, clock, request, io);
    if Admitted(cfg, b, request) {
      if Writes(cfg, b, t, io) {
        WritingPutRefines(cfg, b, clock, t, io);
      } else {
        FailingWriteKeepsCatalog(cfg, b, clock, t, io);
      }
    }
    hide RunPut, WritePut, Abstract, Sound, Writes;
  }

  /** In particular a version that is still published can never be made current again by a put. */
  lemma OlderVersionStaysOld(cfg: Config, b: Bucket, clock: int, request: PutRequest, io: IO)
    requires cfg.Valid() && Sound(b, clock) && io.now > clock
    requires var k := Version(request.objectRef, cfg.hash(request.payload));
             PublishedAt(b, k).Some? && CurrentAt(b, request.objectRef) != Some(k.digest)
    ensures var (b', outcome) := RunPut(cfg, b, request, io);
            outcome.PutFailed? && Abstract(b') == Abstract(b)
  {
    PutPublishesIff(cfg, b, clock, request, io);
    PutRefines(cfg, b, clock, request, io);
    AbstractLookup(b);
    assert !Writes(cfg, b, StartPut(cfg, request), io);
    hide RunPut, Sound, Abstract, Writes, Admitted;
    assert Get(Abstract(b).current, request.objectRef) == CurrentAt(b, request.objectRef);
  }

  /**
   * Without versioning a multipart upload replaces the stored blob before it is read back: uploading a
   * published version again leaves whatever landed in its place, even though the put fails. Stat notices
   * a wrong length only.
   */
  lemma ReuploadReplacesPublished(cfg: Config, b: Bucket, clock: int, request: PutRequest, io: IO)
    requires cfg.Valid() && Sound(b, clock) && !b.versioned && Admitted(cfg, b, request)
    requires |request.payload| >= cfg.multipartThreshold
    requires var k := Version(request.objectRef, cfg.hash(request.payload));
             PublishedAt(b, k).Some? && PublishedAt(b, k).value.blobVersion == UNVERSIONED
    ensures var (b', outcome) := RunPut(cfg, b, request, io);
            var k := Version(request.objectRef, cfg.hash(request.payload));
            && outcome.PutFailed? && PublishedAt(b', k) == PublishedAt(b, k)
            && Find(StackOf(b'.blobs, k), UNVERSIONED) == Some(Blob(io.landed, k.digest))
            && Stat(b', k.objectRef, Some(k.digest)) ==
                 if |io.landed| == PublishedAt(b, k).value.metadata.length then Ok(PublishedAt(b, k).value)
                 else Err(DigestMismatch)
  {
    hide WritePut;
    AdmissionDecides(cfg, b, clock, request, io);
    ReuploadStops(cfg, b, StartPut(cfg, request), io);
    ReadsAgree(b, clock, request.objectRef);
    PublishedUnderOwnDigest(b, clock, Version(request.objectRef, cfg.hash(request.payload)));
    hide RunPut, Sound, Admitted;
  }

  lemma ReuploadStops(cfg: Config, b: Bucket, t: PutTask, io: IO)
    requires cfg.Valid() && !t.Single(cfg) && PublishedAt(b, t.Key(cfg)).Some?
    ensures var (b', outcome) := WritePut(cfg, b, t, io);
            outcome.PutFailed? && b' == b.WriteBlob(t.Key(cfg), Blob(io.landed, t.Digest(cfg)))
  {
    hide FinishPut, StackOf;
    assert b.WriteBlob(t.Key(cfg), Blob(io.landed, t.Digest(cfg))).references == b.references;
  }

  // ---------------------------------------------------------------- a strand

  /** A put within the size limit that may replace the pointer and whose retention can be honoured. */
  ghost predicate PlainRequest(cfg: Config, request: PutRequest, o: ObjectRef) {
    && request.objectRef == o && |request.payload| <= cfg.maxObjectBytes
    && !request.createOnly && !request.immutable && FromRequest(request.retention, cfg.lockMode).Ok?
  }

  /** A plain put of a version that left no trace: three writes, and the version is published. */
  lemma PlainPutPublishes(cfg: Config, b: Bucket, clock: int, request: PutRequest, io: IO)
    requires cfg.Valid() && Sound(b, clock) && io.now > clock && io.landed == request.payload
    requires PlainRequest(cfg, request, request.objectRef)
    requires var k := Version(request.objectRef, cfg.hash(request.payload));
             Current(b.references, k).None? && Current(b.blobs, k).None?
    ensures var o, k := request.objectRef, Version(request.objectRef, cfg.hash(request.payload));
            var envelope := WrittenEnvelope(cfg, b, request, io);
            && RunPut(cfg, b, request, io) ==
                 (b.WriteBlob(k, Blob(io.landed, k.digest)).WriteReference(k, envelope).WriteLatest(o, k.digest),
                  Published(envelope.metadata))
            && Sound(RunPut(cfg, b, request, io).0, io.now)
            && Abstract(RunPut(cfg, b, request, io).0) == Publish(Abstract(b), k, envelope)
  {
    var t := StartPut(cfg, request);
    assert ReadBack(cfg, io.landed, t).None? && Writes(cfg, b, t, io);
    assert Admitted(cfg, b, request);
    AdmissionDecides(cfg, b, clock, request, io);
    PutRefines(cfg, b, clock, request, io);
    PlainWrites(cfg, b, t, io);
    hide RunPut, WritePut, Sound, Abstract, Admitted, Writes, Strands, Publish;
  }

  lemma PlainWrites(cfg: Config, b: Bucket, t: PutTask, io: IO)
    requires cfg.Valid() && Writes(cfg, b, t, io) && !t.CreatesLatest()
    ensures var k := t.Key(cfg);
            var envelope := NewEnvelope(cfg, t, b.NewId(), io.now);
            WritePut(cfg, b, t, io) ==
            (b.WriteBlob(k, Blob(io.landed, k.digest)).WriteReference(k, envelope).WriteLatest(k.objectRef, k.digest),
             Published(envelope.metadata))
  {
    hide TryLatest, StackOf, NewEnvelope, ReadBack;
    assert b.WriteBlob(t.Key(cfg), Blob(io.landed, t.Digest(cfg))).references == b.references;
  }

  /** Deleting the only version of an object takes one version off the pointer. */
  lemma LastDeletePops(b: Bucket, clock: int, k: Version, io: IO)
    requires Sound(b, clock) && io.now > clock && io.previous.None? && RightSuccessor(Abstract(b), k, None)
    requires PublishedAt(b, k).Some? && Releases(PublishedAt(b, k).value.retention, io.now)
        && CurrentAt(b, k.objectRef) == Some(k.digest)
    ensures var b' := RunDelete(b, k, io).0;
            var s := StackOf(b.latest, k.objectRef);
            && s != [] && StackOf(b'.latest, k.objectRef) == s[..|s| - 1]
            && Sound(b', io.now) && Abstract(b') == Retract(Abstract(b), k, None)
  {
    DeleteRefines(b, clock, k, io);
    AbstractLookup(b);
    assert Get(Abstract(b).published, k) == PublishedAt(b, k);
    RunDeleteShape(b, clock, k, io);
    FinishDeleteShape(Dropped(b, k), k, true, io);
    WithoutLast(StackOf(b.latest, k.objectRef));
    hide RunDelete, FinishDelete, Abstract, Without, RightSuccessor, Retract, Dangling;
  }

  /** What matters of a versioned bucket for one object: catalog, history of the pointer, unused digests. */
  ghost predicate Scene(b: Bucket, clock: int, o: ObjectRef, c: Catalog, pointers: seq<Digest>, unused: set<Digest>) {
    && b.versioned && Sound(b, clock) && Abstract(b) == c
    && |StackOf(b.latest, o)| == |pointers| && (forall i | 0 <= i < |pointers| ::
                                                StackOf(b.latest, o)[i].value == pointers[i])
    && (forall d | d in unused :: Current(b.blobs, Version(o, d)).None?)
  }

  lemma {:induction false} PutScene(cfg: Config, b: Bucket, clock: int, request: PutRequest, io: IO, c: Catalog,
                                    pointers: seq<Digest>, unused: set<Digest>)
    returns (envelope: Envelope)
    requires cfg.Valid() && Scene(b, clock, request.objectRef, c, pointers, unused) && io.now > clock
        && io.landed == request.payload
    requires PlainRequest(cfg, request, request.objectRef)
    requires cfg.hash(request.payload) in unused && !Has(c, request.objectRef, cfg.hash(request.payload))
    ensures var d := cfg.hash(request.payload);
            && envelope.metadata.createdAt == io.now && (request.retention.None? ==> envelope.retention.None?)
            && Scene(RunPut(cfg, b, request, io).0, io.now, request.objectRef,
                     Publish(c, Version(request.objectRef, d), envelope), pointers + [d], unused - {d})
  {
    hide RunPut, Sound, Abstract, Publish, WrittenEnvelope, StackOf, Current;
    hide Bucket.WriteBlob, Bucket.WriteReference, Bucket.WriteLatest;
    var o, k := request.objectRef, Version(request.objectRef, cfg.hash(request.payload));
    UnpublishedHasNoRecord(b, k);
    PlainPutPublishes(cfg, b, clock, request, io);
    envelope := WrittenEnvelope(cfg, b, request, io);
    PlainEnvelope(cfg, b, request, io);
    ThreeWrites(b, k, Blob(io.landed, k.digest), envelope);
  }

  lemma UnpublishedHasNoRecord(b: Bucket, k: Version)
    ensures k !in Abstract(b).published <==> Current(b.references, k).None?
  {
    AbstractLookup(b);
    assert Get(Abstract(b).published, k) == PublishedAt(b, k);
  }

  lemma PlainEnvelope(cfg: Config, b: Bucket, request: PutRequest, io: IO)
    requires cfg.Valid() && PlainRequest(cfg, request, request.objectRef)
    ensures var envelope := WrittenEnvelope(cfg, b, request, io);
            && envelope.metadata.createdAt == io.now && envelope.blobVersion == b.NewId()
            && envelope.metadata.objectRef == request.objectRef && envelope.metadata.digest == cfg.hash(request.payload)
            && envelope.metadata.length == |request.payload|
            && envelope.retention == FromRequest(request.retention, cfg.lockMode).value
  {
  }

  lemma ThreeWrites(b: Bucket, k: Version, blob: Blob, envelope: Envelope)
    requires b.versioned
    ensures var b' := b.WriteBlob(k, blob).WriteReference(k, envelope).WriteLatest(k.objectRef, k.digest);
            && b'.versioned
            && StackOf(b'.latest, k.objectRef) == StackOf(b.latest, k.objectRef) + [Entry(b.next + 2, k.digest)]
            && (forall j | j != k :: Current(b'.blobs, j) == Current(b.blobs, j))
  {
  }

  lemma {:induction false} DeleteScene(b: Bucket, clock: int, k: Version, io: IO, c: Catalog, pointers: seq<Digest>,
                                       unused: set<Digest>)
    requires Scene(b, clock, k.objectRef, c, pointers, unused) && io.now > clock && RightSuccessor(c, k, io.previous)
    requires k in c.published && c.published[k].retention.None? && k.digest !in unused
    requires Get(c.current, k.objectRef).Some?
    requires Get(c.current, k.objectRef) == Some(k.digest) ==> io.previous.None?
    ensures Scene(RunDelete(b, k, io).0, io.now, k.objectRef, Retract(c, k, io.previous),
                  if Get(c.current, k.objectRef) == Some(k.digest) then pointers[..|pointers| - 1]
                      else pointers, unused)
  {
    hide RunDelete, Sound, Abstract, Retract, RightSuccessor, StackOf, Current, Dangling, CurrentAt, PublishedAt;
    var o := k.objectRef;
    AbstractLookup(b);
    assert Get(Abstract(b).published, k) == PublishedAt(b, k) && Get(Abstract(b).current, o) == CurrentAt(b, o);
    DeleteRefines(b, clock, k, io);
    DeleteTouchesBlobs(b, clock, k, io);
    var b' := RunDelete(b, k, io).0;
    SceneBlobs(b, b', k, unused);
    if CurrentAt(b, o) == Some(k.digest) {
      LastDeletePops(b, clock, k, io);
    } else {
      OldDeleteKeepsPointer(b, clock, k, io);
    }
  }

  lemma OldDeleteKeepsPointer(b: Bucket, clock: int, k: Version, io: IO)
    requires Sound(b, clock) && CurrentAt(b, k.objectRef).Some? && CurrentAt(b, k.objectRef) != Some(k.digest)
    ensures RunDelete(b, k, io).0.latest == b.latest
  {
    ReadsAgree(b, clock, k.objectRef);
    DeleteMovesOnlyItsPointer(b, k, io);
    hide RunDelete, StackOf;
  }

  lemma SceneBlobs(b: Bucket, b': Bucket, k: Version, unused: set<Digest>)
    requires k.digest !in unused && forall d | d in unused :: Current(b.blobs, Version(k.objectRef, d)).None?
    requires b'.blobs == b.blobs || exists id: nat :: b'.blobs == b.RemoveBlob(k, id).blobs
    ensures forall d | d in unused :: Current(b'.blobs, Version(k.objectRef, d)).None?
  {
    forall d | d in unused
      ensures StackOf(b'.blobs, Version(k.objectRef, d)) == StackOf(b.blobs, Version(k.objectRef, d))
    {
    }
  }

  /**
   * In a versioned bucket deleting the last version uncovers an older pointer, which names nothing. A
   * create-only put that follows is answered with a conflict, and yet its version stays published
   * without being current: two puts, two deletes with right scans, one more put, all one by one.
   */
  lemma StrandIsReachable(cfg: Config, first: PutRequest, second: PutRequest, third: PutRequest)
    requires cfg.Valid() && PlainRequest(cfg, first, first.objectRef) && PlainRequest(cfg, second, first.objectRef)
    requires first.retention.None? && second.retention.None?
    requires third.objectRef == first.objectRef && |third.payload| <= cfg.maxObjectBytes
    requires third.createOnly && third.retention.None?
    requires var d1, d2, d3 := cfg.hash(first.payload), cfg.hash(second.payload), cfg.hash(third.payload);
             d1 != d2 && d1 != d3 && d2 != d3
    ensures var o, d1, d2 := first.objectRef, cfg.hash(first.payload), cfg.hash(second.payload);
            var b1 := RunPut(cfg, Empty(true), first, IO(1, first.payload, None)).0;
            var b2 := RunPut(cfg, b1, second, IO(2, second.payload, None)).0;
            var b3 := RunDelete(b2, Version(o, d1), IO(3, [], Some(d2))).0;
            var b4 := RunDelete(b3, Version(o, d2), IO(4, [], None)).0;
            var (b5, outcome) := RunPut(cfg, b4, third, IO(5, third.payload, None));
            && RightSuccessor(Abstract(b2), Version(o, d1), Some(d2))
                && RightSuccessor(Abstract(b3), Version(o, d2), None)
            && outcome == PutFailed(ConditionalConflict)
            && Has(Abstract(b5), o, cfg.hash(third.payload)) && o !in Abstract(b5).current && !Tidy(Abstract(b5))
  {
    hide RunPut, RunDelete, Sound, Abstract, Scene, RightSuccessor, Tidy, Publish, Retract;
    var o, d1, d2, d3 := first.objectRef, cfg.hash(first.payload), cfg.hash(second.payload), cfg.hash(third.payload);
    EmptyScene(o, {d1, d2, d3});
    var nothing := Catalog(map[], map[]);
    var e1 := PutScene(cfg, Empty(true), 0, first, IO(1, first.payload, None), nothing, [], {d1, d2, d3});
    var b1 := RunPut(cfg, Empty(true), first, IO(1, first.payload, None)).0;
    TwoPublished(o, d1, d2, e1, e1);
    var e2 := PutScene(cfg, b1, 1, second, IO(2, second.payload, None), Publish(nothing, Version(o, d1), e1),
                       [] + [d1], {d1, d2, d3} - {d1});
    var b2 := RunPut(cfg, b1, second, IO(2, second.payload, None)).0;
    TwoPublished(o, d1, d2, e1, e2);
    var c2 := Publish(Publish(nothing, Version(o, d1), e1), Version(o, d2), e2);
    DeleteScene(b2, 2, Version(o, d1), IO(3, [], Some(d2)), c2, [] + [d1] + [d2], {d1, d2, d3} - {d1} - {d2});
    var b3 := RunDelete(b2, Version(o, d1), IO(3, [], Some(d2))).0;
    var c3 := Retract(c2, Version(o, d1), Some(d2));
    DeleteScene(b3, 3, Version(o, d2), IO(4, [], None), c3, [] + [d1] + [d2], {d1, d2, d3} - {d1} - {d2});
    var b4 := RunDelete(b3, Version(o, d2), IO(4, [], None)).0;
    assert ([] + [d1] + [d2])[..1] == [d1];
    SceneCatalog(b2, 2, o, c2, [] + [d1] + [d2], {d1, d2, d3} - {d1} - {d2});
    SceneCatalog(b3, 3, o, c3, [] + [d1] + [d2], {d1, d2, d3} - {d1} - {d2});
    UncoveredPointerStrands(cfg, b4, 4, third, IO(5, third.payload, None), Retract(c3, Version(o, d2), None), d1,
                            {d1, d2, d3} - {d1} - {d2});
  }

  lemma EmptyScene(o: ObjectRef, unused: set<Digest>)
    ensures Scene(Empty(true), 0, o, Catalog(map[], map[]), [], unused)
  {
  }

  lemma {:induction false} SceneCatalog(b: Bucket, clock: int, o: ObjectRef, c: Catalog, pointers: seq<Digest>,
                                        unused: set<Digest>)
    requires Scene(b, clock, o, c, pointers, unused)
    ensures Abstract(b) == c && Sound(b, clock)
  {
  }

  /** The catalogs of the story, up to the moment when nothing is left. */
  lemma TwoPublished(o: ObjectRef, d1: Digest, d2: Digest, e1: Envelope, e2: Envelope)
    requires d1 != d2 && e1.retention.None? && e2.retention.None?
    ensures var k1, k2 := Version(o, d1), Version(o, d2);
            var c1 := Publish(Catalog(map[], map[]), k1, e1);
            var c2 := Publish(c1, k2, e2);
            var c3 := Retract(c2, k1, Some(d2));
            var c4 := Retract(c3, k2, None);
            && !Has(c1, o, d2)
            && RightSuccessor(c2, k1, Some(d2)) && k1 in c2.published && c2.published[k1].retention.None?
                && Get(c2.current, o) == Some(d2)
            && RightSuccessor(c3, k2, None) && k2 in c3.published && c3.published[k2].retention.None?
                && Get(c3.current, o) == Some(d2)
            && o !in c4.current && forall d :: !Has(c4, o, d)
  {
    var k1, k2 := Version(o, d1), Version(o, d2);
    var c2 := Publish(Publish(Catalog(map[], map[]), k1, e1), k2, e2);
    assert forall k | k in c2.published :: k == k1 || k == k2;
  }

  /** A create-only put that meets a pointer to a vanished version. */
  lemma UncoveredPointerStrands(cfg: Config, b: Bucket, clock: int, request: PutRequest, io: IO, c: Catalog, d: Digest,
                                unused: set<Digest>)
    requires cfg.Valid() && Scene(b, clock, request.objectRef, c, [d], unused) && io.now > clock
        && io.landed == request.payload
    requires |request.payload| <= cfg.maxObjectBytes && request.createOnly && request.retention.None?
    requires cfg.hash(request.payload) in unused && cfg.hash(request.payload) != d
    requires request.objectRef !in c.current && forall x :: !Has(c, request.objectRef, x)
    ensures var (b', outcome) := RunPut(cfg, b, request, io);
            var o := request.objectRef;
            && outcome == PutFailed(ConditionalConflict)
            && Has(Abstract(b'), o, cfg.hash(request.payload)) && o !in Abstract(b').current && !Tidy(Abstract(b'))
  {
    hide RunPut, Sound, Abstract, Tidy, StackOf;
    var o, k := request.objectRef, Version(request.objectRef, cfg.hash(request.payload));
    assert Current(b.latest, o).Some? && Current(b.latest, o).value.value == d;
    assert !Has(c, o, d) && !Has(c, o, k.digest);
    UnpublishedHasNoRecord(b, Version(o, d));
    UnpublishedHasNoRecord(b, k);
    assert ReadBack(cfg, io.landed, StartPut(cfg, request)).None?;
    assert Strands(cfg, b, request, io);
    PutRefines(cfg, b, clock, request, io);
    StrandedFails(cfg, b, clock, request, io);
    StrandIsUntidy(c, k, WrittenEnvelope(cfg, b, request, io));
  }
}
