/**
 * Interleaved runs in which a caller loses something without any call misbehaving (adapter.py, _put and
 * _delete; transport.py, put_file).
 */
module Races {
  import opened Wrappers
  import opened Streams
  import opened Integrity
  import opened Retention
  import opened Bucket
  import opened Publication
  import opened Serial
  import opened Catalog
  import opened History
  import opened Deletion
  import opened Interleaving
  import opened StoredBytes
  import opened Holding
  import opened Safekeeping
  import opened Limits

  // ---------------------------------------------------------------- building runs

  /** No delete begins, and every put that begins has this request. */
  ghost predicate OnlyPuts(events: seq<Event>, request: PutRequest) {
    forall e | e in events :: !e.BeginDelete? && (e.BeginPut? ==> e.request == request)
  }

  ghost predicate OnlySteps(events: seq<Event>) {
    forall e | e in events :: e.Step?
  }

  /** Stepping one put until it ends. */
  lemma PutAlone(cfg: Config, w: World, i: nat, io: IO) returns (events: seq<Event>)
    requires cfg.Valid() && i < |w.tasks| && w.tasks[i].Putting?
    ensures var w' := Run(cfg, w, events);
            && w'.bucket == PutToEnd(cfg, w.bucket, w.tasks[i].put, io).0 && |w'.tasks| == |w.tasks|
            && w'.tasks[i].Putting? && w'.tasks[i].put.stage == PutEnded(PutToEnd(cfg, w.bucket, w.tasks[i].put, io).1)
            && OnlySteps(events) && w'.tasks[i].put.request == w.tasks[i].put.request
            && forall j | 0 <= j < |w.tasks| && j != i :: w'.tasks[j] == w.tasks[j]
    decreases PutRank(w.tasks[i].put.stage)
  {
    hide PutStep;
    var t := w.tasks[i].put;
    if t.stage.PutEnded? {
      events := [];
    } else {
      PutDescends(cfg, w.bucket, t, io);
      PutGoesOn(cfg, w.bucket, t, io);
      StepKeepsRequest(cfg, w.bucket, t, io);
      var w1 := Apply(cfg, w, Step(i, io));
      var rest := PutAlone(cfg, w1, i, io);
      events := [Step(i, io)] + rest;
      assert events[1..] == rest;
    }
  }

  lemma DeleteAlone(cfg: Config, w: World, i: nat, io: IO) returns (events: seq<Event>)
    requires cfg.Valid() && i < |w.tasks| && w.tasks[i].Deleting?
    ensures OnlySteps(events)
    ensures var w' := Run(cfg, w, events);
            && w'.bucket == DeleteToEnd(w.bucket, w.tasks[i].delete, io).0 && |w'.tasks| == |w.tasks|
            && w'.tasks[i].Deleting? && w'.tasks[i].delete.key == w.tasks[i].delete.key
            && w'.tasks[i].delete.stage == DeleteEnded(DeleteToEnd(w.bucket, w.tasks[i].delete, io).1)
            && forall j | 0 <= j < |w.tasks| && j != i :: w'.tasks[j] == w.tasks[j]
    decreases DeleteRank(w.tasks[i].delete.stage)
  {
    hide DeleteStep;
    var t := w.tasks[i].delete;
    if t.stage.DeleteEnded? {
      events := [];
    } else {
      DeleteDescends(w.bucket, t, io);
      DeleteGoesOn(w.bucket, t, io);
      DeleteStepKey(w.bucket, t, io);
      var w1 := Apply(cfg, w, Step(i, io));
      var rest := DeleteAlone(cfg, w1, i, io);
      events := [Step(i, io)] + rest;
      assert events[1..] == rest;
    }
  }

  lemma {:induction false} AfterEvent(cfg: Config, w: World, events: seq<Event>, w': World, e: Event)
    requires cfg.Valid() && Run(cfg, w, events) == w'
    ensures Run(cfg, w, events + [e]) == Apply(cfg, w', e)
  {
    RunAppend(cfg, w, events, [e]);
    assert Run(cfg, w', [e]) == Run(cfg, Apply(cfg, w', e), []);
  }

  lemma RunNothing(cfg: Config, w: World)
    requires cfg.Valid()
    ensures Run(cfg, w, []) == w
  {
  }

  // ---------------------------------------------------------------- wrong bytes behind a record

  /**
   * The current version of the object has a record, and under the blob version that it names other bytes are
   * stored; a stat of the object answers with the record if these have the recorded length.
   */
  ghost predicate Misled(cfg: Config, b: Bucket, k: Version, landed: bytes, length: nat) {
    && PointsAt(b, k) && Current(b.references, k).Some?
    && var envelope := Current(b.references, k).value.value;
       && envelope.metadata.length == length
       && Find(StackOf(b.blobs, k), envelope.blobVersion) == Some(Blob(landed, k.digest))
       && !GoodOrGone(cfg, b, k, envelope.blobVersion, envelope.metadata.length)
       && (|landed| == length ==> Stat(b, k.objectRef, None) == Ok(envelope))
  }

  lemma WrongBytesMislead(cfg: Config, b: Bucket, k: Version, landed: bytes, length: nat)
    requires PointsAt(b, k) && Current(b.references, k).Some? && !Good(cfg, landed, k.digest, length)
    requires var envelope := Current(b.references, k).value.value;
             && envelope.metadata.length == length && envelope.metadata.objectRef == k.objectRef
             && envelope.metadata.digest == k.digest
             && Find(StackOf(b.blobs, k), envelope.blobVersion) == Some(Blob(landed, k.digest))
    ensures Misled(cfg, b, k, landed, length)
  {
    hide StackOf, Find, Good;
    assert Version(k.objectRef, k.digest) == k;
  }

  // ---------------------------------------------------------------- an overwritten blob

  /** A put of an object that is not there passes its checks. */
  lemma ChecksPass(cfg: Config, b: Bucket, t: PutTask, io: IO)
    requires cfg.Valid() && t.stage.First? && Current(b.latest, t.request.objectRef).None?
    requires |t.request.payload| <= cfg.maxObjectBytes
    ensures PutStep(cfg, b, t, io) == (b, t.At(Second)) && PutStep(cfg, b, t.At(Second), io) == (b, t.At(Upload))
  {
    hide Current;
  }

  lemma BeginsAtUpload(cfg: Config, w: World, request: PutRequest, io: IO) returns (events: seq<Event>)
    requires cfg.Valid() && PlainRequest(cfg, request, request.objectRef)
        && Current(w.bucket.latest, request.objectRef).None?
    ensures Run(cfg, w, events) == World(w.bucket, w.tasks + [Putting(StartPut(cfg, request).At(Upload))])
    ensures OnlyPuts(events, request)
  {
    hide PutStep, Current, Run, PlainRequest, FromRequest;
    var i, t := |w.tasks|, StartPut(cfg, request);
    PlainStarts(cfg, request);
    ChecksPass(cfg, w.bucket, t, io);
    var w1 := World(w.bucket, w.tasks + [Putting(t)]);
    var w2 := World(w.bucket, w.tasks + [Putting(t.At(Second))]);
    var w3 := World(w.bucket, w.tasks + [Putting(t.At(Upload))]);
    assert Apply(cfg, w, BeginPut(request)) == w1;
    assert Apply(cfg, w1, Step(i, io)) == w2;
    assert Apply(cfg, w2, Step(i, io)) == w3;
    hide Apply;
    RunNothing(cfg, w);
    AfterEvent(cfg, w, [], w, BeginPut(request));
    AfterEvent(cfg, w, [] + [BeginPut(request)], w1, Step(i, io));
    AfterEvent(cfg, w, [] + [BeginPut(request)] + [Step(i, io)], w2, Step(i, io));
    events := [] + [BeginPut(request)] + [Step(i, io)] + [Step(i, io)];
  }

  lemma PlainStarts(cfg: Config, request: PutRequest)
    requires PlainRequest(cfg, request, request.objectRef)
    ensures var t := StartPut(cfg, request);
            t.request == request && t.stage.First? && !t.CreatesLatest() && |request.payload| <= cfg.maxObjectBytes
  {
  }

  /**
   * Without versioning, and with every write read back: two puts of one large payload pass their checks,
   * the first publishes, and the upload of the second replaces the bytes behind the latest pointer. A stat
   * goes on answering if they have the same length.
   */
  lemma OverwriteBreaksPointer(cfg: Config, request: PutRequest, landed: bytes) returns (events: seq<Event>)
    requires cfg.Valid() && PlainRequest(cfg, request, request.objectRef) && |request.payload| >= cfg.multipartThreshold
    requires !Good(cfg, landed, cfg.hash(request.payload), |request.payload|)
    ensures OnlyPuts(events, request)
    ensures var w := Run(cfg, Initial(false), events);
            var k := Version(request.objectRef, cfg.hash(request.payload));
            && |w.tasks| == 2 && w.tasks[0].Putting? && w.tasks[0].put.stage.PutEnded?
            && w.tasks[0].put.stage.outcome.Published? && Misled(cfg, w.bucket, k, landed, |request.payload|)
  {
    hide PutStep, Run, PutToEnd, WritePut, Good, PlainRequest, FromRequest, Current, StackOf, Find;
    hide Bucket.WriteBlob, Bucket.WriteReference, Bucket.WriteLatest;
    var k, t := Version(request.objectRef, cfg.hash(request.payload)), StartPut(cfg, request).At(Upload);
    var io := IO(1, request.payload, None);
    NothingAtFirst(false, k);
    PlainStarts(cfg, request);
    var first := BeginsAtUpload(cfg, Initial(false), request, io);
    var w1 := Run(cfg, Initial(false), first);
    var second := BeginsAtUpload(cfg, w1, request, io);
    RunAppend(cfg, Initial(false), first, second);
    var w2 := Run(cfg, w1, second);
    assert w2.tasks == [Putting(t), Putting(t)];
    var rest := PutAlone(cfg, w2, 0, io);
    RunAppend(cfg, Initial(false), first + second, rest);
    var w3 := Run(cfg, w2, rest);
    LargePutPublishes(cfg, t, io);
    events := first + second + rest;
    AfterEvent(cfg, Initial(false), events, w3, Step(1, IO(2, landed, None)));
    StepAt(cfg, w3, 1, IO(2, landed, None));
    LargeIsNotBlocked(cfg, w3.bucket, t);
    UploadStep(cfg, w3.bucket, t, IO(2, landed, None));
    OverwritesPublished(cfg, w3.bucket, k, t, landed);
    events := events + [Step(1, IO(2, landed, None))];
  }

  lemma NothingAtFirst(versioned: bool, k: Version)
    ensures Current(Empty(versioned).latest, k.objectRef).None? && Current(Empty(versioned).references, k).None?
    ensures StackOf(Empty(versioned).blobs, k) == []
  {
  }

  lemma LargeIsNotBlocked(cfg: Config, b: Bucket, t: PutTask)
    requires |t.request.payload| >= cfg.multipartThreshold
    ensures !Blocked(cfg, b, t)
  {
  }

  /** What a put of a large payload leaves in an empty bucket without versioning. */
  ghost predicate PublishedOnce(cfg: Config, b: Bucket, k: Version, length: nat) {
    && !b.versioned && OrderlyIds(b)
    && Current(b.latest, k.objectRef).Some? && Current(b.latest, k.objectRef).value.value == k.digest
    && Current(b.references, k).Some?
    && var envelope := Current(b.references, k).value.value;
       && envelope.blobVersion == UNVERSIONED && envelope.metadata.length == length
       && envelope.metadata.objectRef == k.objectRef && envelope.metadata.digest == k.digest
  }

  lemma LargePutPublishes(cfg: Config, t: PutTask, io: IO)
    requires cfg.Valid() && t.stage.Upload? && !t.CreatesLatest() && io.landed == t.request.payload
    requires |t.request.payload| >= cfg.multipartThreshold
    ensures var (b, outcome) := PutToEnd(cfg, Empty(false), t, io);
            outcome.Published? && PublishedOnce(cfg, b, t.Key(cfg), |t.request.payload|)
  {
    var k := t.Key(cfg);
    NothingAtFirst(false, k);
    WritePutIsSteps(cfg, Empty(false), t, io);
    assert ReadBack(cfg, io.landed, t).None? && Writes(cfg, Empty(false), t, io);
    PlainWrites(cfg, Empty(false), t, io);
    ThreeWritesWithout(k, Blob(io.landed, k.digest), NewEnvelope(cfg, t, Empty(false).NewId(), io.now));
    EnvelopeOfTask(cfg, t, Empty(false).NewId(), io.now);
    hide PutToEnd, WritePut, NewEnvelope, Current, StackOf;
  }

  lemma ThreeWritesWithout(k: Version, blob: Blob, envelope: Envelope)
    ensures var b := Empty(false).WriteBlob(k, blob).WriteReference(k, envelope).WriteLatest(k.objectRef, k.digest);
            && !b.versioned && OrderlyIds(b)
            && Current(b.latest, k.objectRef).Some? && Current(b.latest, k.objectRef).value.value == k.digest
            && Current(b.references, k).Some? && Current(b.references, k).value.value == envelope
  {
  }

  lemma OverwritesPublished(cfg: Config, b: Bucket, k: Version, t: PutTask, landed: bytes)
    requires PublishedOnce(cfg, b, k, |t.request.payload|) && !Good(cfg, landed, k.digest, |t.request.payload|)
    ensures var b' := b.WriteBlob(k, Blob(landed, k.digest));
            Misled(cfg, b', k, landed, |t.request.payload|)
  {
    hide Misled, OrderlyIds, Good, Find, StackOf, Bucket.WriteBlob;
    UploadLands(cfg, b, k, Blob(landed, k.digest));
    UploadEffect(b, k, Blob(landed, k.digest));
    WriteBlobKeepsPointer(b, k, Blob(landed, k.digest));
    WrongBytesMislead(cfg, b.WriteBlob(k, Blob(landed, k.digest)), k, landed, |t.request.payload|);
  }

  lemma WriteBlobKeepsPointer(b: Bucket, k: Version, blob: Blob)
    ensures b.WriteBlob(k, blob).latest == b.latest
  {
  }

  // ---------------------------------------------------------------- overlapping deletes

  /** One version is there without retention, blob and all. */
  ghost predicate Loose(b: Bucket, clock: int, k: Version) {
    && Sound(b, clock) && PublishedAt(b, k).Some? && PublishedAt(b, k).value.retention.None?
    && (forall d :: Has(Abstract(b), k.objectRef, d) <==> d == k.digest)
    && |StackOf(b.blobs, k)| == 1 && StackOf(b.blobs, k)[0].id == PublishedAt(b, k).value.blobVersion
    && CurrentAt(b, k.objectRef) == Some(k.digest)
    && (!b.versioned ==> PublishedAt(b, k).value.blobVersion == UNVERSIONED)
  }

  ghost predicate Gone(b: Bucket, clock: int, k: Version) {
    Sound(b, clock) && Current(b.references, k).None? && StackOf(b.blobs, k) == []
  }

  lemma PlainPutKeepsBlob(cfg: Config, b: Bucket, clock: int, request: PutRequest, io: IO)
    requires cfg.Valid() && Sound(b, clock) && io.now > clock && io.landed == request.payload
        && PlainRequest(cfg, request, request.objectRef)
    requires Gone(b, clock, Version(request.objectRef, cfg.hash(request.payload)))
    ensures var k := Version(request.objectRef, cfg.hash(request.payload));
            var b' := RunPut(cfg, b, request, io).0;
            var envelope := WrittenEnvelope(cfg, b, request, io);
            && Sound(b', io.now) && Abstract(b') == Publish(Abstract(b), k, envelope)
            && Current(b'.references, k).Some? && Current(b'.references, k).value.value == envelope
            && StackOf(b'.blobs, k) == [Entry(b.NewId(), Blob(io.landed, k.digest))] && b'.versioned == b.versioned
            && envelope.blobVersion == b.NewId() && envelope.retention ==
                FromRequest(request.retention, cfg.lockMode).value
            && (!b.versioned ==> envelope.blobVersion == UNVERSIONED)
  {
    var k := Version(request.objectRef, cfg.hash(request.payload));
    hide RunPut, Sound, Abstract, Publish, WrittenEnvelope;
    PlainPutPublishes(cfg, b, clock, request, io);
    PlainEnvelope(cfg, b, request, io);
    WritesLeave(b, k, Blob(io.landed, k.digest), WrittenEnvelope(cfg, b, request, io));
    hide StackOf, Current, Bucket.WriteBlob, Bucket.WriteReference, Bucket.WriteLatest;
  }

  lemma WritesLeave(b: Bucket, k: Version, blob: Blob, envelope: Envelope)
    requires StackOf(b.blobs, k) == [] && Current(b.references, k).None?
    ensures var b' := b.WriteBlob(k, blob).WriteReference(k, envelope).WriteLatest(k.objectRef, k.digest);
            && b'.versioned == b.versioned && StackOf(b'.blobs, k) == [Entry(b.NewId(), blob)]
            && Current(b'.references, k).Some? && Current(b'.references, k).value.value == envelope
  {
  }

  lemma LooseDeletes(b: Bucket, clock: int, k: Version, io: IO)
    requires Loose(b, clock, k) && io.now > clock && io.previous.None?
    ensures Gone(RunDelete(b, k, io).0, io.now, k) && RunDelete(b, k, io).0.versioned == b.versioned
    ensures !b.versioned ==> Current(RunDelete(b, k, io).0.latest, k.objectRef).None?
  {
    if !b.versioned {
      LastDeletePops(b, clock, k, io);
      assert |StackOf(b.latest, k.objectRef)| <= 1;
    }
    hide RunDelete, Sound, Abstract, Without, FinishDelete, CurrentAt;
    assert RightSuccessor(Abstract(b), k, None);
    DeleteRefines(b, clock, k, io);
    PublishedAfterDelete(b, clock, k, io, k);
    RunDeleteShape(b, clock, k, io);
    FinishMovesOnlyItsPointer(Dropped(b, k), k, CurrentAt(b, k.objectRef) == Some(k.digest), io);
    OnlyBlobDropped(b, k);
  }

  lemma OnlyBlobDropped(b: Bucket, k: Version)
    requires PublishedAt(b, k).Some? && |StackOf(b.blobs, k)| == 1
        && StackOf(b.blobs, k)[0].id == PublishedAt(b, k).value.blobVersion
    ensures StackOf(Dropped(b, k).blobs, k) == [] && Dropped(b, k).versioned == b.versioned
  {
    var s := StackOf(b.blobs, k);
    assert Without(s[1..], s[0].id) == [];
  }

  /** A put that ran alone on an empty bucket. */
  lemma FirstPublished(cfg: Config, versioned: bool, request: PutRequest) returns (events: seq<Event>)
    requires cfg.Valid() && PlainRequest(cfg, request, request.objectRef) && request.retention.None?
    ensures var w := Run(cfg, Initial(versioned), events);
            var k := Version(request.objectRef, cfg.hash(request.payload));
            && |w.tasks| == 1 && w.bucket.versioned == versioned && Loose(w.bucket, 1, k)
            && (forall j | j != k :: StackOf(w.bucket.blobs, j) == []) && w.bucket.deletions == map[]
  {
    hide RunPut, PutToEnd, Run, PlainRequest, FromRequest, Loose;
    var w := Apply(cfg, Initial(versioned), BeginPut(request));
    RunNothing(cfg, Initial(versioned));
    AfterEvent(cfg, Initial(versioned), [], Initial(versioned), BeginPut(request));
    var steps := PutAlone(cfg, w, 0, IO(1, request.payload, None));
    RunAppend(cfg, Initial(versioned), [] + [BeginPut(request)], steps);
    RunPutIsSteps(cfg, Empty(versioned), request, IO(1, request.payload, None));
    FirstIsLoose(cfg, versioned, request, IO(1, request.payload, None));
    FirstStoresOneBlob(cfg, versioned, request, IO(1, request.payload, None));
    events := [] + [BeginPut(request)] + steps;
  }

  lemma FirstStoresOneBlob(cfg: Config, versioned: bool, request: PutRequest, io: IO)
    requires cfg.Valid() && PlainRequest(cfg, request, request.objectRef) && io.now > 0 && io.landed == request.payload
    ensures var k := Version(request.objectRef, cfg.hash(request.payload));
            var b := RunPut(cfg, Empty(versioned), request, io).0;
            (forall j | j != k :: StackOf(b.blobs, j) == []) && b.deletions == map[]
  {
    EmptyIsSound(versioned, 0);
    PlainPutPublishes(cfg, Empty(versioned), 0, request, io);
    hide RunPut, WrittenEnvelope, Sound, Abstract, Publish;
  }

  /** A delete that has passed its retention check, while nothing else happens. */
  lemma DeleteBegins(cfg: Config, w: World, k: Version, io: IO) returns (events: seq<Event>)
    requires cfg.Valid() && Loose(w.bucket, 1, k)
    ensures Run(cfg, w, events) ==
            World(w.bucket,
                  w.tasks + [Deleting(StartDelete(k).At(LatestPointer).(envelope := PublishedAt(w.bucket, k)))])
  {
    hide DeleteStep, Run, Loose;
    var i := |w.tasks|;
    var w1 := World(w.bucket, w.tasks + [Deleting(StartDelete(k))]);
    LooseIsLookedUp(w.bucket, 1, k, io);
    assert Apply(cfg, w, BeginDelete(k)) == w1;
    assert Apply(cfg, w1, Step(i, io)) ==
           World(w.bucket,
                  w.tasks + [Deleting(StartDelete(k).At(LatestPointer).(envelope := PublishedAt(w.bucket, k)))]);
    RunNothing(cfg, w);
    AfterEvent(cfg, w, [], w, BeginDelete(k));
    AfterEvent(cfg, w, [] + [BeginDelete(k)], w1, Step(i, io));
    events := [] + [BeginDelete(k)] + [Step(i, io)];
  }

  /** A whole delete of the version, on its own. */
  lemma DeletesAll(cfg: Config, w: World, k: Version) returns (events: seq<Event>)
    requires cfg.Valid() && Loose(w.bucket, 1, k)
    ensures var w' := Run(cfg, w, events);
            && |w'.tasks| == |w.tasks| + 1 && (forall j | 0 <= j < |w.tasks| :: w'.tasks[j] == w.tasks[j])
            && Gone(w'.bucket, 2, k) && w'.bucket.versioned == w.bucket.versioned
            && (!w.bucket.versioned ==> Current(w'.bucket.latest, k.objectRef).None?)
  {
    hide RunDelete, DeleteToEnd, Run, Loose, Gone, Current;
    var w1 := Apply(cfg, w, BeginDelete(k));
    RunNothing(cfg, w);
    AfterEvent(cfg, w, [], w, BeginDelete(k));
    var steps := DeleteAlone(cfg, w1, |w.tasks|, IO(2, [], None));
    RunAppend(cfg, w, [] + [BeginDelete(k)], steps);
    RunDeleteIsSteps(w.bucket, k, IO(2, [], None));
    LooseDeletes(w.bucket, 1, k, IO(2, [], None));
    events := [] + [BeginDelete(k)] + steps;
  }

  /** The state after a put, a delete that has just passed its retention check, and a second whole delete. */
  lemma StaleDelete(cfg: Config, versioned: bool, request: PutRequest) returns (events: seq<Event>)
    requires cfg.Valid() && PlainRequest(cfg, request, request.objectRef) && request.retention.None?
    ensures var k := Version(request.objectRef, cfg.hash(request.payload));
            var w := Run(cfg, Initial(versioned), events);
            && |w.tasks| == 3 && Gone(w.bucket, 2, k) && w.bucket.versioned == versioned
            && w.tasks[1].Deleting? && w.tasks[1].delete.key == k
            && w.tasks[1].delete.stage.LatestPointer? && w.tasks[1].delete.envelope.Some?
  {
    hide Run, PlainRequest, Gone;
    var k := Version(request.objectRef, cfg.hash(request.payload));
    var first := FirstPublished(cfg, versioned, request);
    var w1 := Run(cfg, Initial(versioned), first);
    assert PublishedAt(w1.bucket, k).Some?;
    hide Loose, PublishedAt;
    var begun := DeleteBegins(cfg, w1, k, IO(2, [], None));
    RunAppend(cfg, Initial(versioned), first, begun);
    var w2 := Run(cfg, w1, begun);
    var whole := DeletesAll(cfg, w2, k);
    RunAppend(cfg, Initial(versioned), first + begun, whole);
    events := first + begun + whole;
    assert Run(cfg, w2, whole).tasks[1] == w2.tasks[1];
  }

  lemma FirstIsLoose(cfg: Config, versioned: bool, request: PutRequest, io: IO)
    requires cfg.Valid() && PlainRequest(cfg, request, request.objectRef) && request.retention.None? && io.now > 0
        && io.landed == request.payload
    ensures var b := RunPut(cfg, Empty(versioned), request, io).0;
            Loose(b, io.now, Version(request.objectRef, cfg.hash(request.payload))) && b.versioned == versioned
  {
    hide RunPut, WrittenEnvelope;
    EmptyIsSound(versioned, 0);
    PlainPutKeepsBlob(cfg, Empty(versioned), 0, request, io);
    assert Abstract(Empty(versioned)).published == map[];
    var b := RunPut(cfg, Empty(versioned), request, io).0;
    DanglingNeedsPointer(b, request.objectRef);
    hide Sound, Abstract;
  }

  lemma LooseIsLookedUp(b: Bucket, clock: int, k: Version, io: IO)
    requires Loose(b, clock, k)
    ensures DeleteStep(b, StartDelete(k), io) ==
            (b, StartDelete(k).At(LatestPointer).(envelope := PublishedAt(b, k)))
  {
    ReadsAgree(b, clock, k.objectRef);
    hide Sound, Abstract, StackOf;
  }

  /**
   * Two deletes of one version overlap, and the version is published again in between, this time under a
   * policy that never permits deletion: the delete that had already passed its check removes it.
   */
  lemma OverlappingDeletesLoseRetention(cfg: Config, versioned: bool, request: PutRequest, policy: string)
    returns (earlier: seq<Event>, later: seq<Event>, entry: Entry<Envelope>, blob: Blob)
    requires cfg.Valid() && PlainRequest(cfg, request, request.objectRef) && request.retention.None?
    ensures var k := Version(request.objectRef, cfg.hash(request.payload));
            var w := Run(cfg, Initial(versioned), earlier);
            && Kept(w.bucket, k, entry, Some(blob))
            && (forall now :: !Releases(entry.value.retention, now))
            && !Kept(Run(cfg, w, later).bucket, k, entry, None)
  {
    hide RunPut, PutToEnd, Run, Sound, Abstract, PlainRequest, Kept, Identified;
    var k := Version(request.objectRef, cfg.hash(request.payload));
    var retained := request.(retention := Some(RetentionRequest(None, Some(policy), false)));
    var io := IO(3, request.payload, None);
    earlier := StaleDelete(cfg, versioned, request);
    var w := Run(cfg, Initial(versioned), earlier);
    var w1 := Apply(cfg, w, BeginPut(retained));
    AfterEvent(cfg, Initial(versioned), earlier, w, BeginPut(retained));
    var steps := PutAlone(cfg, w1, 3, io);
    RunAppend(cfg, Initial(versioned), earlier + [BeginPut(retained)], steps);
    earlier := earlier + [BeginPut(retained)] + steps;
    var w2 := Run(cfg, w1, steps);
    RunPutIsSteps(cfg, w.bucket, retained, io);
    RetainedIsKept(cfg, w.bucket, retained, io, policy);
    entry := Current(w2.bucket.references, k).value;
    blob := Blob(request.payload, k.digest);
    EmptyIsIdentified(versioned);
    RunIdentified(cfg, Initial(versioned), earlier);
    later := ThreatRemoves(cfg, w2, 1, io, k, entry, None);
  }

  lemma RetainedIsKept(cfg: Config, b: Bucket, request: PutRequest, io: IO, policy: string)
    requires cfg.Valid() && request.retention == Some(RetentionRequest(None, Some(policy), false))
    requires PlainRequest(cfg, request.(retention := None), request.objectRef) && io.landed == request.payload
        && io.now > 2
    requires Gone(b, 2, Version(request.objectRef, cfg.hash(request.payload)))
    ensures var k := Version(request.objectRef, cfg.hash(request.payload));
            var b' := RunPut(cfg, b, request, io).0;
            && Current(b'.references, k).Some?
            && Kept(b', k, Current(b'.references, k).value, Some(Blob(request.payload, k.digest)))
            && (forall now :: !Releases(Current(b'.references, k).value.value.retention, now))
  {
    hide RunPut, Sound, Abstract, WrittenEnvelope, Publish;
    PlainPutKeepsBlob(cfg, b, 2, request, io);
  }

  // ---------------------------------------------------------------- a key freed at the wrong moment

  /** A lone delete of a version that is current, up to the removal of the blob. */
  lemma LooseDeleteStages(b: Bucket, k: Version, io: IO)
    requires Loose(b, 1, k) && io.previous.None?
    ensures var t := StartDelete(k).(envelope := PublishedAt(b, k));
            && DeleteStep(b, t.At(LatestPointer), io) == (b, t.At(LatestReference(k.digest)))
            && DeleteStep(b, t.At(LatestReference(k.digest)), io) == (b, t.At(Scan(true)))
            && DeleteStep(b, t.At(Scan(true)), io) == (b, t.At(HeadReference(true, None)))
            && DeleteStep(b, t.At(HeadReference(true, None)), io) ==
                 (b, t.At(DropBlob(true, None, Current(b.references, k).value.id)))
  {
    ReadsAgree(b, 1, k.objectRef);
    assert Version(k.objectRef, k.digest) == k;
    hide Sound, Abstract, StackOf;
  }

  lemma DeleteAt(cfg: Config, w: World, i: nat, io: IO)
    requires cfg.Valid() && i < |w.tasks| && w.tasks[i].Deleting? && !w.tasks[i].delete.stage.DeleteEnded?
    ensures var (b', t') := DeleteStep(w.bucket, w.tasks[i].delete, io);
            Apply(cfg, w, Step(i, io)) == World(b', w.tasks[i := Deleting(t')])
  {
    hide DeleteStep;
  }

  /** A delete begun and taken up to the removal of the blob, while nothing else happens. */
  lemma DeleteReachesDrop(cfg: Config, w: World, k: Version) returns (events: seq<Event>)
    requires cfg.Valid() && Loose(w.bucket, 1, k)
    ensures var version := Current(w.bucket.references, k).value.id;
            var t := StartDelete(k).(envelope := PublishedAt(w.bucket, k));
            Run(cfg, w, events) == World(w.bucket, w.tasks + [Deleting(t.At(DropBlob(true, None, version)))])
  {
    var io, i, b := IO(2, [], None), |w.tasks|, w.bucket;
    LooseDeleteStages(b, k, io);
    assert PublishedAt(b, k).Some?;
    hide DeleteStep, Run, Loose, Apply, PublishedAt;
    var t := StartDelete(k).(envelope := PublishedAt(b, k));
    events := DeleteBegins(cfg, w, k, io);
    var w1 := World(b, w.tasks + [Deleting(t.At(LatestPointer))]);
    var w2 := World(b, w.tasks + [Deleting(t.At(LatestReference(k.digest)))]);
    var w3 := World(b, w.tasks + [Deleting(t.At(Scan(true)))]);
    var w4 := World(b, w.tasks + [Deleting(t.At(HeadReference(true, None)))]);
    DeleteAt(cfg, w1, i, io);
    AfterEvent(cfg, w, events, w1, Step(i, io));
    DeleteAt(cfg, w2, i, io);
    AfterEvent(cfg, w, events + [Step(i, io)], w2, Step(i, io));
    DeleteAt(cfg, w3, i, io);
    AfterEvent(cfg, w, events + [Step(i, io)] + [Step(i, io)], w3, Step(i, io));
    DeleteAt(cfg, w4, i, io);
    AfterEvent(cfg, w, events + [Step(i, io)] + [Step(i, io)] + [Step(i, io)], w4, Step(i, io));
    events := events + [Step(i, io)] + [Step(i, io)] + [Step(i, io)] + [Step(i, io)];
  }

  /** An upload whose bytes arrive, read back if the configuration asks for it. */
  lemma UploadArrives(cfg: Config, w: World, i: nat) returns (events: seq<Event>)
    requires cfg.Valid() && i < |w.tasks| && w.tasks[i].Putting? && w.tasks[i].put.stage.Upload? && OrderlyIds(w.bucket)
    requires Current(w.bucket.blobs, w.tasks[i].put.Key(cfg)).None?
    ensures var t := w.tasks[i].put;
            Run(cfg, w, events) == World(w.bucket.WriteBlob(t.Key(cfg), Blob(t.request.payload, t.Digest(cfg))),
                                         w.tasks[i := Putting(t.At(Refer(w.bucket.NewId())))])
  {
    hide PutStep, Run, Apply, Current, Bucket.WriteBlob;
    var b, t := w.bucket, w.tasks[i].put;
    var io, blob := IO(3, t.request.payload, None), Blob(t.request.payload, t.Digest(cfg));
    StepAt(cfg, w, i, io);
    UploadStep(cfg, b, t, io);
    RunNothing(cfg, w);
    AfterEvent(cfg, w, [], w, Step(i, io));
    events := [] + [Step(i, io)];
    if cfg.verifyAfterWrite {
      var w1 := World(b.WriteBlob(t.Key(cfg), blob), w.tasks[i := Putting(t.At(Verify(b.NewId())))]);
      StepAt(cfg, w1, i, io);
      VerifyPasses(cfg, b, t, io);
      AfterEvent(cfg, w, events, w1, Step(i, io));
      events := events + [Step(i, io)];
    }
  }

  lemma VerifyPasses(cfg: Config, b: Bucket, t: PutTask, io: IO)
    requires cfg.Valid() && OrderlyIds(b)
    ensures var b' := b.WriteBlob(t.Key(cfg), Blob(t.request.payload, t.Digest(cfg)));
            PutStep(cfg, b', t.At(Verify(b.NewId())), io) == (b', t.At(Refer(b.NewId())))
  {
    UploadEffect(b, t.Key(cfg), Blob(t.request.payload, t.Digest(cfg)));
    hide Find, StackOf, OrderlyIds;
  }

  /** From its record on a put that may replace the pointer publishes. */
  lemma ReferAndMove(cfg: Config, w: World, i: nat) returns (events: seq<Event>)
    requires cfg.Valid() && i < |w.tasks| && w.tasks[i].Putting? && w.tasks[i].put.stage.Refer?
    requires !w.tasks[i].put.CreatesLatest() && Current(w.bucket.references, w.tasks[i].put.Key(cfg)).None?
    ensures var w' := Run(cfg, w, events);
            var t, k := w.tasks[i].put, w.tasks[i].put.Key(cfg);
            && |w'.tasks| == |w.tasks|
            && w'.tasks[i].Putting? && w'.tasks[i].put.stage.PutEnded? && w'.tasks[i].put.stage.outcome.Published?
            && PointsAt(w'.bucket, k)
            && Current(w'.bucket.references, k).Some?
            && w'.bucket.blobs == w.bucket.blobs && OnlySteps(events)
            && var envelope := Current(w'.bucket.references, k).value.value;
               && envelope.blobVersion == t.stage.version && envelope.metadata.length == |t.request.payload|
               && envelope.metadata.objectRef == k.objectRef && envelope.metadata.digest == k.digest
  {
    hide PutStep, Run, Apply, Current, NewEnvelope;
    var b, t, io := w.bucket, w.tasks[i].put, IO(4, [], None);
    StepAt(cfg, w, i, io);
    ReferEffect(cfg, b, t, io);
    EnvelopeOfTask(cfg, t, t.stage.version, io.now);
    var (b1, t1) := PutStep(cfg, b, t, io);
    var w1 := World(b1, w.tasks[i := Putting(t1)]);
    StepKeepsRequest(cfg, b, t, io);
    StepAt(cfg, w1, i, io);
    MoveEffect(cfg, b1, t1, io);
    MovePublishes(cfg, b1, t1, io);
    RunNothing(cfg, w);
    AfterEvent(cfg, w, [], w, Step(i, io));
    AfterEvent(cfg, w, [] + [Step(i, io)], w1, Step(i, io));
    events := [] + [Step(i, io)] + [Step(i, io)];
  }

  lemma MovePublishes(cfg: Config, b: Bucket, t: PutTask, io: IO)
    requires cfg.Valid() && t.stage.MoveLatest? && !t.CreatesLatest()
    ensures var (b', t') := PutStep(cfg, b, t, io);
            && t'.stage == PutEnded(Published(t.stage.envelope.metadata))
            && Current(b'.latest, t.request.objectRef).Some?
            && Current(b'.latest, t.request.objectRef).value.value == t.Digest(cfg)
  {
  }

  /**
   * Without versioning, whatever the size and with every write read back: a delete that has passed its
   * checks frees the key between the read-back of a later put and its record, another upload takes the key,
   * and the put publishes over bytes that it never saw. They are stored under the version that its record
   * names, and when they have its length a stat answers for them.
   */
  lemma StaleDropBreaksRecord(cfg: Config, request: PutRequest, landed: bytes) returns (events: seq<Event>, i: nat)
    requires cfg.Valid() && PlainRequest(cfg, request, request.objectRef) && request.retention.None?
    requires !Good(cfg, landed, cfg.hash(request.payload), |request.payload|)
    ensures var w := Run(cfg, Initial(false), events);
            var k := Version(request.objectRef, cfg.hash(request.payload));
            && i < |w.tasks| && w.tasks[i].Putting?
            && w.tasks[i].put.stage.PutEnded? && w.tasks[i].put.stage.outcome.Published?
            && PointsAt(w.bucket, k)
            && Misled(cfg, w.bucket, k, landed, |request.payload|)
  {
    hide Run, PlainRequest, Gone, Loose, Good, Current, FromRequest, Apply, PutStep, DeleteStep;
    hide Bucket.WriteBlob, Bucket.RemoveBlob, OrderlyIds;
    var k, t := Version(request.objectRef, cfg.hash(request.payload)), StartPut(cfg, request);
    var io := IO(3, landed, None);
    PlainStarts(cfg, request);
    NoIds(false);
    var e1, version := StaleAtDrop(cfg, request);
    var w1 := Run(cfg, Initial(false), e1);
    NothingStored(w1.bucket, 2, k);
    var e2 := BeginsAtUpload(cfg, w1, request, io);
    RunAppend(cfg, Initial(false), e1, e2);
    var w2 := Run(cfg, w1, e2);
    RunKeepsIds(cfg, Initial(false), e1 + e2);
    var e3 := UploadArrives(cfg, w2, 3);
    RunAppend(cfg, Initial(false), e1 + e2, e3);
    var w3 := Run(cfg, w2, e3);
    FreesTheKey(w2.bucket, k, w1.tasks[1].delete, version, Blob(request.payload, k.digest), io);
    DeleteAt(cfg, w3, 1, io);
    AfterEvent(cfg, Initial(false), e1 + e2 + e3, w3, Step(1, io));
    var w4 := Apply(cfg, w3, Step(1, io));
    var e5 := BeginsAtUpload(cfg, w4, request, io);
    RunAppend(cfg, Initial(false), e1 + e2 + e3 + [Step(1, io)], e5);
    var w5 := Run(cfg, w4, e5);
    RunKeepsIds(cfg, Initial(false), e1 + e2 + e3 + [Step(1, io)] + e5);
    StepAt(cfg, w5, 4, io);
    UploadStep(cfg, w5.bucket, t.At(Upload), io);
    UploadLands(cfg, w5.bucket, k, Blob(landed, k.digest));
    UploadEffect(w5.bucket, k, Blob(landed, k.digest));
    AfterEvent(cfg, Initial(false), e1 + e2 + e3 + [Step(1, io)] + e5, w5, Step(4, io));
    var w6 := Apply(cfg, w5, Step(4, io));
    var e7 := ReferAndMove(cfg, w6, 3);
    RunAppend(cfg, Initial(false), e1 + e2 + e3 + [Step(1, io)] + e5 + [Step(4, io)], e7);
    WrongBytesMislead(cfg, Run(cfg, w6, e7).bucket, k, landed, |request.payload|);
    events, i := e1 + e2 + e3 + [Step(1, io)] + e5 + [Step(4, io)] + e7, 3;
  }

  // ---------------------------------------------------------------- the answer of another delete

  /** A delete whose record another has just dropped goes on to the evidence, and the other cannot leave its own. */
  lemma SecondDropEnds(b: Bucket, t: DeleteTask, other: DeleteTask, version: nat, io: IO)
    requires t.stage == DropBlob(true, None, version) && t.envelope.Some? && io.previous.None?
    requires other.stage == HeadLatest && other.key == t.key
    requires Current(b.latest, t.key.objectRef).Some? && Current(b.deletions, t.key).None?
    ensures var (b', outcome) := DeleteToEnd(b, t, io);
            outcome == Deleted && forall io' :: DeleteToEnd(b', other, io').1.DeleteFailed?
  {
    hide DeleteToEnd, FinishDelete, Without, Find;
    DeleteGoesOn(b, t, io);
    var b1 := b.RemoveBlob(t.key, t.envelope.value.blobVersion);
    FinishDeleteIsSteps(b1, t.At(DropReference(true, None, version)), io);
    FinishLeavesEvidence(b1.RemoveReference(t.key, version), t.key, io);
    var b' := DeleteToEnd(b, t, io).0;
    forall io'
      ensures DeleteToEnd(b', other, io').1.DeleteFailed?
    {
      ConflictsOnEvidence(b', other, io');
    }
  }

  lemma FinishLeavesEvidence(b: Bucket, k: Version, io: IO)
    requires Current(b.latest, k.objectRef).Some? && Current(b.deletions, k).None? && io.previous.None?
    ensures var (b', outcome) := FinishDelete(b, k, true, io);
            outcome == Deleted && Current(b'.deletions, k).Some?
  {
    hide Without;
  }

  lemma ConflictsOnEvidence(b: Bucket, t: DeleteTask, io: IO)
    requires t.stage.HeadLatest? && Current(b.deletions, t.key).Some?
    ensures DeleteToEnd(b, t, io).1.DeleteFailed?
  {
    hide DeleteToEnd, Without;
    DeleteGoesOn(b, t, io);
    var (b1, t1) := DeleteStep(b, t, io);
    if t1.stage.DropLatest? {
      DeleteGoesOn(b1, t1, io);
      var (b2, t2) := DeleteStep(b1, t1, io);
      DeleteGoesOn(b2, t2, io);
    }
  }

  lemma PointerAndNoEvidence(b: Bucket, k: Version)
    requires StackOf(b.latest, k.objectRef) != [] && b.deletions == map[]
    ensures Current(b.latest, k.objectRef).Some? && Current(b.deletions, k).None?
  {
  }

  /** The first delete, stepped twice, removes blob and record. */
  lemma DropsBoth(cfg: Config, w: World, k: Version, version: nat, io: IO)
    requires cfg.Valid() && |w.tasks| > 1 && w.tasks[1].Deleting?
    requires |StackOf(w.bucket.references, k)| == 1 && PublishedAt(w.bucket, k).Some?
    requires version == Current(w.bucket.references, k).value.id
    requires w.tasks[1].delete ==
             StartDelete(k).(envelope := PublishedAt(w.bucket, k)).At(DropBlob(true, None, version))
    ensures var w' := Run(cfg, w, [Step(1, io), Step(1, io)]);
            && w'.tasks == w.tasks[1 := Deleting(w.tasks[1].delete.At(HeadLatest))]
            && Current(w'.bucket.references, k).None? && w'.bucket.latest == w.bucket.latest
            && w'.bucket.deletions == w.bucket.deletions
  {
    var t := w.tasks[1].delete;
    var b1 := w.bucket.RemoveBlob(k, t.envelope.value.blobVersion);
    var w1 := World(b1, w.tasks[1 := Deleting(t.At(DropReference(true, None, version)))]);
    OnlyRecordGoes(StackOf(w.bucket.references, k));
    hide Apply, Without, Run;
    DeleteAt(cfg, w, 1, io);
    DeleteAt(cfg, w1, 1, io);
    RunNothing(cfg, w);
    AfterEvent(cfg, w, [], w, Step(1, io));
    AfterEvent(cfg, w, [] + [Step(1, io)], w1, Step(1, io));
    assert [] + [Step(1, io)] + [Step(1, io)] == [Step(1, io), Step(1, io)];
  }

  /**
   * Two deletes of one version overlap, and the first removes the record after both have found it: the second then
   * removes nothing, leaves the evidence and answers that it deleted, and the first can only fail.
   */
  lemma OtherDeleteAnswers(cfg: Config, versioned: bool, request: PutRequest)
    returns (earlier: seq<Event>, later: seq<Event>)
    requires cfg.Valid() && PlainRequest(cfg, request, request.objectRef) && request.retention.None?
    ensures var k := Version(request.objectRef, cfg.hash(request.payload));
            var w := Run(cfg, Initial(versioned), earlier);
            var w' := Run(cfg, w, later);
            && Current(w.bucket.references, k).None? && OnlySteps(later)
            && |w.tasks| == 3
            && w.tasks[1].Deleting? && w.tasks[1].delete.key == k && w.tasks[1].delete.stage == HeadLatest
            && w.tasks[2].Deleting? && w.tasks[2].delete.key == k && w.tasks[2].delete.stage.DropBlob?
            && |w'.tasks| == 3 && w'.tasks[2].Deleting? && w'.tasks[2].delete.stage == DeleteEnded(Deleted)
            && w'.tasks[1] == w.tasks[1]
            && forall io :: DeleteToEnd(w'.bucket, w'.tasks[1].delete, io).1.DeleteFailed?
  {
    hide Run, PlainRequest, Loose, DeleteToEnd, PublishedAt, Current;
    var k, io := Version(request.objectRef, cfg.hash(request.payload)), IO(2, [], None);
    var e1 := FirstPublished(cfg, versioned, request);
    var w1 := Run(cfg, Initial(versioned), e1);
    LooseMeans(w1.bucket, k);
    PointerAndNoEvidence(w1.bucket, k);
    var e2 := DeleteReachesDrop(cfg, w1, k);
    RunAppend(cfg, Initial(versioned), e1, e2);
    var w2 := Run(cfg, w1, e2);
    var e3 := DeleteReachesDrop(cfg, w2, k);
    RunAppend(cfg, Initial(versioned), e1 + e2, e3);
    var w3 := Run(cfg, w2, e3);
    var version := Current(w1.bucket.references, k).value.id;
    DropsBoth(cfg, w3, k, version, io);
    RunAppend(cfg, Initial(versioned), e1 + e2 + e3, [Step(1, io), Step(1, io)]);
    earlier := e1 + e2 + e3 + [Step(1, io), Step(1, io)];
    var w4 := Run(cfg, Initial(versioned), earlier);
    SecondDropEnds(w4.bucket, w4.tasks[2].delete, w4.tasks[1].delete, version, io);
    later := DeleteAlone(cfg, w4, 2, io);
  }

  /** The state after a put, a delete about to remove the blob, and a second whole delete. */
  lemma StaleAtDrop(cfg: Config, request: PutRequest) returns (events: seq<Event>, version: nat)
    requires cfg.Valid() && PlainRequest(cfg, request, request.objectRef) && request.retention.None?
    ensures var k := Version(request.objectRef, cfg.hash(request.payload));
            var w := Run(cfg, Initial(false), events);
            && |w.tasks| == 3 && Gone(w.bucket, 2, k) && !w.bucket.versioned
            && Current(w.bucket.latest, k.objectRef).None?
            && w.tasks[1].Deleting? && w.tasks[1].delete.key == k
            && w.tasks[1].delete.stage == DropBlob(true, None, version)
            && w.tasks[1].delete.envelope.Some? && w.tasks[1].delete.envelope.value.blobVersion == UNVERSIONED
  {
    hide Run, PlainRequest, Gone;
    var k := Version(request.objectRef, cfg.hash(request.payload));
    var first := FirstPublished(cfg, false, request);
    var w1 := Run(cfg, Initial(false), first);
    assert PublishedAt(w1.bucket, k).Some? && PublishedAt(w1.bucket, k).value.blobVersion == UNVERSIONED;
    version := Current(w1.bucket.references, k).value.id;
    hide Loose, PublishedAt;
    var begun := DeleteReachesDrop(cfg, w1, k);
    RunAppend(cfg, Initial(false), first, begun);
    var w2 := Run(cfg, w1, begun);
    var whole := DeletesAll(cfg, w2, k);
    RunAppend(cfg, Initial(false), first + begun, whole);
    events := first + begun + whole;
    assert Run(cfg, w2, whole).tasks[1] == w2.tasks[1];
  }

  lemma NothingStored(b: Bucket, clock: int, k: Version)
    requires Gone(b, clock, k)
    ensures Current(b.blobs, k).None? && Current(b.references, k).None?
  {
  }

  /** The stale removal meets the blob that another put has just stored. */
  lemma FreesTheKey(b: Bucket, k: Version, t: DeleteTask, version: nat, blob: Blob, io: IO)
    requires !b.versioned && t.key == k && t.stage == DropBlob(true, None, version)
    requires t.envelope.Some? && t.envelope.value.blobVersion == UNVERSIONED
    ensures var (b', t') := DeleteStep(b.WriteBlob(k, blob), t, io);
            && Current(b'.blobs, k).None? && b'.references == b.references && b'.latest == b.latest && !b'.versioned
  {
    assert Without([Entry(UNVERSIONED, blob)], UNVERSIONED) == [];
  }

  // ---------------------------------------------------------------- a lost update

  /** What the second of two plain puts of an object leaves: its record, its blob, and its pointer version on top. */
  lemma SecondPublishes(cfg: Config, b: Bucket, clock: int, request: PutRequest, io: IO)
    requires cfg.Valid() && Sound(b, clock) && io.now > clock && io.landed == request.payload
    requires PlainRequest(cfg, request, request.objectRef)
    requires var k := Version(request.objectRef, cfg.hash(request.payload));
             Current(b.references, k).None? && StackOf(b.blobs, k) == []
    ensures var k := Version(request.objectRef, cfg.hash(request.payload));
            var (b', outcome) := RunPut(cfg, b, request, io);
            var s := StackOf(b.latest, k.objectRef);
            && outcome.Published? && Sound(b', io.now) && b'.versioned == b.versioned
            && Stat(b', k.objectRef, Some(k.digest)).Ok?
            && (forall j | j != k :: StackOf(b'.references, j) == StackOf(b.references, j))
            && (exists id :: StackOf(b'.latest, k.objectRef) == (if b.versioned then s else []) + [Entry(id, k.digest)])
  {
    var k := Version(request.objectRef, cfg.hash(request.payload));
    NoStackNoBlob(b, k);
    PlainPutPublishes(cfg, b, clock, request, io);
    PlainEnvelope(cfg, b, request, io);
    var envelope := WrittenEnvelope(cfg, b, request, io);
    WritesPushPointer(b, k, Blob(io.landed, k.digest), envelope);
    hide RunPut, Sound, Abstract, Publish, WrittenEnvelope, StackOf, Find;
    hide Bucket.WriteBlob, Bucket.WriteReference, Bucket.WriteLatest;
  }

  lemma NoStackNoBlob(b: Bucket, k: Version)
    requires StackOf(b.blobs, k) == []
    ensures Current(b.blobs, k).None?
  {
  }

  lemma WritesPushPointer(b: Bucket, k: Version, blob: Blob, envelope: Envelope)
    requires StackOf(b.blobs, k) == [] && Current(b.references, k).None? && envelope.blobVersion == b.NewId()
    requires envelope.metadata.digest == k.digest && envelope.metadata.objectRef == k.objectRef
    requires envelope.metadata.length == |blob.content| && blob.tag == k.digest
    ensures var b' := b.WriteBlob(k, blob).WriteReference(k, envelope).WriteLatest(k.objectRef, k.digest);
            && b'.versioned == b.versioned && Stat(b', k.objectRef, Some(k.digest)) == Ok(envelope)
            && (forall j | j != k :: StackOf(b'.references, j) == StackOf(b.references, j))
            && (exists id :: StackOf(b'.latest, k.objectRef) ==
                             (if b.versioned then StackOf(b.latest, k.objectRef) else []) + [Entry(id, k.digest)])
  {
    var b' := b.WriteBlob(k, blob).WriteReference(k, envelope).WriteLatest(k.objectRef, k.digest);
    assert StackOf(b'.blobs, k) == [Entry(b.NewId(), blob)];
    assert Version(k.objectRef, k.digest) == k;
    var id := if b.versioned then b.next + 2 else UNVERSIONED;
    assert StackOf(b'.latest, k.objectRef) ==
           (if b.versioned then StackOf(b.latest, k.objectRef) else []) + [Entry(id, k.digest)];
  }

  /** A delete of `j` that goes on past another put's publication: the pointer version on top is the one that goes. */
  lemma StaleDeleteEnds(b: Bucket, t: DeleteTask, version: nat, io: IO, rest: seq<Entry<Digest>>, id: nat, d: Digest)
    requires t.stage == DropBlob(true, None, version) && t.envelope.Some? && io.previous.None?
    requires StackOf(b.latest, t.key.objectRef) == rest + [Entry(id, d)]
        && UniqueIds(StackOf(b.latest, t.key.objectRef))
    ensures var b' := DeleteToEnd(b, t, io).0;
            && StackOf(b'.latest, t.key.objectRef) == rest
            && StackOf(b'.references, t.key) == Without(StackOf(b.references, t.key), version)
            && (forall k | k != t.key :: StackOf(b'.references, k) == StackOf(b.references, k)
                                         && StackOf(b'.blobs, k) == StackOf(b.blobs, k))
  {
    hide DeleteToEnd, FinishDelete, Without;
    var b1 := b.RemoveBlob(t.key, t.envelope.value.blobVersion);
    DeleteGoesOn(b, t, io);
    var b2 := b1.RemoveReference(t.key, version);
    FinishDeleteIsSteps(b1, t.At(DropReference(true, None, version)), io);
    FinishDeleteShape(b2, t.key, true, io);
    WithoutLast(StackOf(b.latest, t.key.objectRef));
    assert (rest + [Entry(id, d)])[..|rest|] == rest;
  }

  lemma BeginsPut(cfg: Config, w: World, request: PutRequest)
    requires cfg.Valid()
    ensures Apply(cfg, w, BeginPut(request)) == World(w.bucket, w.tasks + [Putting(StartPut(cfg, request))])
    ensures StartPut(cfg, request).request == request
  {
  }

  lemma OnlyRecordGoes(s: seq<Entry<Envelope>>)
    requires |s| == 1
    ensures Without(s, s[0].id) == []
  {
    assert Without(s[1..], s[0].id) == [];
  }

  lemma NoneStored<T>(bound: nat)
    ensures IdsBelow<T>([], bound)
  {
  }

  lemma LosesPointer(b: Bucket, j: Version, rest: seq<Entry<Digest>>)
    requires StackOf(b.latest, j.objectRef) == rest && (rest != [] ==> rest[|rest| - 1].value == j.digest)
    requires StackOf(b.references, j) == []
    ensures Stat(b, j.objectRef, None) == Err(NotFound)
  {
    assert Version(j.objectRef, j.digest) == j;
  }

  lemma SameVersionStats(b: Bucket, b': Bucket, k: Version)
    requires StackOf(b'.references, k) == StackOf(b.references, k) && StackOf(b'.blobs, k) == StackOf(b.blobs, k)
    requires Stat(b, k.objectRef, Some(k.digest)).Ok?
    ensures Stat(b', k.objectRef, Some(k.digest)) == Stat(b, k.objectRef, Some(k.digest))
  {
    assert Version(k.objectRef, k.digest) == k;
    hide StackOf, Find;
  }

  lemma LooseMeans(b: Bucket, k: Version)
    requires Loose(b, 1, k)
    ensures Sound(b, 1) && |StackOf(b.references, k)| == 1 && PublishedAt(b, k).Some?
    ensures Current(b.references, k) == Some(StackOf(b.references, k)[0])
    ensures StackOf(b.latest, k.objectRef) != []
    ensures StackOf(b.latest, k.objectRef)[|StackOf(b.latest, k.objectRef)| - 1].value == k.digest
    ensures forall d | d != k.digest :: Current(b.references, Version(k.objectRef, d)).None?
  {
    forall d | d != k.digest
      ensures Current(b.references, Version(k.objectRef, d)).None?
    {
      assert !Has(Abstract(b), k.objectRef, d);
      UnpublishedHasNoRecord(b, Version(k.objectRef, d));
    }
    hide Abstract;
  }

  /**
   * A delete that has found its version current goes on after another put of the object has succeeded: it drops
   * the pointer that this put has just written. The version is stored and can be asked for by its digest, but
   * the object is not found any more.
   */
  lemma StaleDeleteLosesUpdate(cfg: Config, versioned: bool, first: PutRequest, second: PutRequest)
    returns (events: seq<Event>)
    requires cfg.Valid() && PlainRequest(cfg, first, first.objectRef) && first.retention.None?
    requires second.objectRef == first.objectRef && PlainRequest(cfg, second, second.objectRef)
    requires cfg.hash(second.payload) != cfg.hash(first.payload)
    ensures var w := Run(cfg, Initial(versioned), events);
            var o := first.objectRef;
            && |w.tasks| == 3 && w.tasks[2].Putting? && w.tasks[2].put.request == second
            && w.tasks[2].put.stage.PutEnded? && w.tasks[2].put.stage.outcome.Published?
            && Stat(w.bucket, o, Some(cfg.hash(second.payload))).Ok? && Stat(w.bucket, o, None) == Err(NotFound)
  {
    hide RunPut, PutToEnd, DeleteToEnd, Run, Apply, PlainRequest, Loose, Sound, Stat, StackOf, Current, StartPut,
        PublishedAt;
    var o, j, k := first.objectRef, Version(first.objectRef, cfg.hash(first.payload)),
        Version(first.objectRef, cfg.hash(second.payload));
    var e1 := FirstPublished(cfg, versioned, first);
    var w1 := Run(cfg, Initial(versioned), e1);
    LooseMeans(w1.bucket, j);
    var e2 := DeleteReachesDrop(cfg, w1, j);
    RunAppend(cfg, Initial(versioned), e1, e2);
    var w2 := Run(cfg, w1, e2);
    var io := IO(3, second.payload, None);
    var w3 := World(w2.bucket, w2.tasks + [Putting(StartPut(cfg, second))]);
    BeginsPut(cfg, w2, second);
    AfterEvent(cfg, Initial(versioned), e1 + e2, w2, BeginPut(second));
    var e3 := PutAlone(cfg, w3, 2, io);
    RunAppend(cfg, Initial(versioned), e1 + e2 + [BeginPut(second)], e3);
    var w4 := Run(cfg, w3, e3);
    NoneStored<Blob>(w1.bucket.next);
    RunPutIsSteps(cfg, w1.bucket, second, io);
    SecondPublishes(cfg, w1.bucket, 1, second, io);
    var rest := if versioned then StackOf(w1.bucket.latest, o) else [];
    var id :| StackOf(w4.bucket.latest, o) == rest + [Entry(id, k.digest)];
    SoundIsUnique(w4.bucket, 3, o);
    var t := w2.tasks[1].delete;
    StaleDeleteEnds(w4.bucket, t, Current(w1.bucket.references, j).value.id, IO(4, [], None), rest, id, k.digest);
    var e4 := DeleteAlone(cfg, w4, 1, IO(4, [], None));
    RunAppend(cfg, Initial(versioned), e1 + e2 + [BeginPut(second)] + e3, e4);
    events := e1 + e2 + [BeginPut(second)] + e3 + e4;
    var b := Run(cfg, w4, e4).bucket;
    OnlyRecordGoes(StackOf(w1.bucket.references, j));
    LosesPointer(b, j, rest);
    SameVersionStats(w4.bucket, b, k);
  }

  lemma SoundIsUnique(b: Bucket, clock: int, o: ObjectRef)
    requires Sound(b, clock)
    ensures UniqueIds(StackOf(b.latest, o))
  {
  }
}
