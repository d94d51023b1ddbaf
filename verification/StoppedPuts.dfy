/**
 * A put that stops half way, and running it again (adapter.py, _put, _read_envelope, _stat).
 */
module StoppedPuts {
  import opened Wrappers
  import opened Streams
  import opened Retention
  import opened Bucket
  import opened Publication
  import opened Serial
  import opened Deletion

  // ---------------------------------------------------------------- a put that stops

  /** As many steps as there are answers from the surroundings, or as the put has left. */
  function PutSteps(cfg: Config, b: Bucket, t: PutTask, ios: seq<IO>): (Bucket, PutTask)
    requires cfg.Valid()
    decreases |ios|
  {
    if ios == [] || t.stage.PutEnded? then (b, t)
    else var (b', t') := PutStep(cfg, b, t, ios[0]); PutSteps(cfg, b', t', ios[1..])
  }

  /** The upload has taken effect. */
  function WithBlob(cfg: Config, b: Bucket, t: PutTask, landed: bytes): Bucket {
    b.WriteBlob(t.Key(cfg), Blob(landed, t.Digest(cfg)))
  }

  /** The reference record is there, too. */
  function WithRecord(cfg: Config, b: Bucket, t: PutTask, landed: bytes, now: int): Bucket
    requires cfg.Valid()
  {
    WithBlob(cfg, b, t, landed).WriteReference(t.Key(cfg), NewEnvelope(cfg, t, b.NewId(), now))
  }

  /** The first check of what the object reads as lets the put pass. */
  predicate PassedFirst(cfg: Config, b: Bucket, t: PutTask) {
    TryLatest(b, t.request.objectRef).Ok? && AfterFirst(cfg, t, TryLatest(b, t.request.objectRef).value).stage.Second?
  }

  /** Both checks let the put pass to the upload. */
  predicate LetThrough(cfg: Config, b: Bucket, t: PutTask) {
    PassedFirst(cfg, b, t) && AfterSecond(cfg, t, TryLatest(b, t.request.objectRef).value).stage.Upload?
  }

  predicate Stores(cfg: Config, b: Bucket, t: PutTask) {
    LetThrough(cfg, b, t) && (t.Single(cfg) ==> Current(b.blobs, t.Key(cfg)).None?)
  }

  predicate Refers(cfg: Config, b: Bucket, t: PutTask, landed: bytes) {
    && Stores(cfg, b, t) && Current(b.references, t.Key(cfg)).None?
    && (cfg.verifyAfterWrite ==> |landed| == |t.request.payload|)
  }

  /** What the lone put `t0` that started in `b` has written when it is at `t`. */
  ghost predicate HasWritten(cfg: Config, b: Bucket, t0: PutTask, landed: bytes, now: int, b': Bucket, t: PutTask)
    requires cfg.Valid()
  {
    if !t.referenced then
      !t.moved && (b' == b || (Stores(cfg, b, t0) && b' == WithBlob(cfg, b, t0, landed)))
    else
      && Refers(cfg, b, t0, landed)
      && var recorded := WithRecord(cfg, b, t0, landed, now);
         if t.moved then b' == recorded.WriteLatest(t0.request.objectRef, t0.Digest(cfg))
         else b' == recorded || b' == recorded.WriteOrphan(t0.Key(cfg), "latest-conflict")
  }

  /** Where it can stand. */
  ghost predicate PutStands(cfg: Config, b: Bucket, t0: PutTask, landed: bytes, now: int, b': Bucket, t: PutTask)
    requires cfg.Valid()
  {
    && t.request == t0.request && t.record == t0.record
    && match t.stage
       case PutEnded(_) => HasWritten(cfg, b, t0, landed, now, b', t)
       case Verify(version) =>
         && !t.referenced && !t.moved && Stores(cfg, b, t0) && b' == WithBlob(cfg, b, t0, landed)
         && version == b.NewId() && Find(StackOf(b'.blobs, t0.Key(cfg)), version) == Some(Blob(landed, t0.Digest(cfg)))
       case Refer(version) =>
         && !t.referenced && !t.moved && Stores(cfg, b, t0) && b' == WithBlob(cfg, b, t0, landed)
         && version == b.NewId() && (cfg.verifyAfterWrite ==> |landed| == |t0.request.payload|)
       case _ =>
         if Checks(t.stage) || t.stage.Upload? then
           b' == b && !t.referenced && !t.moved && Checked(cfg, b, t0, t.stage)
         else
           && t.referenced && !t.moved && Refers(cfg, b, t0, landed)
           && b' == WithRecord(cfg, b, t0, landed, now)
  }

  /** What the checks before `stage` have found out. */
  ghost predicate Checked(cfg: Config, b: Bucket, t0: PutTask, stage: PutStage) {
    match stage
    case FirstReference(d) => PointsAt(b, Version(t0.request.objectRef, d))
    case Second => PassedFirst(cfg, b, t0)
    case SecondReference(d) => PassedFirst(cfg, b, t0) && PointsAt(b, Version(t0.request.objectRef, d))
    case Upload => LetThrough(cfg, b, t0)
    case _ => true
  }

  lemma CheckStepStands(cfg: Config, b: Bucket, t0: PutTask, landed: bytes, now: int, t: PutTask, io: IO)
    requires cfg.Valid() && Checks(t.stage) && PutStands(cfg, b, t0, landed, now, b, t)
    ensures var (b', t') := PutStep(cfg, b, t, io); PutStands(cfg, b, t0, landed, now, b', t')
  {
    hide StackOf, Find, NewEnvelope, Stores, Refers;
    CheckingReads(cfg, b, t, io);
  }

  lemma UploadStepStands(cfg: Config, b: Bucket, t0: PutTask, landed: bytes, now: int, t: PutTask, io: IO)
    requires cfg.Valid() && t.stage.Upload? && PutStands(cfg, b, t0, landed, now, b, t)
    requires IdsBelow(StackOf(b.blobs, t0.Key(cfg)), b.next)
    ensures var (b', t') := PutStep(cfg, b, t, io); PutStands(cfg, b, t0, io.landed, now, b', t')
  {
    StoredReadsBack(b, t0.Key(cfg), Blob(io.landed, t0.Digest(cfg)));
    hide StackOf, Find, NewEnvelope, IdsBelow, LetThrough, Current;
  }

  lemma RecordStepStands(cfg: Config, b: Bucket, t0: PutTask, landed: bytes, now: int, b': Bucket, t: PutTask, io: IO)
    requires cfg.Valid() && (t.stage.Verify? || t.stage.Refer?) && PutStands(cfg, b, t0, landed, now, b', t)
    ensures var (b'', t') := PutStep(cfg, b', t, io); PutStands(cfg, b, t0, landed, io.now, b'', t')
  {
    hide StackOf, Find, IdsBelow, LetThrough, Current, ReadExact;
    if t.stage.Refer? {
      hide NewEnvelope;
      EnvelopeIgnoresStage(cfg, t, t0, b.NewId(), io.now);
    }
  }

  lemma LastStepStands(cfg: Config, b: Bucket, t0: PutTask, landed: bytes, now: int, b': Bucket, t: PutTask, io: IO)
    requires cfg.Valid() && !t.stage.PutEnded? && PutStands(cfg, b, t0, landed, now, b', t)
    requires !Checks(t.stage) && !t.stage.Upload? && !t.stage.Verify? && !t.stage.Refer?
    ensures var (b'', t') := PutStep(cfg, b', t, io); PutStands(cfg, b, t0, landed, now, b'', t')
  {
    hide StackOf, Find, NewEnvelope, Refers, Current, ReadExact;
  }

  lemma {:induction false} PutStepsStand(cfg: Config, b: Bucket, t0: PutTask, landed: bytes, now: int,
                                         b': Bucket, t: PutTask, ios: seq<IO>) returns (landed': bytes, now': int)
    requires cfg.Valid() && PutStands(cfg, b, t0, landed, now, b', t)
    requires IdsBelow(StackOf(b.blobs, t0.Key(cfg)), b.next)
    ensures var (b'', t') := PutSteps(cfg, b', t, ios);
            PutStands(cfg, b, t0, landed', now', b'', t') && HasWritten(cfg, b, t0, landed', now', b'', t')
    decreases |ios|
  {
    hide PutStep, IdsBelow, StackOf, Find;
    if ios == [] || t.stage.PutEnded? {
      landed', now' := landed, now;
      StandingWrote(cfg, b, t0, landed, now, b', t);
    } else {
      var (b1, t1) := PutStep(cfg, b', t, ios[0]);
      landed', now' := landed, now;
      if Checks(t.stage) {
        CheckStepStands(cfg, b, t0, landed, now, t, ios[0]);
      } else if t.stage.Upload? {
        UploadStepStands(cfg, b, t0, landed, now, t, ios[0]);
        landed' := ios[0].landed;
      } else if t.stage.Verify? || t.stage.Refer? {
        RecordStepStands(cfg, b, t0, landed, now, b', t, ios[0]);
        now' := ios[0].now;
      } else {
        LastStepStands(cfg, b, t0, landed, now, b', t, ios[0]);
      }
      landed', now' := PutStepsStand(cfg, b, t0, landed', now', b1, t1, ios[1..]);
    }
  }

  lemma StandingWrote(cfg: Config, b: Bucket, t0: PutTask, landed: bytes, now: int, b': Bucket, t: PutTask)
    requires cfg.Valid() && PutStands(cfg, b, t0, landed, now, b', t)
    ensures HasWritten(cfg, b, t0, landed, now, b', t)
  {
    hide Refers, Stores, WithRecord, WithBlob, Checked, Find, StackOf;
  }

  /** Wherever a put stops, what it has written is a stage of what it would write. */
  lemma {:induction false} StoppedPutWrote(cfg: Config, b: Bucket, request: PutRequest, ios: seq<IO>)
    returns (landed: bytes, now: int)
    requires cfg.Valid()
    requires IdsBelow(StackOf(b.blobs, Version(request.objectRef, cfg.hash(request.payload))), b.next)
    ensures var t0 := StartPut(cfg, request);
            var (b', t') := PutSteps(cfg, b, t0, ios);
            HasWritten(cfg, b, t0, landed, now, b', t')
  {
    hide PutSteps, IdsBelow, Refers, Stores, WithBlob, WithRecord, FromRequest;
    var t0 := StartPut(cfg, request);
    landed, now := PutStepsStand(cfg, b, t0, [], 0, b, t0, ios);
  }

  // ---------------------------------------------------------------- reading meanwhile

  lemma {:induction false} PutStepsTouchOwn(cfg: Config, b: Bucket, t: PutTask, ios: seq<IO>)
    requires cfg.Valid()
    ensures OthersUntouched(b, PutSteps(cfg, b, t, ios).0, t.Key(cfg))
    decreases |ios|
  {
    hide PutStep, StackOf;
    if ios != [] && !t.stage.PutEnded? {
      PutStepTouchesOwn(cfg, b, t, ios[0]);
      var (b', t') := PutStep(cfg, b, t, ios[0]);
      PutStepRequest(cfg, b, t, ios[0]);
      PutStepsTouchOwn(cfg, b', t', ios[1..]);
    }
  }

  lemma PutStepRequest(cfg: Config, b: Bucket, t: PutTask, io: IO)
    requires cfg.Valid() && !t.stage.PutEnded?
    ensures PutStep(cfg, b, t, io).1.request == t.request
  {
    hide Current, StackOf, Find, NewEnvelope, ReadExact;
  }

  /** Wherever a put stops, every other version of every object reads as before. */
  lemma {:induction false} StoppedPutKeepsTheRest(cfg: Config, b: Bucket, request: PutRequest, ios: seq<IO>, j: Version)
    requires cfg.Valid() && j != StartPut(cfg, request).Key(cfg)
    ensures var b' := PutSteps(cfg, b, StartPut(cfg, request), ios).0;
            && StackOf(b'.blobs, j) == StackOf(b.blobs, j) && StackOf(b'.references, j) == StackOf(b.references, j)
            && Stat(b', j.objectRef, Some(j.digest)) == Stat(b, j.objectRef, Some(j.digest))
            && (j.objectRef != request.objectRef ==> Stat(b', j.objectRef, None) == Stat(b, j.objectRef, None))
  {
    var t0 := StartPut(cfg, request);
    PutStepsTouchOwn(cfg, b, t0, ios);
    var b' := PutSteps(cfg, b, t0, ios).0;
    if j.objectRef != request.objectRef {
      hide PutSteps, Stat, StackOf, StartPut;
      SameObjectReads(b, b', j.objectRef, Some(j.digest));
      SameObjectReads(b, b', j.objectRef, None);
    } else {
      hide PutSteps, OthersUntouched, StackOf, Find, FromRequest;
    }
  }

  lemma PushedIsCurrent<K, T>(b: Bucket, m: map<K, seq<Entry<T>>>, k: K, value: T)
    ensures Current(m[k := b.Pushed(StackOf(m, k), value)], k).Some?
    ensures Current(m[k := b.Pushed(StackOf(m, k), value)], k).value.value == value
  {
  }

  /** The pointer moves last, and no record changes before its own is written. */
  lemma WroteInOrder(cfg: Config, b: Bucket, t0: PutTask, landed: bytes, now: int, b': Bucket, t: PutTask)
    requires cfg.Valid() && HasWritten(cfg, b, t0, landed, now, b', t)
    ensures !t.referenced ==> !t.moved && b'.references == b.references
    ensures if t.moved then PointsAt(b', t0.Key(cfg)) else b'.latest == b.latest
  {
    hide NewEnvelope, Refers, Stores;
    if t.moved {
      PushedIsCurrent(WithRecord(cfg, b, t0, landed, now), b.latest, t0.request.objectRef, t0.Digest(cfg));
    }
    hide StackOf, Current;
  }

  lemma WrittenReads(b: Bucket, k: Version, own: Envelope)
    requires own.metadata.objectRef == k.objectRef && own.metadata.digest == k.digest
    ensures ReadExact(b.WriteReference(k, own), k) == Ok(own)
    ensures forall j | j != k :: ReadExact(b.WriteReference(k, own), j) == ReadExact(b, j)
  {
    PushedIsCurrent(b, b.references, k, own);
  }

  lemma ReadsAlike(b: Bucket, b': Bucket)
    requires b'.references == b.references
    ensures forall j :: ReadExact(b', j) == ReadExact(b, j)
  {
  }

  /** What the records say of the version once the put has written its own. */
  lemma RecordedReads(cfg: Config, b: Bucket, t0: PutTask, landed: bytes, now: int, b': Bucket, t: PutTask)
    requires cfg.Valid() && HasWritten(cfg, b, t0, landed, now, b', t) && t.referenced
    ensures var k, own := t0.Key(cfg), NewEnvelope(cfg, t0, b.NewId(), now);
            && Current(b.references, k).None? && ReadExact(b', k) == Ok(own)
            && (forall j | j != k :: ReadExact(b', j) == ReadExact(b, j))
  {
    hide Stores, ReadExact, Current, StackOf;
    var b1 := WithBlob(cfg, b, t0, landed);
    WrittenReads(b1, t0.Key(cfg), NewEnvelope(cfg, t0, b.NewId(), now));
    ReadsAlike(b, b1);
    ReadsAlike(WithRecord(cfg, b, t0, landed, now), b');
  }

  lemma StoredStats(cfg: Config, b: Bucket, t0: PutTask, landed: bytes, now: int, b': Bucket, t: PutTask)
    requires cfg.Valid() && cfg.verifyAfterWrite && HasWritten(cfg, b, t0, landed, now, b', t) && t.referenced
    requires IdsBelow(StackOf(b.blobs, t0.Key(cfg)), b.next)
    ensures var k := t0.Key(cfg);
            ReadExact(b', k).Ok? && Stat(b', k.objectRef, Some(k.digest)) == ReadExact(b', k)
  {
    var k := t0.Key(cfg);
    RecordedReads(cfg, b, t0, landed, now, b', t);
    StoredReadsBack(b, k, Blob(landed, k.digest));
    assert StackOf(b'.blobs, k) == StackOf(WithBlob(cfg, b, t0, landed).blobs, k);
    hide HasWritten, StackOf, Find, IdsBelow, Stores, ReadExact, Current;
  }

  /**
   * While a put stands anywhere, its version reads as before until its record is written and as that
   * record from then on, and the object reads as before until the latest pointer names the recorded version;
   * with reading back, a written record also has its payload.
   */
  lemma {:induction false} StoppedPutReads(cfg: Config, b: Bucket, request: PutRequest, ios: seq<IO>)
    requires cfg.Valid()
    requires IdsBelow(StackOf(b.blobs, Version(request.objectRef, cfg.hash(request.payload))), b.next)
    ensures var t0 := StartPut(cfg, request);
            var o, k := request.objectRef, t0.Key(cfg);
            var (b', t') := PutSteps(cfg, b, t0, ios);
            && (!t'.moved ==> b'.latest == b.latest) && (t'.moved ==> t'.referenced && PointsAt(b', k))
            && (!t'.referenced ==> b'.references == b.references)
            && (t'.referenced ==>
                  && Current(b.references, k).None? && ReadEnvelope(b', o, Some(k.digest)).Ok?
                  && var own := ReadEnvelope(b', o, Some(k.digest)).value;
                     && own == NewEnvelope(cfg, t0, b.NewId(), own.metadata.createdAt)
                     && (cfg.verifyAfterWrite ==> Stat(b', o, Some(k.digest)) == Ok(own)))
            && ReadEnvelope(b', o, None) ==
               if t'.referenced && PointsAt(b', k) then ReadEnvelope(b', o, Some(k.digest))
               else ReadEnvelope(b, o, None)
  {
    hide PutSteps, StackOf, Find, IdsBelow, FromRequest, HasWritten, Stat, Current;
    var t0 := StartPut(cfg, request);
    var k := t0.Key(cfg);
    var (b', t') := PutSteps(cfg, b, t0, ios);
    var landed, now := StoppedPutWrote(cfg, b, request, ios);
    assert Version(k.objectRef, k.digest) == k;
    WroteInOrder(cfg, b, t0, landed, now, b', t');
    if t'.referenced {
      RecordedReads(cfg, b, t0, landed, now, b', t');
      if cfg.verifyAfterWrite {
        StoredStats(cfg, b, t0, landed, now, b', t');
      }
    }
  }

  // ---------------------------------------------------------------- running it again

  /** The answer to a request whose version is published already. */
  function AnswerToRepeat(request: PutRequest, own: Envelope): PutOutcome {
    if request.createOnly then PutFailed(ConditionalConflict) else Repeated(own.metadata)
  }

  /** The latest pointer names the recorded version. */
  lemma RepeatAgain(cfg: Config, b: Bucket, request: PutRequest, own: Envelope, io: IO)
    requires cfg.Valid()
    requires var t0 := StartPut(cfg, request);
             && t0.stage.First? && PointsAt(b, t0.Key(cfg)) && ReadExact(b, t0.Key(cfg)) == Ok(own)
             && own == NewEnvelope(cfg, t0, own.blobVersion, own.metadata.createdAt)
             && |request.payload| <= cfg.maxObjectBytes
    ensures RunPut(cfg, b, request, io) == (b, AnswerToRepeat(request, own))
  {
    hide WritePut, ReadExact, Current, FromRequest;
  }

  /** The object reads as it did when the put was admitted. */
  lemma AdmittedAgain(cfg: Config, b: Bucket, b': Bucket, request: PutRequest, io: IO)
    requires cfg.Valid()
    requires var t0 := StartPut(cfg, request);
             && t0.stage.First? && LetThrough(cfg, b, t0)
             && TryLatest(b', request.objectRef) == TryLatest(b, request.objectRef)
    ensures RunPut(cfg, b', request, io) == WritePut(cfg, b', StartPut(cfg, request), io)
  {
    hide WritePut, TryLatest, FromRequest;
  }

  /** Only the upload took effect: a single upload is refused now, a multipart one answers as at first. */
  lemma UploadAgain(cfg: Config, b: Bucket, request: PutRequest, landed: bytes, io: IO)
    requires cfg.Valid() && StartPut(cfg, request).stage.First? && Stores(cfg, b, StartPut(cfg, request))
    ensures var t0 := StartPut(cfg, request);
            var b' := WithBlob(cfg, b, t0, landed);
            if t0.Single(cfg) then RunPut(cfg, b', request, io) == (b', PutFailed(ConditionalConflict))
            else RunPut(cfg, b', request, io).1 == RunPut(cfg, b, request, io).1
  {
    var t0 := StartPut(cfg, request);
    var b' := WithBlob(cfg, b, t0, landed);
    AdmittedAgain(cfg, b, b, request, io);
    AdmittedAgain(cfg, b, b', request, io);
    PushedIsCurrent(b, b.blobs, t0.Key(cfg), Blob(landed, t0.Digest(cfg)));
    if !t0.Single(cfg) {
      WritesAlike(cfg, b, b', t0, io);
    }
    hide RunPut, WritePut, FromRequest, LetThrough, StackOf;
  }

  /** Which blob versions are there makes no difference to the outcome of a multipart put. */
  lemma WritesAlike(cfg: Config, b: Bucket, b': Bucket, t: PutTask, io: IO)
    requires cfg.Valid() && !t.Single(cfg)
    requires b'.references == b.references && b'.latest == b.latest
    ensures WritePut(cfg, b', t, io).1 == WritePut(cfg, b, t, io).1
  {
    var envelope, envelope' := NewEnvelope(cfg, t, b.NewId(), io.now), NewEnvelope(cfg, t, b'.NewId(), io.now);
    assert envelope.metadata == envelope'.metadata;
    FinishesAs(cfg, WithBlob(cfg, b, t, io.landed), t, envelope);
    FinishesAs(cfg, WithBlob(cfg, b', t, io.landed), t, envelope');
    SameRecords(cfg, b, WithBlob(cfg, b, t, io.landed), t, envelope.metadata);
    SameRecords(cfg, b, WithBlob(cfg, b', t, io.landed), t, envelope.metadata);
    hide ReadBack, StackOf, NewEnvelope, FinishPut, ReadExact;
  }

  /** The outcome once the record is written, from the records and the pointer of before. */
  function OutcomeOfMove(cfg: Config, b: Bucket, t: PutTask, metadata: Metadata): PutOutcome {
    var pointer := Current(b.latest, t.request.objectRef);
    if !t.CreatesLatest() || pointer.None? then Published(metadata)
    else if pointer.value.value == t.Digest(cfg) then PutFailed(ConditionalConflict)
    else
      match ReadExact(b, Version(t.request.objectRef, pointer.value.value))
      case Err(NotFound) => PutFailed(ConditionalConflict)
      case Err(failure) => PutFailed(failure)
      case Ok(_) => PutFailed(ConditionalConflict)
  }

  lemma SameRecords(cfg: Config, b: Bucket, b': Bucket, t: PutTask, metadata: Metadata)
    requires b'.references == b.references && b'.latest == b.latest
    ensures OutcomeOfMove(cfg, b', t, metadata) == OutcomeOfMove(cfg, b, t, metadata)
  {
  }

  lemma FinishesAs(cfg: Config, b: Bucket, t: PutTask, envelope: Envelope)
    requires envelope.metadata.objectRef == t.request.objectRef && envelope.metadata.digest == t.Digest(cfg)
    ensures FinishPut(cfg, b.WriteReference(t.Key(cfg), envelope), t, envelope).1
         == OutcomeOfMove(cfg, b, t, envelope.metadata)
  {
    PushedIsCurrent(b, b.references, t.Key(cfg), envelope);
  }

  /** The record is there, but the pointer does not name it: the rerun fails on the blob or on the record. */
  lemma RecordAgain(cfg: Config, b: Bucket, b': Bucket, request: PutRequest, io: IO)
    requires cfg.Valid() && StartPut(cfg, request).stage.First? && LetThrough(cfg, b, StartPut(cfg, request))
    requires TryLatest(b', request.objectRef) == TryLatest(b, request.objectRef)
    requires Current(b'.references, StartPut(cfg, request).Key(cfg)).Some?
    requires Current(b'.blobs, StartPut(cfg, request).Key(cfg)).Some?
    ensures RunPut(cfg, b', request, io) == ConflictAgain(cfg, b', StartPut(cfg, request), io)
  {
    AdmittedAgain(cfg, b, b', request, io);
    hide RunPut, FinishPut, TryLatest, NewEnvelope, FromRequest, StackOf;
  }

  function ConflictAgain(cfg: Config, b: Bucket, t: PutTask, io: IO): (Bucket, PutOutcome) {
    if t.Single(cfg) then (b, PutFailed(ConditionalConflict))
    else
      (WithBlob(cfg, b, t, io.landed),
       PutFailed(match ReadBack(cfg, io.landed, t) case Some(failure) => failure case None => ConditionalConflict))
  }

  lemma RecordedBlob(cfg: Config, b: Bucket, t0: PutTask, landed: bytes, now: int, b': Bucket, t: PutTask)
    requires cfg.Valid() && HasWritten(cfg, b, t0, landed, now, b', t) && t.referenced
    ensures Current(b'.blobs, t0.Key(cfg)).Some?
  {
    PushedIsCurrent(b, b.blobs, t0.Key(cfg), Blob(landed, t0.Digest(cfg)));
    hide NewEnvelope, StackOf, Refers;
  }

  /**
   * A put run again after one that stopped anywhere. Before the upload took effect nothing has
   * changed; after it a single upload conflicts with its own blob and a multipart one answers as the
   * undisturbed put; with the record written, too, the rerun is a repeat (or, create-only, a conflict)
   * when the latest pointer names the version, and otherwise fails without writing a record or the pointer.
   */
  lemma {:induction false} PutAgainAfterStop(cfg: Config, b: Bucket, request: PutRequest, ios: seq<IO>, io: IO)
    requires cfg.Valid()
    requires IdsBelow(StackOf(b.blobs, Version(request.objectRef, cfg.hash(request.payload))), b.next)
    ensures var t0 := StartPut(cfg, request);
            var k := t0.Key(cfg);
            var (b', t') := PutSteps(cfg, b, t0, ios);
            var (b'', outcome) := RunPut(cfg, b', request, io);
            if t'.referenced then
              if PointsAt(b', k) then
                b'' == b' && ReadExact(b', k).Ok? && outcome == AnswerToRepeat(request, ReadExact(b', k).value)
              else (b'', outcome) == ConflictAgain(cfg, b', t0, io)
            else if b' == b then (b'', outcome) == RunPut(cfg, b, request, io)
            else if t0.Single(cfg) then b'' == b' && outcome == PutFailed(ConditionalConflict)
            else outcome == RunPut(cfg, b, request, io).1
  {
    var t0 := StartPut(cfg, request);
    var k := t0.Key(cfg);
    var (b', t') := PutSteps(cfg, b, t0, ios);
    var landed, now := StoppedPutWrote(cfg, b, request, ios);
    if t0.stage.PutEnded? {
      return;
    }
    hide PutSteps, IdsBelow, FromRequest, RunPut, StackOf;
    if t'.referenced {
      WroteInOrder(cfg, b, t0, landed, now, b', t');
      RecordedReads(cfg, b, t0, landed, now, b', t');
      RecordedBlob(cfg, b, t0, landed, now, b', t');
      if PointsAt(b', k) {
        RepeatAgain(cfg, b', request, NewEnvelope(cfg, t0, b.NewId(), now), io);
      } else {
        RecordAgain(cfg, b, b', request, io);
      }
    } else if b' != b {
      UploadAgain(cfg, b, request, landed, io);
    }
  }

  /** Running a stopped put again publishes if and only if the first run stopped before it mattered. */
  lemma {:induction false} PublishesAgainIff(cfg: Config, b: Bucket, request: PutRequest, ios: seq<IO>, io: IO)
    requires cfg.Valid()
    requires IdsBelow(StackOf(b.blobs, Version(request.objectRef, cfg.hash(request.payload))), b.next)
    ensures var t0 := StartPut(cfg, request);
            var (b', t') := PutSteps(cfg, b, t0, ios);
            RunPut(cfg, b', request, io).1.Published? <==>
            && !t'.referenced && (b' == b || !t0.Single(cfg))
            && RunPut(cfg, b, request, io).1.Published?
  {
    PutAgainAfterStop(cfg, b, request, ios, io);
    hide PutSteps, RunPut, IdsBelow, FromRequest;
  }
}
