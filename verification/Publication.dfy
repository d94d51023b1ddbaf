/**
 * The put and delete protocols (adapter.py, _put, _delete, _read_envelope, _record_orphan) as
 * machines that make one transport call at each step.
 */
module Publication {
  import opened Wrappers
  import opened Streams
  import opened Integrity
  import opened Retention
  import opened Bucket

  datatype Config = Config(
    hash: Hash,
    chunkBytes: nat,
    maxObjectBytes: nat,
    multipartThreshold: nat,
    multipartPartBytes: nat,
    maxRangeBytes: nat,
    verifyAfterWrite: bool,
    lockMode: Option<string>)
  {
    ghost predicate Valid() {
      chunkBytes > 0 && multipartPartBytes > 0
    }
  }

  datatype Failure =
    | ConditionalConflict
    | ImmutableConflict
    | NotFound
    | DigestMismatch
    | IncompleteUpload
    | RetentionDenied
    | InvalidRequest
    | RangeNotSatisfiable
    | UploadFailed

  /** What the surroundings contribute to one step. */
  datatype IO = IO(
    now: int,                    // the clock
    landed: bytes,               // what an upload really stores
    previous: Option<Digest>)    // the answer of a scan for the newest other version

  // ---------------------------------------------------------------- reading

  /** The reference record of a version, whose identity must agree with its key. */
  function ReadExact(b: Bucket, k: Version): (r: Result<Envelope, Failure>)
    ensures r == Err(NotFound) <==> Current(b.references, k).None?
  {
    match Current(b.references, k)
    case None => Err(NotFound)
    case Some(entry) =>
      var m := entry.value.metadata;
      if m.objectRef.id != k.objectRef.id || m.digest != k.digest then Err(DigestMismatch) else Ok(entry.value)
  }

  /** By digest, or through the latest pointer. */
  function ReadEnvelope(b: Bucket, o: ObjectRef, digest: Option<Digest>): Result<Envelope, Failure> {
    match digest
    case Some(d) => ReadExact(b, Version(o, d))
    case None =>
      match Current(b.latest, o)
      case None => Err(NotFound)
      case Some(pointer) => ReadExact(b, Version(o, pointer.value))
  }

  /** An absent or dangling pointer reads as nothing; a corrupt record still fails. */
  function TryLatest(b: Bucket, o: ObjectRef): Result<Option<Envelope>, Failure> {
    match ReadEnvelope(b, o, None)
    case Ok(envelope) => Ok(Some(envelope))
    case Err(NotFound) => Ok(None)
    case Err(failure) => Err(failure)
  }

  /** The envelope, provided the blob it records is there with its length and digest. */
  function Stat(b: Bucket, o: ObjectRef, digest: Option<Digest>): Result<Envelope, Failure> {
    match ReadEnvelope(b, o, digest)
    case Err(failure) => Err(failure)
    case Ok(envelope) =>
      match Find(StackOf(b.blobs, Version(o, envelope.metadata.digest)), envelope.blobVersion)
      case None => Err(NotFound)
      case Some(blob) =>
        if |blob.content| != envelope.metadata.length || blob.tag != envelope.metadata.digest
        then Err(DigestMismatch)
        else Ok(envelope)
  }

  /** The version that is asked for, by its digest or as the one that the latest pointer names. */
  function Asked(b: Bucket, o: ObjectRef, digest: Option<Digest>): Option<Version> {
    if digest.Some? then Some(Version(o, digest.value))
    else if Current(b.latest, o).Some? then Some(Version(o, Current(b.latest, o).value.value))
    else None
  }

  /** The record says of itself what its key says. */
  predicate Own(k: Version, envelope: Envelope) {
    envelope.metadata.objectRef.id == k.objectRef.id && envelope.metadata.digest == k.digest
  }

  /**
   * Stat answers with a record just when it is the one asked for, under its own identity, and the blob version that
   * it names is stored with its length and digest; it reports not-found just when there is no such record, or no
   * such blob version, and a mismatch otherwise.
   */
  lemma StatAnswers(b: Bucket, o: ObjectRef, digest: Option<Digest>)
    ensures var asked, r := Asked(b, o, digest), Stat(b, o, digest);
            var record := if asked.Some? then Current(b.references, asked.value) else None;
            if record.None? then r == Err(NotFound)
            else
              var envelope := record.value.value;
              var blob := Find(StackOf(b.blobs, asked.value), envelope.blobVersion);
              && (r.Ok? <==> && Own(asked.value, envelope) && blob.Some?
                             && |blob.value.content| == envelope.metadata.length
                             && blob.value.tag == asked.value.digest)
              && (r.Ok? ==> r.value == envelope)
              && (r == Err(NotFound) <==> Own(asked.value, envelope) && blob.None?)
              && (r.Err? ==> r.error == NotFound || r.error == DigestMismatch)
  {
    hide Find, StackOf;
  }

  // ---------------------------------------------------------------- put

  datatype PutRequest = PutRequest(
    objectRef: ObjectRef,
    payload: bytes,
    createOnly: bool,
    immutable: bool,              // the effective immutability under the resource's profile
    attributes: Attributes,
    retention: Option<RetentionRequest>)

  datatype PutOutcome = Published(metadata: Metadata) | Repeated(metadata: Metadata) | PutFailed(failure: Failure)

  datatype PutStage =
    | First
    | FirstReference(digest: Digest)
    | Second
    | SecondReference(digest: Digest)
    | Upload
    | Verify(version: nat)
    | Refer(version: nat)
    | MoveLatest(envelope: Envelope)
    | Winner(envelope: Envelope)
    | WinnerReference(envelope: Envelope, digest: Digest)
    | MarkOrphan(envelope: Envelope)
    | PutEnded(outcome: PutOutcome)

  /** `referenced` and `moved` record that the reference and the latest pointer were written. */
  datatype PutTask = PutTask(
    request: PutRequest,
    record: Option<RetentionRecord>,
    stage: PutStage,
    referenced: bool,
    moved: bool)
  {
    function At(next: PutStage): PutTask {
      this.(stage := next)
    }

    function Fail(failure: Failure): PutTask {
      At(PutEnded(PutFailed(failure)))
    }

    function Digest(cfg: Config): Digest {
      cfg.hash(request.payload)
    }

    function Key(cfg: Config): Version {
      Version(request.objectRef, Digest(cfg))
    }

    /** Whether the latest pointer may only be created, never replaced. */
    predicate CreatesLatest() {
      request.createOnly || request.immutable
    }

    predicate Single(cfg: Config) {
      |request.payload| < cfg.multipartThreshold
    }
  }

  function StartPut(cfg: Config, request: PutRequest): PutTask {
    match FromRequest(request.retention, cfg.lockMode)
    case Err(_) => PutTask(request, None, PutEnded(PutFailed(RetentionDenied)), false, false)
    case Ok(record) => PutTask(request, record, First, false, false)
  }

  /** The same digest again is only a repeat when nothing but the time of the call differs. */
  predicate SameSubmission(existing: Envelope, t: PutTask) {
    && existing.metadata.attributes == t.request.attributes
    && existing.metadata.immutable == t.request.immutable
    && existing.retention == t.record
  }

  function AfterFirst(cfg: Config, t: PutTask, existing: Option<Envelope>): PutTask {
    if existing.Some? && t.request.createOnly then t.Fail(ConditionalConflict)
    else if |t.request.payload| > cfg.maxObjectBytes then t.Fail(InvalidRequest)
    else t.At(Second)
  }

  function AfterSecond(cfg: Config, t: PutTask, existing: Option<Envelope>): PutTask {
    match existing
    case None => t.At(Upload)
    case Some(envelope) =>
      if t.request.createOnly then t.Fail(ConditionalConflict)
      else if envelope.metadata.digest == t.Digest(cfg) then
        if SameSubmission(envelope, t) then t.At(PutEnded(Repeated(envelope.metadata)))
        else t.Fail(ConditionalConflict)
      else if t.request.immutable then t.Fail(ImmutableConflict)
      else t.At(Upload)
  }

  function NewEnvelope(cfg: Config, t: PutTask, version: nat, now: int): Envelope
    requires cfg.Valid()
  {
    var r := t.request;
    Envelope(Metadata(r.objectRef, t.Digest(cfg), |r.payload|, now, r.immutable, r.attributes),
             version, t.record, cfg.chunkBytes, ChunkDigests(cfg.hash, r.payload, cfg.chunkBytes))
  }

  function PutStep(cfg: Config, b: Bucket, t: PutTask, io: IO): (Bucket, PutTask)
    requires cfg.Valid() && !t.stage.PutEnded?
  {
    var o, k := t.request.objectRef, t.Key(cfg);
    match t.stage
    case First =>
      (match Current(b.latest, o)
       case None => (b, AfterFirst(cfg, t, None))
       case Some(pointer) => (b, t.At(FirstReference(pointer.value))))
    case FirstReference(d) =>
      (match ReadExact(b, Version(o, d))
       case Err(NotFound) => (b, AfterFirst(cfg, t, None))
       case Err(failure) => (b, t.Fail(failure))
       case Ok(envelope) => (b, AfterFirst(cfg, t, Some(envelope))))
    case Second =>
      (match Current(b.latest, o)
       case None => (b, AfterSecond(cfg, t, None))
       case Some(pointer) => (b, t.At(SecondReference(pointer.value))))
    case SecondReference(d) =>
      (match ReadExact(b, Version(o, d))
       case Err(NotFound) => (b, AfterSecond(cfg, t, None))
       case Err(failure) => (b, t.Fail(failure))
       case Ok(envelope) => (b, AfterSecond(cfg, t, Some(envelope))))
    case Upload =>
      if t.Single(cfg) && Current(b.blobs, k).Some? then (b, t.Fail(ConditionalConflict))
      else (b.WriteBlob(k, Blob(io.landed, t.Digest(cfg))),
            t.At(if cfg.verifyAfterWrite then Verify(b.NewId()) else Refer(b.NewId())))
    case Verify(version) =>
      (match Find(StackOf(b.blobs, k), version)
       case None => (b, t.Fail(NotFound))
       case Some(blob) =>
         if |blob.content| != |t.request.payload| then (b, t.Fail(IncompleteUpload))
         else if cfg.hash(blob.content) != t.Digest(cfg) then (b, t.Fail(DigestMismatch))
         else (b, t.At(Refer(version))))
    case Refer(version) =>
      if Current(b.references, k).Some? then (b, t.Fail(ConditionalConflict))
      else
        var envelope := NewEnvelope(cfg, t, version, io.now);
        (b.WriteReference(k, envelope), t.At(MoveLatest(envelope)).(referenced := true))
    case MoveLatest(envelope) =>
      if t.CreatesLatest() && Current(b.latest, o).Some? then (b, t.At(Winner(envelope)))
      else (b.WriteLatest(o, t.Digest(cfg)), t.At(PutEnded(Published(envelope.metadata))).(moved := true))
    case Winner(envelope) =>
      (match Current(b.latest, o)
       case None => (b, t.At(MarkOrphan(envelope)))
       case Some(pointer) => (b, t.At(WinnerReference(envelope, pointer.value))))
    case WinnerReference(envelope, d) =>
      (match ReadExact(b, Version(o, d))
       case Err(NotFound) => (b, t.At(MarkOrphan(envelope)))
       case Err(failure) => (b, t.Fail(failure))
       case Ok(winner) =>
         if winner.metadata.digest != t.Digest(cfg) then (b, t.At(MarkOrphan(envelope)))
         else (b, t.Fail(ConditionalConflict)))
    case MarkOrphan(_) =>
      (if Current(b.orphans, k).Some? then b else b.WriteOrphan(k, "latest-conflict"), t.Fail(ConditionalConflict))
  }

  /** The stages before the upload. */
  predicate Checks(stage: PutStage) {
    stage.First? || stage.FirstReference? || stage.Second? || stage.SecondReference?
  }

  /** A put that checks or looks for a winner only reads. */
  lemma CheckingReads(cfg: Config, b: Bucket, t: PutTask, io: IO)
    requires cfg.Valid() && Checks(t.stage)
    ensures var (b', t') := PutStep(cfg, b, t, io); b' == b && t' == t.At(t'.stage)
  {
    hide Current, StackOf, Find, NewEnvelope, ReadExact;
  }

  predicate Seeks(stage: PutStage) {
    stage.Verify? || stage.Winner? || stage.WinnerReference?
  }

  lemma SeekingReads(cfg: Config, b: Bucket, t: PutTask, io: IO)
    requires cfg.Valid() && Seeks(t.stage)
    ensures var (b', t') := PutStep(cfg, b, t, io); b' == b && t' == t.At(t'.stage)
  {
    hide Current, StackOf, Find, ReadExact;
  }

  // ---------------------------------------------------------------- delete

  datatype DeleteOutcome = Deleted | DeleteFailed(failure: Failure)

  datatype DeleteStage =
    | Lookup
    | LatestPointer
    | LatestReference(digest: Digest)
    | Scan(wasLatest: bool)
    | HeadReference(wasLatest: bool, previous: Option<Digest>)
    | DropBlob(wasLatest: bool, previous: Option<Digest>, version: nat)
    | DropReference(wasLatest: bool, previous: Option<Digest>, version: nat)
    | Repoint(to: Digest)
    | HeadLatest
    | DropLatest(version: nat)
    | Evidence
    | DeleteEnded(outcome: DeleteOutcome)

  /** `envelope` is what Lookup read. */
  datatype DeleteTask = DeleteTask(key: Version, stage: DeleteStage, envelope: Option<Envelope>) {
    function At(next: DeleteStage): DeleteTask {
      this.(stage := next)
    }

    function Fail(failure: Failure): DeleteTask {
      At(DeleteEnded(DeleteFailed(failure)))
    }
  }

  function StartDelete(key: Version): DeleteTask {
    DeleteTask(key, Lookup, None)
  }

  function DeleteStep(b: Bucket, t: DeleteTask, io: IO): (Bucket, DeleteTask)
    requires !t.stage.DeleteEnded?
  {
    var o, k := t.key.objectRef, t.key;
    match t.stage
    case Lookup =>
      (match ReadExact(b, k)
       case Err(failure) => (b, t.Fail(failure))
       case Ok(envelope) =>
         if !Releases(envelope.retention, io.now) then (b, t.Fail(RetentionDenied))
         else (b, t.At(LatestPointer).(envelope := Some(envelope))))
    case LatestPointer =>
      (match Current(b.latest, o)
       case None => (b, t.At(Scan(false)))
       case Some(pointer) => (b, t.At(LatestReference(pointer.value))))
    case LatestReference(d) =>
      (match ReadExact(b, Version(o, d))
       case Err(NotFound) => (b, t.At(Scan(false)))
       case Err(failure) => (b, t.Fail(failure))
       case Ok(envelope) => (b, t.At(Scan(envelope.metadata.digest == k.digest))))
    case Scan(wasLatest) => (b, t.At(HeadReference(wasLatest, io.previous)))
    case HeadReference(wasLatest, previous) =>
      (match Current(b.references, k)
       case None => (b, t.Fail(NotFound))
       case Some(entry) => (b, t.At(DropBlob(wasLatest, previous, entry.id))))
    case DropBlob(wasLatest, previous, version) =>
      if t.envelope.None? then (b, t.Fail(NotFound))
      else (b.RemoveBlob(k, t.envelope.value.blobVersion), t.At(DropReference(wasLatest, previous, version)))
    case DropReference(wasLatest, previous, version) =>
      (b.RemoveReference(k, version),
       t.At(if !wasLatest then Evidence else if previous.Some? then Repoint(previous.value) else HeadLatest))
    case Repoint(to) => (b.WriteLatest(o, to), t.At(Evidence))
    case HeadLatest =>
      (match Current(b.latest, o)
       case None => (b, t.Fail(NotFound))
       case Some(entry) => (b, t.At(DropLatest(entry.id))))
    case DropLatest(version) => (b.RemoveLatest(o, version), t.At(Evidence))
    case Evidence =>
      if Current(b.deletions, k).Some? then (b, t.Fail(ConditionalConflict))
      else (b.WriteDeletion(k, io.now), t.At(DeleteEnded(Deleted)))
  }

  predicate Looks(stage: DeleteStage) {
    stage.Lookup? || stage.LatestPointer? || stage.LatestReference? || stage.Scan? || stage.HeadReference?
        || stage.HeadLatest?
  }

  lemma LookingReads(b: Bucket, t: DeleteTask, io: IO)
    requires Looks(t.stage)
    ensures var (b', t') := DeleteStep(b, t, io); b' == b && t'.key == t.key
  {
    hide Current, StackOf, ReadExact, Releases;
  }

  // ---------------------------------------------------------------- interleavings

  datatype Task = Putting(put: PutTask) | Deleting(delete: DeleteTask)

  datatype World = World(bucket: Bucket, tasks: seq<Task>)

  /** A task that no event names any more has stopped where it stands. */
  datatype Event = BeginPut(request: PutRequest) | BeginDelete(key: Version) | Step(index: nat, io: IO)

  function Apply(cfg: Config, w: World, e: Event): World
    requires cfg.Valid()
  {
    match e
    case BeginPut(request) => w.(tasks := w.tasks + [Putting(StartPut(cfg, request))])
    case BeginDelete(key) => w.(tasks := w.tasks + [Deleting(StartDelete(key))])
    case Step(i, io) =>
      if i >= |w.tasks| then w
      else
        match w.tasks[i]
        case Putting(t) =>
          if t.stage.PutEnded? then w
          else var (b, t') := PutStep(cfg, w.bucket, t, io); World(b, w.tasks[i := Putting(t')])
        case Deleting(t) =>
          if t.stage.DeleteEnded? then w
          else var (b, t') := DeleteStep(w.bucket, t, io); World(b, w.tasks[i := Deleting(t')])
  }

  function Run(cfg: Config, w: World, events: seq<Event>): World
    requires cfg.Valid()
    decreases |events|
  {
    if events == [] then w else Run(cfg, Apply(cfg, w, events[0]), events[1..])
  }

  function Initial(versioned: bool): World {
    World(Empty(versioned), [])
  }

  lemma {:induction false} RunAppend(cfg: Config, w: World, events: seq<Event>, more: seq<Event>)
    requires cfg.Valid()
    ensures Run(cfg, w, events + more) == Run(cfg, Run(cfg, w, events), more)
    decreases |events|
  {
    if events == [] {
      assert [] + more == more;
    } else {
      assert (events + more)[1..] == events[1..] + more;
      RunAppend(cfg, Apply(cfg, w, events[0]), events[1..], more);
    }
  }
}
