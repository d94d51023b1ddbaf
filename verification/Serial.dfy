/**
 * Whole operations, one after the other: closed forms of a put and of a delete that run alone, and
 * what they do to the catalog of published versions (adapter.py, _put, _delete, _stat).
 */
module Serial {
  import opened Wrappers
  import opened Streams
  import opened Retention
  import opened Bucket
  import opened Publication

  // ---------------------------------------------------------------- closed forms

  /** From the latest pointer on: move it, or find out who holds it and leave an orphan record. */
  function FinishPut(cfg: Config, b: Bucket, t: PutTask, envelope: Envelope): (Bucket, PutOutcome) {
    var o, k := t.request.objectRef, t.Key(cfg);
    if !t.CreatesLatest() || Current(b.latest, o).None? then (b.WriteLatest(o, k.digest), Published(envelope.metadata))
    else
      match TryLatest(b, o)
      case Err(failure) => (b, PutFailed(failure))
      case Ok(winner) =>
        if winner.Some? && winner.value.metadata.digest == k.digest then (b, PutFailed(ConditionalConflict))
        else (if Current(b.orphans, k).Some? then b else b.WriteOrphan(k, "latest-conflict"),
              PutFailed(ConditionalConflict))
  }

  /** Whether reading the stored blob back finds what was sent. */
  function ReadBack(cfg: Config, landed: bytes, t: PutTask): Option<Failure> {
    if !cfg.verifyAfterWrite then None
    else if |landed| != |t.request.payload| then Some(IncompleteUpload)
    else if cfg.hash(landed) != t.Digest(cfg) then Some(DigestMismatch)
    else None
  }

  /** From the upload on. */
  function WritePut(cfg: Config, b: Bucket, t: PutTask, io: IO): (Bucket, PutOutcome)
    requires cfg.Valid()
  {
    var k := t.Key(cfg);
    if t.Single(cfg) && Current(b.blobs, k).Some? then (b, PutFailed(ConditionalConflict))
    else
      var b1 := b.WriteBlob(k, Blob(io.landed, k.digest));
      match ReadBack(cfg, io.landed, t)
      case Some(failure) => (b1, PutFailed(failure))
      case None =>
        if Current(b.references, k).Some? then (b1, PutFailed(ConditionalConflict))
        else
          var envelope := NewEnvelope(cfg, t, b.NewId(), io.now);
          FinishPut(cfg, b1.WriteReference(k, envelope), t, envelope)
  }

  function RunPut(cfg: Config, b: Bucket, request: PutRequest, io: IO): (Bucket, PutOutcome)
    requires cfg.Valid()
  {
    var t := StartPut(cfg, request);
    if t.stage.PutEnded? then (b, t.stage.outcome)
    else
      match TryLatest(b, request.objectRef)
      case Err(failure) => (b, PutFailed(failure))
      case Ok(existing) =>
        var checked := AfterFirst(cfg, t, existing);
        if checked.stage.PutEnded? then (b, checked.stage.outcome)
        else
          var admitted := AfterSecond(cfg, t, existing);
          if admitted.stage.PutEnded? then (b, admitted.stage.outcome)
          else WritePut(cfg, b, t, io)
  }

  /** Once blob and reference are gone. */
  function FinishDelete(b: Bucket, k: Version, wasLatest: bool, io: IO): (Bucket, DeleteOutcome) {
    var o := k.objectRef;
    if wasLatest && io.previous.None? && Current(b.latest, o).None? then (b, DeleteFailed(NotFound))
    else
      var b1 := if !wasLatest then b
                else if io.previous.Some? then b.WriteLatest(o, io.previous.value)
                else b.RemoveLatest(o, Current(b.latest, o).value.id);
      if Current(b1.deletions, k).Some? then (b1, DeleteFailed(ConditionalConflict))
      else (b1.WriteDeletion(k, io.now), Deleted)
  }

  function RunDelete(b: Bucket, k: Version, io: IO): (Bucket, DeleteOutcome) {
    match ReadExact(b, k)
    case Err(failure) => (b, DeleteFailed(failure))
    case Ok(envelope) =>
      if !Releases(envelope.retention, io.now) then (b, DeleteFailed(RetentionDenied))
      else
        match TryLatest(b, k.objectRef)
        case Err(failure) => (b, DeleteFailed(failure))
        case Ok(latest) =>
          var wasLatest := latest.Some? && latest.value.metadata.digest == k.digest;
          var version := Current(b.references, k).value.id;
          FinishDelete(b.RemoveBlob(k, envelope.blobVersion).RemoveReference(k, version), k, wasLatest, io)
  }

  // ---------------------------------------------------------------- the machines, run to their end

  function PutRank(stage: PutStage): nat {
    match stage
    case First => 11
    case FirstReference(_) => 10
    case Second => 9
    case SecondReference(_) => 8
    case Upload => 7
    case Verify(_) => 6
    case Refer(_) => 5
    case MoveLatest(_) => 4
    case Winner(_) => 3
    case WinnerReference(_, _) => 2
    case MarkOrphan(_) => 1
    case PutEnded(_) => 0
  }

  lemma PutDescends(cfg: Config, b: Bucket, t: PutTask, io: IO)
    requires cfg.Valid() && !t.stage.PutEnded?
    ensures PutRank(PutStep(cfg, b, t, io).1.stage) < PutRank(t.stage)
  {
    hide Current, StackOf, Find, NewEnvelope, ReadExact;
  }

  /** Steps of a put alone until it ends. */
  function PutToEnd(cfg: Config, b: Bucket, t: PutTask, io: IO): (Bucket, PutOutcome)
    requires cfg.Valid()
    decreases PutRank(t.stage)
  {
    if t.stage.PutEnded? then (b, t.stage.outcome)
    else
      PutDescends(cfg, b, t, io);
      var (b', t') := PutStep(cfg, b, t, io);
      PutToEnd(cfg, b', t', io)
  }

  lemma PutGoesOn(cfg: Config, b: Bucket, t: PutTask, io: IO)
    requires cfg.Valid() && !t.stage.PutEnded?
    ensures var (b', t') := PutStep(cfg, b, t, io);
            && PutToEnd(cfg, b, t, io) == PutToEnd(cfg, b', t', io)
            && (t'.stage.PutEnded? ==> PutToEnd(cfg, b, t, io) == (b', t'.stage.outcome))
  {
  }

  lemma WinnerIsSteps(cfg: Config, b: Bucket, t: PutTask, io: IO)
    requires cfg.Valid() && t.stage.Winner? && t.CreatesLatest() && Current(b.latest, t.request.objectRef).Some?
    ensures PutToEnd(cfg, b, t, io) == FinishPut(cfg, b, t, t.stage.envelope)
  {
    hide PutToEnd, Find, NewEnvelope, AfterFirst, AfterSecond;
    PutGoesOn(cfg, b, t, io);
    var t1 := t.At(WinnerReference(t.stage.envelope, Current(b.latest, t.request.objectRef).value.value));
    PutGoesOn(cfg, b, t1, io);
    PutGoesOn(cfg, b, t.At(MarkOrphan(t.stage.envelope)), io);
  }

  lemma FinishPutIsSteps(cfg: Config, b: Bucket, t: PutTask, io: IO)
    requires cfg.Valid() && t.stage.MoveLatest?
    ensures PutToEnd(cfg, b, t, io) == FinishPut(cfg, b, t, t.stage.envelope)
  {
    hide PutToEnd, Find, NewEnvelope, AfterFirst, AfterSecond, TryLatest;
    PutGoesOn(cfg, b, t, io);
    if t.CreatesLatest() && Current(b.latest, t.request.objectRef).Some? {
      WinnerIsSteps(cfg, b, t.At(Winner(t.stage.envelope)), io);
    }
  }

  lemma ReferIsSteps(cfg: Config, b: Bucket, t: PutTask, io: IO)
    requires cfg.Valid() && t.stage.Refer?
    ensures PutToEnd(cfg, b, t, io) ==
            if Current(b.references, t.Key(cfg)).Some? then (b, PutFailed(ConditionalConflict))
            else
              var envelope := NewEnvelope(cfg, t, t.stage.version, io.now);
              FinishPut(cfg, b.WriteReference(t.Key(cfg), envelope), t, envelope)
  {
    hide PutToEnd, Find, NewEnvelope, AfterFirst, AfterSecond, FinishPut, TryLatest;
    PutGoesOn(cfg, b, t, io);
    if Current(b.references, t.Key(cfg)).None? {
      var (b', t') := PutStep(cfg, b, t, io);
      FinishPutIsSteps(cfg, b', t', io);
      FinishPutIgnoresStage(cfg, b', t', t, t'.stage.envelope);
    }
  }

  lemma StoredReadsBack(b: Bucket, k: Version, blob: Blob)
    requires IdsBelow(StackOf(b.blobs, k), b.next)
    ensures Find(StackOf(b.WriteBlob(k, blob).blobs, k), b.NewId()) == Some(blob)
  {
    var s := StackOf(b.blobs, k);
    if b.versioned {
      FindOnlyStored(s, b.next, b.next);
      FindAppend(s, Entry(b.next, blob), b.next);
    }
  }

  lemma UploadIsStep(cfg: Config, b: Bucket, t: PutTask, io: IO)
    requires cfg.Valid() && t.stage.Upload?
    ensures PutToEnd(cfg, b, t, io) ==
            if t.Single(cfg) && Current(b.blobs, t.Key(cfg)).Some? then (b, PutFailed(ConditionalConflict))
            else PutToEnd(cfg, b.WriteBlob(t.Key(cfg), Blob(io.landed, t.Digest(cfg))),
                          t.At(if cfg.verifyAfterWrite then Verify(b.NewId()) else Refer(b.NewId())), io)
  {
    hide PutToEnd, Find, NewEnvelope, AfterFirst, AfterSecond, StackOf;
    PutGoesOn(cfg, b, t, io);
  }

  lemma WritePutIsSteps(cfg: Config, b: Bucket, t: PutTask, io: IO)
    requires cfg.Valid() && t.stage.Upload?
    requires IdsBelow(StackOf(b.blobs, t.Key(cfg)), b.next)
    ensures PutToEnd(cfg, b, t, io) == WritePut(cfg, b, t, io)
  {
    hide PutStep, PutToEnd, NewEnvelope, FinishPut, IdsBelow, ReadBack, StackOf, Current;
    var k := t.Key(cfg);
    UploadIsStep(cfg, b, t, io);
    if t.Single(cfg) && Current(b.blobs, k).Some? {
      return;
    }
    var b1 := b.WriteBlob(k, Blob(io.landed, k.digest));
    ReadBackIsSteps(cfg, b, t, io);
    if ReadBack(cfg, io.landed, t).None? {
      var t1 := t.At(Refer(b.NewId()));
      ReferIsSteps(cfg, b1, t1, io);
      assert b1.references == b.references;
      var envelope := NewEnvelope(cfg, t, b.NewId(), io.now);
      EnvelopeIgnoresStage(cfg, t1, t, b.NewId(), io.now);
      FinishPutIgnoresStage(cfg, b1.WriteReference(k, envelope), t1, t, envelope);
    }
  }

  lemma ReadBackIsSteps(cfg: Config, b: Bucket, t: PutTask, io: IO)
    requires cfg.Valid() && IdsBelow(StackOf(b.blobs, t.Key(cfg)), b.next)
    ensures var b1 := b.WriteBlob(t.Key(cfg), Blob(io.landed, t.Digest(cfg)));
            PutToEnd(cfg, b1, t.At(if cfg.verifyAfterWrite then Verify(b.NewId()) else Refer(b.NewId())), io) ==
            match ReadBack(cfg, io.landed, t)
            case Some(failure) => (b1, PutFailed(failure))
            case None => PutToEnd(cfg, b1, t.At(Refer(b.NewId())), io)
  {
    hide PutToEnd, Find, NewEnvelope, AfterFirst, AfterSecond, StackOf;
    var blob := Blob(io.landed, t.Digest(cfg));
    StoredReadsBack(b, t.Key(cfg), blob);
    if cfg.verifyAfterWrite {
      PutGoesOn(cfg, b.WriteBlob(t.Key(cfg), blob), t.At(Verify(b.NewId())), io);
    }
  }

  lemma EnvelopeIgnoresStage(cfg: Config, t: PutTask, t': PutTask, version: nat, now: int)
    requires cfg.Valid() && t.request == t'.request && t.record == t'.record
    ensures NewEnvelope(cfg, t, version, now) == NewEnvelope(cfg, t', version, now)
  {
  }

  lemma FinishPutIgnoresStage(cfg: Config, b: Bucket, t: PutTask, t': PutTask, envelope: Envelope)
    requires t.request == t'.request
    ensures FinishPut(cfg, b, t, envelope) == FinishPut(cfg, b, t', envelope)
  {
  }

  lemma SecondIsSteps(cfg: Config, b: Bucket, t: PutTask, io: IO)
    requires cfg.Valid() && t.stage.Second?
    requires IdsBelow(StackOf(b.blobs, t.Key(cfg)), b.next)
    ensures PutToEnd(cfg, b, t, io) ==
            match TryLatest(b, t.request.objectRef)
            case Err(failure) => (b, PutFailed(failure))
            case Ok(existing) =>
              var admitted := AfterSecond(cfg, t, existing);
              if admitted.stage.PutEnded? then (b, admitted.stage.outcome) else WritePut(cfg, b, t, io)
  {
    hide PutToEnd, Find, NewEnvelope, WritePut, IdsBelow;
    PutGoesOn(cfg, b, t, io);
    var pointer := Current(b.latest, t.request.objectRef);
    if pointer.Some? {
      PutGoesOn(cfg, b, t.At(SecondReference(pointer.value.value)), io);
    }
    WritePutIsSteps(cfg, b, t.At(Upload), io);
    WritePutIgnoresStage(cfg, b, t.At(Upload), t, io);
  }

  /** A put that runs alone, call by call, ends as the closed form says. */
  lemma RunPutIsSteps(cfg: Config, b: Bucket, request: PutRequest, io: IO)
    requires cfg.Valid()
    requires IdsBelow(StackOf(b.blobs, Version(request.objectRef, cfg.hash(request.payload))), b.next)
    ensures PutToEnd(cfg, b, StartPut(cfg, request), io) == RunPut(cfg, b, request, io)
  {
    hide PutToEnd, Find, NewEnvelope, WritePut, FromRequest, IdsBelow;
    var t := StartPut(cfg, request);
    if t.stage.PutEnded? {
      PutStops(cfg, b, t, io);
      return;
    }
    PutGoesOn(cfg, b, t, io);
    var pointer := Current(b.latest, request.objectRef);
    if pointer.Some? {
      PutGoesOn(cfg, b, t.At(FirstReference(pointer.value.value)), io);
    }
    SecondIsSteps(cfg, b, t.At(Second), io);
    WritePutIgnoresStage(cfg, b, t.At(Second), t, io);
  }

  lemma PutStops(cfg: Config, b: Bucket, t: PutTask, io: IO)
    requires cfg.Valid() && t.stage.PutEnded?
    ensures PutToEnd(cfg, b, t, io) == (b, t.stage.outcome)
  {
  }

  lemma WritePutIgnoresStage(cfg: Config, b: Bucket, t: PutTask, t': PutTask, io: IO)
    requires cfg.Valid() && t.request == t'.request && t.record == t'.record
    ensures WritePut(cfg, b, t, io) == WritePut(cfg, b, t', io)
  {
    hide FinishPut, NewEnvelope, Current;
    EnvelopeIgnoresStage(cfg, t, t', b.NewId(), io.now);
    var envelope := NewEnvelope(cfg, t, b.NewId(), io.now);
    var b' := b.WriteBlob(t.Key(cfg), Blob(io.landed, t.Digest(cfg))).WriteReference(t.Key(cfg), envelope);
    FinishPutIgnoresStage(cfg, b', t, t', envelope);
  }

  // ---- the same for deletes

  function DeleteRank(stage: DeleteStage): nat {
    match stage
    case Lookup => 10
    case LatestPointer => 9
    case LatestReference(_) => 8
    case Scan(_) => 7
    case HeadReference(_, _) => 6
    case DropBlob(_, _, _) => 5
    case DropReference(_, _, _) => 4
    case Repoint(_) => 3
    case HeadLatest => 3
    case DropLatest(_) => 2
    case Evidence => 1
    case DeleteEnded(_) => 0
  }

  lemma DeleteDescends(b: Bucket, t: DeleteTask, io: IO)
    requires !t.stage.DeleteEnded?
    ensures DeleteRank(DeleteStep(b, t, io).1.stage) < DeleteRank(t.stage)
  {
    hide Current, ReadExact, Releases;
  }

  function DeleteToEnd(b: Bucket, t: DeleteTask, io: IO): (Bucket, DeleteOutcome)
    decreases DeleteRank(t.stage)
  {
    if t.stage.DeleteEnded? then (b, t.stage.outcome)
    else var (b', t') := DeleteStep(b, t, io); DeleteToEnd(b', t', io)
  }

  lemma DeleteGoesOn(b: Bucket, t: DeleteTask, io: IO)
    requires !t.stage.DeleteEnded?
    ensures var (b', t') := DeleteStep(b, t, io);
            && DeleteToEnd(b, t, io) == DeleteToEnd(b', t', io)
            && (t'.stage.DeleteEnded? ==> DeleteToEnd(b, t, io) == (b', t'.stage.outcome))
  {
  }

  lemma FinishDeleteIsSteps(b: Bucket, t: DeleteTask, io: IO)
    requires t.stage.DropReference? && t.stage.previous == io.previous
    ensures DeleteToEnd(b, t, io) == FinishDelete(b.RemoveReference(t.key, t.stage.version), t.key, t.stage.wasLatest,
                                                  io)
  {
    hide DeleteToEnd, Without, StackOf, Find, ReadExact, Releases;
    DeleteGoesOn(b, t, io);
    var (b1, t1) := DeleteStep(b, t, io);
    DeleteGoesOn(b1, t1, io);
    if t1.stage.Evidence? {
      return;
    }
    var (b2, t2) := DeleteStep(b1, t1, io);
    if t2.stage.DeleteEnded? {
      return;
    }
    DeleteGoesOn(b2, t2, io);
    if t2.stage.DropLatest? {
      var (b3, t3) := DeleteStep(b2, t2, io);
      DeleteGoesOn(b3, t3, io);
    }
  }

  /** From the scan on, once the lookup has been passed. */
  lemma ScanIsSteps(b: Bucket, t: DeleteTask, io: IO)
    requires t.stage.Scan? && t.envelope.Some? && Current(b.references, t.key).Some?
    ensures DeleteToEnd(b, t, io) ==
            FinishDelete(b.RemoveBlob(t.key, t.envelope.value.blobVersion)
                          .RemoveReference(t.key, Current(b.references, t.key).value.id), t.key, t.stage.wasLatest, io)
  {
    hide DeleteToEnd, FinishDelete, Without, Find, ReadExact, Releases;
    DeleteGoesOn(b, t, io);
    var (b1, t1) := DeleteStep(b, t, io);
    DeleteGoesOn(b1, t1, io);
    var (b2, t2) := DeleteStep(b1, t1, io);
    DeleteGoesOn(b2, t2, io);
    var (b3, t3) := DeleteStep(b2, t2, io);
    FinishDeleteIsSteps(b3, t3, io);
  }

  /** A delete that runs alone, call by call, ends as the closed form says. */
  lemma RunDeleteIsSteps(b: Bucket, k: Version, io: IO)
    ensures DeleteToEnd(b, StartDelete(k), io) == RunDelete(b, k, io)
  {
    hide DeleteToEnd, FinishDelete, Without, Find, Releases;
    var t := StartDelete(k);
    DeleteGoesOn(b, t, io);
    var (b1, t1) := DeleteStep(b, t, io);
    if t1.stage.DeleteEnded? {
      return;
    }
    DeleteGoesOn(b, t1, io);
    var (b2, t2) := DeleteStep(b, t1, io);
    if t2.stage.LatestReference? {
      DeleteGoesOn(b, t2, io);
      var (b3, t3) := DeleteStep(b, t2, io);
      if t3.stage.Scan? {
        ScanIsSteps(b, t3, io);
      }
    } else {
      ScanIsSteps(b, t2, io);
    }
  }
}
