/**
 * The adapter's operations as its methods perform them (adapter.py), proved against the closed forms
 * that the protocol theorems are about.
 */
module Adapter {
  import opened Wrappers
  import opened Streams
  import opened Integrity
  import opened Retention
  import opened Bucket
  import opened Publication
  import opened Serial
  import opened Catalog
  import opened Transport
  import opened StoredBytes
  import opened Safekeeping
  import Multipart
  import History
  import Listing

  /** The reference records of an object by digest, in which order the bucket lists their keys. */
  function RecordsOf(b: Bucket, o: ObjectRef): Listing.Documents {
    map k | k in b.references && k.objectRef == o && Current(b.references, k).Some? ::
      k.digest := Current(b.references, k).value.value
  }

  class S3ObjectAdapter {
    const cfg: Config
    const transport: S3Transport

    constructor (transport: S3Transport)
      ensures this.transport == transport && cfg == transport.cfg
    {
      this.transport := transport;
      this.cfg := transport.cfg;
    }

    ghost predicate Valid() {
      cfg.Valid() && cfg == transport.cfg
    }

    // ---- reading

    method ReadRecord(k: Version) returns (r: Result<Envelope, Failure>)
      ensures r == ReadExact(transport.bucket, k)
    {
      var entry := transport.ReadReference(k);
      if entry.None? {
        return Err(NotFound);
      }
      var envelope := entry.value.value;
      if envelope.metadata.objectRef.id != k.objectRef.id || envelope.metadata.digest != k.digest {
        return Err(DigestMismatch);
      }
      return Ok(envelope);
    }

    method ReadSelected(o: ObjectRef, digest: Option<Digest>) returns (r: Result<Envelope, Failure>)
      ensures r == ReadEnvelope(transport.bucket, o, digest)
    {
      var selected := digest;
      if selected.None? {
        var pointer := transport.ReadLatest(o);
        if pointer.None? {
          return Err(NotFound);
        }
        selected := Some(pointer.value.value);
      }
      r := ReadRecord(Version(o, selected.value));
    }

    method TryReadLatest(o: ObjectRef) returns (r: Result<Option<Envelope>, Failure>)
      ensures r == TryLatest(transport.bucket, o)
    {
      var read := ReadSelected(o, None);
      match read {
        case Ok(envelope) => return Ok(Some(envelope));
        case Err(NotFound) => return Ok(None);
        case Err(failure) => return Err(failure);
      }
    }

    method StatObject(o: ObjectRef, digest: Option<Digest>) returns (r: Result<Envelope, Failure>)
      ensures r == Stat(transport.bucket, o, digest)
    {
      var read := ReadSelected(o, digest);
      if read.Err? {
        return Err(read.error);
      }
      var envelope := read.value;
      var blob := transport.HeadBlob(Version(o, envelope.metadata.digest), envelope.blobVersion);
      if blob.None? {
        return Err(NotFound);
      }
      if |blob.value.content| != envelope.metadata.length || blob.value.tag != envelope.metadata.digest {
        return Err(DigestMismatch);
      }
      return Ok(envelope);
    }

    // ---- put

    /** The payload arrives in any fragments. Unless the upload itself fails, the put runs its whole course. */
    method PutObject(request: PutRequest, fragments: seq<bytes>, io: IO, client: Multipart.S3Client, pace: nat -> nat)
      returns (outcome: PutOutcome, stopped: bool)
      requires Valid() && request.payload == Flatten(fragments)
      requires IdsBelow(StackOf(transport.bucket.blobs, Version(request.objectRef, cfg.hash(request.payload))),
                        transport.bucket.next)
      modifies transport, client
      ensures !stopped ==> (transport.bucket, outcome) == RunPut(cfg, old(transport.bucket), request, io)
      ensures stopped ==>
                outcome == PutFailed(UploadFailed) && OnlyUploaded(old(transport.bucket), transport.bucket, request, io)
      ensures |request.payload| < cfg.multipartThreshold && client.putReply.PutDone? ==> !stopped
    {
      hide ReadEnvelope, TryLatest, WritePut, FromRequest;
      var record := FromRequest(request.retention, cfg.lockMode);
      if record.Err? {
        return PutFailed(RetentionDenied), false;
      }
      var existing := TryReadLatest(request.objectRef);
      if existing.Err? {
        return PutFailed(existing.error), false;
      }
      if existing.value.Some? && request.createOnly {
        return PutFailed(ConditionalConflict), false;
      }
      var content, chunks := SpoolFragments(cfg.hash, cfg.chunkBytes, fragments);
      if |content| > cfg.maxObjectBytes {
        return PutFailed(InvalidRequest), false;
      }
      var digest := cfg.hash(content);
      var again := TryReadLatest(request.objectRef);
      match again {
        case Err(failure) => return PutFailed(failure), false;
        case Ok(None) =>
        case Ok(Some(latest)) =>
          if request.createOnly {
            return PutFailed(ConditionalConflict), false;
          }
          if latest.metadata.digest == digest {
            if latest.metadata.attributes == request.attributes && latest.metadata.immutable == request.immutable
               && latest.retention == record.value {
              return Repeated(latest.metadata), false;
            }
            return PutFailed(ConditionalConflict), false;
          }
          if request.immutable {
            return PutFailed(ImmutableConflict), false;
          }
      }
      outcome, stopped := Publish(request, record.value, content, chunks, digest, io, client, pace);
    }

    /** From the upload on. */
    method Publish(request: PutRequest, record: Option<RetentionRecord>, content: bytes, chunks: seq<Digest>,
                   digest: Digest,
                   io: IO, client: Multipart.S3Client, pace: nat -> nat)
      returns (outcome: PutOutcome, stopped: bool)
      requires Valid() && content == request.payload && digest == cfg.hash(content) && |content| <= cfg.maxObjectBytes
      requires chunks == ChunkDigests(cfg.hash, content, cfg.chunkBytes)
      requires IdsBelow(StackOf(transport.bucket.blobs, Version(request.objectRef, digest)), transport.bucket.next)
      modifies transport, client
      ensures !stopped ==>
                (transport.bucket, outcome) ==
                WritePut(cfg, old(transport.bucket), PutTask(request, record, First, false, false), io)
      ensures stopped ==>
                outcome == PutFailed(UploadFailed) && OnlyUploaded(old(transport.bucket), transport.bucket, request, io)
      ensures |content| < cfg.multipartThreshold ==> (stopped <==> client.putReply.PutRaises?)
    {
      hide FinishPut, Current, StackOf, ChunkDigests, S3Transport.StoresFile;
      stopped := false;
      ghost var before := transport.bucket;
      var k := Version(request.objectRef, digest);
      var stored := transport.PutFile(k, content, io.landed, client, pace);
      StoredOrNot(before, request, record, io, transport.bucket, stored);
      if stored.Err? {
        return PutFailed(stored.error), stored.error.UploadFailed?;
      }
      var metadata := Metadata(request.objectRef, digest, |content|, io.now, request.immutable, request.attributes);
      var envelope := Envelope(metadata, stored.value, record, cfg.chunkBytes, chunks);
      var written := transport.PutReference(k, envelope);
      if written.Err? {
        return PutFailed(written.error), false;
      }
      outcome := MakeCurrent(request, record, digest, envelope);
    }

    /** What storing the file means for the rest of the put. */
    lemma StoredOrNot(b: Bucket, request: PutRequest, record: Option<RetentionRecord>, io: IO, b': Bucket,
                      stored: Result<nat, Failure>)
      requires cfg.Valid() && cfg == transport.cfg
      requires var k := Version(request.objectRef, cfg.hash(request.payload));
               transport.StoresFile(b, b', k, request.payload, io.landed, stored)
      ensures var t := PutTask(request, record, First, false, false);
              var k := t.Key(cfg);
              && (stored == Err(UploadFailed) ==> OnlyUploaded(b, b', request, io))
              && (stored.Err? && stored != Err(UploadFailed) ==>
                  WritePut(cfg, b, t, io) == (b', PutFailed(stored.error)))
              && (stored.Ok? ==>
                    && stored.value == b.NewId()
                    && WritePut(cfg, b, t, io) ==
                         if Current(b'.references, k).Some? then (b', PutFailed(ConditionalConflict))
                         else FinishPut(cfg, b'.WriteReference(k, NewEnvelope(cfg, t, b.NewId(), io.now)), t,
                                        NewEnvelope(cfg, t, b.NewId(), io.now)))
    {
      hide FinishPut, Current, StackOf, NewEnvelope;
    }

    /** Nothing was written, or nothing but the blob. */
    ghost predicate OnlyUploaded(b: Bucket, b': Bucket, request: PutRequest, io: IO) {
      var k := Version(request.objectRef, cfg.hash(request.payload));
      b' == b || b' == b.WriteBlob(k, Blob(io.landed, k.digest))
    }

    /** Moves the latest pointer; a lost race is marked unless the winner has the same digest. */
    method MakeCurrent(request: PutRequest, record: Option<RetentionRecord>, digest: Digest, envelope: Envelope)
      returns (outcome: PutOutcome)
      requires Valid() && digest == cfg.hash(request.payload)
      modifies transport
      ensures (transport.bucket, outcome) ==
              FinishPut(cfg, old(transport.bucket), PutTask(request, record, First, false, false), envelope)
    {
      hide TryLatest, StackOf;
      var moved := transport.PutLatest(request.objectRef, digest, request.createOnly || request.immutable);
      if moved.Ok? {
        return Published(envelope.metadata);
      }
      var winner := TryReadLatest(request.objectRef);
      if winner.Err? {
        return PutFailed(winner.error);
      }
      if winner.value.None? || winner.value.value.metadata.digest != digest {
        var marked := transport.PutOrphan(Version(request.objectRef, digest), "latest-conflict");
      }
      return PutFailed(ConditionalConflict);
    }

    // ---- ranges

    /** `resolve` turns the caller's range into positions within the object's length. Nothing is fetched yet. */
    method ReadRange(o: ObjectRef, digest: Option<Digest>, resolve: nat -> Result<ResolvedRange, Failure>)
      returns (r: Result<(Metadata, RangePayload), Failure>)
      ensures r == PreparedRange(cfg, transport.bucket, o, digest, resolve)
    {
      hide Stat;
      var stat := StatObject(o, digest);
      if stat.Err? {
        return Err(stat.error);
      }
      var envelope := stat.value;
      var resolved := resolve(envelope.metadata.length);
      if resolved.Err? {
        return Err(resolved.error);
      }
      var range := resolved.value;
      if range.Length() > cfg.maxRangeBytes {
        return Err(InvalidRequest);
      }
      if envelope.chunkBytes != cfg.chunkBytes {
        return Err(DigestMismatch);
      }
      return Ok((envelope.metadata, RangePayload(Version(o, envelope.metadata.digest), envelope.blobVersion, range,
                                                 envelope.chunkDigests)));
    }

    /**
     * Opening the payload, at any time later: the reader yields exactly the range of the bytes that are stored
     * now, and there is one just when every chunk that it touches still has its recorded digest. Otherwise the
     * blob version is missing, or ends before the first touched chunk, or has a touched chunk that is short or
     * has another digest.
     */
    method OpenRange(payload: RangePayload, bodyPace: nat -> nat, spoolPace: nat -> nat)
      returns (r: Result<LimitedReader, Failure>)
      requires Valid() && payload.range.Valid()
      ensures var blob := Find(StackOf(transport.bucket.blobs, payload.key), payload.blobVersion);
              var first, last := payload.range.start / cfg.chunkBytes, payload.range.end / cfg.chunkBytes;
              match r
              case Err(NotFound) => blob.None?
              case Err(RangeNotSatisfiable) => blob.Some? && |blob.value.content| <= first * cfg.chunkBytes
              case Err(DigestMismatch) =>
                && blob.Some? && |blob.value.content| > first * cfg.chunkBytes
                && exists i: nat :: first <= i <= last && !ChunkIntact(cfg.hash, cfg.chunkBytes, payload.chunkDigests,
                                                                       blob.value.content, payload.range.total, i)
              case Err(_) => false
              case Ok(reader) =>
                && blob.Some?
                && (forall i: nat | first <= i <= last ::
                      ChunkIntact(cfg.hash, cfg.chunkBytes, payload.chunkDigests, blob.value.content,
                                  payload.range.total, i))
                && fresh(reader) && fresh(reader.stream) && reader.Valid()
                && var content := PayloadContent(transport.bucket, payload);
                   payload.range.end < |content| && reader.Rest() == content[payload.range.start..payload.range.end + 1]
      ensures r.Ok? <==> RangeStored(cfg, transport.bucket, payload)
    {
      hide ChunkIntact, Find, StackOf;
      var source := new VerifiedRangeSource(cfg.hash, cfg.chunkBytes, payload.range, payload.chunkDigests);
      ghost var content := PayloadContent(transport.bucket, payload);
      source.Geometry(0);
      source.CoveringBounds();
      hide ChunkStart, ChunkEnd, VerifiedRangeSource.AnyCorrupt;
      if |content| < source.CoveringLimit() {
        source.ShortIsNotIntact(content);
      } else {
        source.AcceptedIffIntact(content, content[source.CoveringStart()..source.CoveringLimit()]);
      }
      var body := transport.GetBody(payload.key, payload.blobVersion,
                                    Some((source.CoveringStart(), source.CoveringLimit() - 1)), bodyPace);
      if body.Err? {
        return Err(body.error);
      }
      var answer := source.Open(body.value, spoolPace);
      if answer.Err? {
        return Err(DigestMismatch);
      }
      return Ok(answer.value);
    }

    // ---- delete

    /** The scan under the object's reference prefix; it is complete up to 10,000 versions. */
    method NewestOther(k: Version) returns (previous: Option<Digest>)
      ensures ScanFinds(transport.bucket, k, previous)
      ensures |RecordsOf(transport.bucket, k.objectRef)| <= Listing.MAX_INTERNAL_LIST_PAGES * Listing.PAGE_SIZE ==>
                History.ScanAnswers(Abstract(transport.bucket), k, previous)
    {
      hide RecordsOf, Abstract;
      var records := RecordsOf(transport.bucket, k.objectRef);
      var selected := Listing.NewestVersion(records, "", Some(k.digest));
      previous := if selected.Some? then Some(selected.value.metadata.digest) else None;
      RecordsAreVersions(transport.bucket, k.objectRef);
      if |records| <= Listing.MAX_INTERNAL_LIST_PAGES * Listing.PAGE_SIZE {
        SmallScanAnswers(Abstract(transport.bucket), k, selected);
      }
    }

    method DeleteVersion(k: Version, now: int) returns (outcome: DeleteOutcome, ghost previous: Option<Digest>)
      requires Valid()
      modifies transport
      ensures (transport.bucket, outcome) == RunDelete(old(transport.bucket), k, IO(now, [], previous))
      ensures Scans(old(transport.bucket), k, now) ==> ScanFinds(old(transport.bucket), k, previous)
      ensures Scans(old(transport.bucket), k, now)
              && |RecordsOf(old(transport.bucket), k.objectRef)|
                 <= Listing.MAX_INTERNAL_LIST_PAGES * Listing.PAGE_SIZE ==>
                History.ScanAnswers(Abstract(old(transport.bucket)), k, previous)
    {
      hide FinishDelete, TryLatest, ReadExact, StackOf, Abstract, RecordsOf;
      previous := None;
      var read := ReadRecord(k);
      if read.Err? {
        return DeleteFailed(read.error), previous;
      }
      var envelope := read.value;
      if envelope.retention.Some? && !DeleteAllowed(envelope.retention.value, now) {
        return DeleteFailed(RetentionDenied), previous;
      }
      var latest := TryReadLatest(k.objectRef);
      if latest.Err? {
        return DeleteFailed(latest.error), previous;
      }
      var found := NewestOther(k);
      previous := found;
      var head := transport.ReadReference(k);
      transport.DeleteBlob(k, envelope.blobVersion);
      transport.DeleteReference(k, head.value.id);
      outcome := RepointAndRecord(k, latest.value.Some? && latest.value.value.metadata.digest == k.digest, found, now);
    }

    /** Rewrites or removes the pointer, then writes the evidence. */
    method RepointAndRecord(k: Version, wasLatest: bool, previous: Option<Digest>, now: int)
        returns (outcome: DeleteOutcome)
      requires Valid()
      modifies transport
      ensures (transport.bucket, outcome) == FinishDelete(old(transport.bucket), k, wasLatest, IO(now, [], previous))
    {
      hide StackOf, Without;
      var o := k.objectRef;
      if wasLatest {
        if previous.Some? {
          var moved := transport.PutLatest(o, previous.value, false);
        } else {
          var head := transport.ReadLatest(o);
          if head.None? {
            return DeleteFailed(NotFound);
          }
          transport.DeleteLatest(o, head.value.id);
        }
      }
      var evidence := transport.PutDeletion(k, now);
      if evidence.Err? {
        return DeleteFailed(evidence.error);
      }
      return Deleted;
    }
  }

  ghost predicate Resolves(resolve: nat -> Result<ResolvedRange, Failure>) {
    forall n | resolve(n).Ok? :: resolve(n).value.Valid() && resolve(n).value.total == n
  }

  /** The content of the blob version that an envelope records. */
  ghost function StoredContent(b: Bucket, o: ObjectRef, envelope: Envelope): bytes {
    var blob := Find(StackOf(b.blobs, Version(o, envelope.metadata.digest)), envelope.blobVersion);
    if blob.Some? then blob.value.content else []
  }

  /** The payload that a range read registers. */
  datatype RangePayload = RangePayload(key: Version, blobVersion: nat, range: ResolvedRange, chunkDigests: seq<Digest>)

  function PreparedRange(cfg: Config, b: Bucket, o: ObjectRef, digest: Option<Digest>,
                         resolve: nat -> Result<ResolvedRange, Failure>): Result<(Metadata, RangePayload), Failure>
  {
    match Stat(b, o, digest)
    case Err(failure) => Err(failure)
    case Ok(envelope) =>
      match resolve(envelope.metadata.length)
      case Err(failure) => Err(failure)
      case Ok(range) =>
        if range.Length() > cfg.maxRangeBytes then Err(InvalidRequest)
        else if envelope.chunkBytes != cfg.chunkBytes then Err(DigestMismatch)
        else Ok((envelope.metadata, RangePayload(Version(o, envelope.metadata.digest), envelope.blobVersion, range,
                                                 envelope.chunkDigests)))
  }

  /**
   * When a range can be read: the stat succeeds, the range resolves within the configured limit, and the record
   * has the configured chunk size. The answer is then the stat's metadata, and a payload for exactly that range
   * of the blob version that the record names, with the record's chunk digests.
   */
  lemma RangeReadAnswers(cfg: Config, b: Bucket, o: ObjectRef, digest: Option<Digest>,
                         resolve: nat -> Result<ResolvedRange, Failure>)
    ensures var r, stat := PreparedRange(cfg, b, o, digest, resolve), Stat(b, o, digest);
            && (stat.Err? ==> r == Err(stat.error))
            && (stat.Ok? ==>
                  var envelope, resolved := stat.value, resolve(stat.value.metadata.length);
                  && (resolved.Err? ==> r == Err(resolved.error))
                  && (resolved.Ok? ==>
                        var within := resolved.value.end - resolved.value.start < cfg.maxRangeBytes;
                        var readable := envelope.chunkBytes == cfg.chunkBytes;
                        && (!within ==> r == Err(InvalidRequest))
                        && (within && !readable ==> r == Err(DigestMismatch))
                        && (within && readable <==> r.Ok?))
                  && (r.Ok? ==>
                        && resolved.Ok? && r.value.0 == envelope.metadata
                        && r.value.1.key == Version(o, envelope.metadata.digest)
                        && r.value.1.blobVersion == envelope.blobVersion
                        && r.value.1.range == resolved.value && r.value.1.chunkDigests == envelope.chunkDigests))
  {
    hide Stat;
  }

  /** The content of the blob version that a payload names. */
  ghost function PayloadContent(b: Bucket, payload: RangePayload): bytes {
    var blob := Find(StackOf(b.blobs, payload.key), payload.blobVersion);
    if blob.Some? then blob.value.content else []
  }

  /** The blob version is there, and every chunk that the range touches is whole and has its recorded digest. */
  ghost predicate RangeStored(cfg: Config, b: Bucket, payload: RangePayload)
    requires cfg.Valid()
  {
    && Find(StackOf(b.blobs, payload.key), payload.blobVersion).Some?
    && ChunksIntact(cfg.hash, cfg.chunkBytes, payload.chunkDigests, PayloadContent(b, payload), payload.range.total,
                    payload.range.start / cfg.chunkBytes, payload.range.end / cfg.chunkBytes)
  }

  /** The delete gets as far as the scan. */
  ghost predicate Scans(b: Bucket, k: Version, now: int) {
    ReadExact(b, k).Ok? && Releases(ReadExact(b, k).value.retention, now) && TryLatest(b, k.objectRef).Ok?
  }

  /** The newest of the other records that the scan reads, all of them or the first 10,000 by digest. */
  ghost predicate ScanFinds(b: Bucket, k: Version, previous: Option<Digest>) {
    Listing.ScanGives(RecordsOf(b, k.objectRef), "", k.digest, previous)
  }

  lemma SmallScanAnswers(c: Catalog, k: Version, selected: Option<Envelope>)
    requires Listing.ScanSelects(History.VersionsOf(c, k.objectRef), "", Some(k.digest), selected)
    requires |History.VersionsOf(c, k.objectRef)| <= Listing.MAX_INTERNAL_LIST_PAGES * Listing.PAGE_SIZE
    ensures History.ScanAnswers(c, k, if selected.Some? then Some(selected.value.metadata.digest) else None)
  {
    hide History.VersionsOf, Listing.NewestOf;
    var docs := History.VersionsOf(c, k.objectRef);
    var seen: seq<string> :|
      && Listing.Initial(docs, "", None, seen)
      && (Listing.Complete(docs, "", None, seen) || |seen| == Listing.MAX_INTERNAL_LIST_PAGES * Listing.PAGE_SIZE)
      && (forall x | x in seen :: x in docs)
      && Listing.NewestOf(docs, seen, Some(k.digest), selected);
    Listing.FullScanIsComplete(docs, seen);
  }

  lemma RecordsAreVersions(b: Bucket, o: ObjectRef)
    ensures RecordsOf(b, o) == History.VersionsOf(Abstract(b), o)
  {
    var records, versions := RecordsOf(b, o), History.VersionsOf(Abstract(b), o);
    forall d
      ensures d in records <==> d in versions
      ensures d in records ==> records[d] == versions[d]
    {
      History.VersionsOfAt(Abstract(b), o, d);
      if Version(o, d) in Abstract(b).published {
        assert Version(o, d).digest == d;
      }
    }
  }

  // ---------------------------------------------------------------- end to end

  /** What a put that runs alone published is what the object reads as, chunk digests included. */
  lemma PublishedIsStored(cfg: Config, b: Bucket, clock: int, request: PutRequest, io: IO)
    requires cfg.Valid() && History.Orderly(b, clock) && History.Careful(cfg, b, clock, History.Put(request, io))
    requires RunPut(cfg, b, request, io).1.Published?
    ensures var b' := RunPut(cfg, b, request, io).0;
            var envelope := WrittenEnvelope(cfg, b, request, io);
            Stat(b', request.objectRef, None) == Ok(envelope)
                && StoredContent(b', request.objectRef, envelope) == io.landed
  {
    var (b', outcome) := RunPut(cfg, b, request, io);
    var o, k := request.objectRef, Version(request.objectRef, cfg.hash(request.payload));
    var envelope := WrittenEnvelope(cfg, b, request, io);
    PutRefines(cfg, b, clock, request, io);
    History.PutKeepsBlobs(cfg, b, clock, request, io);
    History.StatReadsCatalog(b', io.now, o, None);
    History.RunPutTouches(cfg, b, request, io);
    AbstractLookup(b);
    AbstractLookup(b');
    StoredReadsBack(b, k, Blob(io.landed, k.digest));
    assert envelope.blobVersion == b.NewId() && envelope.metadata.digest == k.digest;
    hide Abstract, RunPut, Sound, Stat, Strands, History.DistinctTimes, Tidy, Find, StackOf, WrittenEnvelope, Current;
    assert Get(Abstract(b').published, k) == PublishedAt(b', k) && Get(Abstract(b).published, k) == PublishedAt(b, k);
    assert b'.references != b.references by { SameReferencesPublishSame(b, b', k); }
  }

  lemma SameReferencesPublishSame(b: Bucket, b': Bucket, k: Version)
    ensures b'.references == b.references ==> PublishedAt(b', k) == PublishedAt(b, k)
  {
  }

  /**
   * Every range of a published payload within the limit can be prepared and, at once, opened, under any
   * configuration of the reader with the chunk size that it was written with.
   */
  lemma PublishedRangeReads(cfg: Config, b: Bucket, clock: int, request: PutRequest, io: IO, reader: Config,
                            resolve: nat -> Result<ResolvedRange, Failure>)
    requires reader.Valid() && reader.hash == cfg.hash
    requires cfg.Valid() && History.Orderly(b, clock) && History.Careful(cfg, b, clock, History.Put(request, io))
    requires RunPut(cfg, b, request, io).1.Published? && io.landed == request.payload && Resolves(resolve)
    ensures var b' := RunPut(cfg, b, request, io).0;
            var prepared := PreparedRange(reader, b', request.objectRef, None, resolve);
            && (prepared.Ok? <==>
                && resolve(|request.payload|).Ok? && resolve(|request.payload|).value.Length() <= reader.maxRangeBytes
                && reader.chunkBytes == cfg.chunkBytes)
            && (prepared.Ok? ==>
                  && prepared.value.0 == WrittenEnvelope(cfg, b, request, io).metadata
                  && prepared.value.1.range == resolve(|request.payload|).value
                  && PayloadContent(b', prepared.value.1) == request.payload
                  && RangeStored(reader, b', prepared.value.1))
  {
    hide RunPut, Stat, WrittenEnvelope, History.Orderly, History.Careful, Find, StackOf;
    hide ChunksIntact, ChunkDigests, ChunkCount, ChunkStart;
    PublishedIsStored(cfg, b, clock, request, io);
    PublishedIntegrity(cfg, b, request, io);
    var payload := request.payload;
    var resolved := resolve(|payload|);
    if resolved.Ok? {
      ChunkOf(resolved.value.end, cfg.chunkBytes);
      StartedChunkCounts(resolved.value.end / cfg.chunkBytes, cfg.chunkBytes, |payload|);
      OwnDigestsIntact(cfg.hash, cfg.chunkBytes, payload,
                       resolved.value.start / cfg.chunkBytes, resolved.value.end / cfg.chunkBytes);
    }
  }

  /**
   * A payload put in any fragments and read back by range, in pieces of any size and at any pace, gives
   * exactly the bytes asked for.
   */
  method PublishThenReadRange(adapter: S3ObjectAdapter, ghost clock: int, request: PutRequest, fragments: seq<bytes>,
                              io: IO, client: Multipart.S3Client, pace: nat -> nat,
                              resolve: nat -> Result<ResolvedRange, Failure>, size: nat)
    returns (outcome: PutOutcome, all: Option<bytes>)
    requires adapter.Valid() && request.payload == Flatten(fragments) && io.landed == request.payload && size > 0
    requires Resolves(resolve) && History.Orderly(adapter.transport.bucket, clock)
    requires History.Careful(adapter.cfg, adapter.transport.bucket, clock, History.Put(request, io))
    modifies adapter.transport, client
    ensures outcome.Published? && resolve(|request.payload|).Ok?
            && resolve(|request.payload|).value.Length() <= adapter.cfg.maxRangeBytes ==>
              var range := resolve(|request.payload|).value;
              all == Some(request.payload[range.start..range.end + 1])
  {
    hide RunPut, Stat, PreparedRange, RangeStored, PayloadContent, History.Careful;
    ghost var before := adapter.transport.bucket;
    BlobIdsBelow(before, clock, Version(request.objectRef, adapter.cfg.hash(request.payload)));
    hide History.Orderly;
    var stopped;
    outcome, stopped := adapter.PutObject(request, fragments, io, client, pace);
    all := None;
    if outcome.Published? {
      PublishedRangeReads(adapter.cfg, before, clock, request, io, adapter.cfg, resolve);
      var prepared := adapter.ReadRange(request.objectRef, None, resolve);
      if prepared.Ok? {
        var answer := adapter.OpenRange(prepared.value.1, pace, pace);
        if answer.Ok? {
          var bytes := answer.value.Drain(size);
          all := Some(bytes);
        }
      }
    }
  }

  /**
   * Where versions are kept, it does not matter when a payload is opened: after any interleaving of puts and
   * deletes it opens or fails just as it would have at once, on the same bytes, or its blob version is gone.
   */
  lemma {:induction false} OpensTheSameLater(cfg: Config, w: World, events: seq<Event>, payload: RangePayload)
    requires cfg.Valid() && w.bucket.versioned && OrderlyIds(w.bucket) && payload.blobVersion < w.bucket.next
    ensures var b, b' := w.bucket, Run(cfg, w, events).bucket;
            if Find(StackOf(b'.blobs, payload.key), payload.blobVersion).Some?
            then
              && Find(StackOf(b.blobs, payload.key), payload.blobVersion).Some?
              && PayloadContent(b', payload) == PayloadContent(b, payload)
              && RangeStored(cfg, b', payload) == RangeStored(cfg, b, payload)
            else !RangeStored(cfg, b', payload)
  {
    RunKeepsIds(cfg, w, events);
    assert FoundOrGone(w.bucket, Run(cfg, w, events).bucket, payload.key, payload.blobVersion);
    hide Run, Find, StackOf, ChunksIntact;
  }

  lemma BlobIdsBelow(b: Bucket, clock: int, k: Version)
    requires History.Orderly(b, clock)
    ensures IdsBelow(StackOf(b.blobs, k), b.next)
  {
  }

  lemma PublishedIntegrity(cfg: Config, b: Bucket, request: PutRequest, io: IO)
    requires cfg.Valid()
    ensures var envelope := WrittenEnvelope(cfg, b, request, io);
            && envelope.metadata.length == |request.payload| && envelope.chunkBytes == cfg.chunkBytes
            && envelope.chunkDigests == ChunkDigests(cfg.hash, request.payload, cfg.chunkBytes)
  {
  }
}
