/** The transport's calls on the bucket (transport.py). */
module Transport {
  import opened Wrappers
  import opened Streams
  import opened Integrity
  import opened Bucket
  import opened Publication
  import opened Serial
  import Multipart

  const VERIFY_UNIT: nat := 1024 * 1024

  class S3Transport {
    const cfg: Config
    var bucket: Bucket

    constructor (cfg: Config, versioned: bool)
      ensures this.cfg == cfg && bucket == Empty(versioned)
    {
      this.cfg := cfg;
      bucket := Empty(versioned);
    }

    // ---- internal JSON documents

    method ReadReference(k: Version) returns (entry: Option<Entry<Envelope>>)
      ensures entry == Current(bucket.references, k)
    {
      entry := Current(bucket.references, k);
    }

    method ReadLatest(o: ObjectRef) returns (entry: Option<Entry<Digest>>)
      ensures entry == Current(bucket.latest, o)
    {
      entry := Current(bucket.latest, o);
    }

    /** Every conditional write fails when the key has a current version. */
    method PutReference(k: Version, envelope: Envelope) returns (r: Result<nat, Failure>)
      modifies this
      ensures r == if Current(old(bucket).references, k).Some? then Err(ConditionalConflict)
          else Ok(old(bucket).NewId())
      ensures bucket == if r.Ok? then old(bucket).WriteReference(k, envelope) else old(bucket)
    {
      if Current(bucket.references, k).Some? {
        return Err(ConditionalConflict);
      }
      r := Ok(bucket.NewId());
      bucket := bucket.WriteReference(k, envelope);
    }

    method PutLatest(o: ObjectRef, digest: Digest, createOnly: bool) returns (r: Result<nat, Failure>)
      modifies this
      ensures r == if createOnly && Current(old(bucket).latest, o).Some? then Err(ConditionalConflict)
          else Ok(old(bucket).NewId())
      ensures bucket == if r.Ok? then old(bucket).WriteLatest(o, digest) else old(bucket)
    {
      if createOnly && Current(bucket.latest, o).Some? {
        return Err(ConditionalConflict);
      }
      r := Ok(bucket.NewId());
      bucket := bucket.WriteLatest(o, digest);
    }

    method PutOrphan(k: Version, reason: string) returns (r: Result<nat, Failure>)
      modifies this
      ensures r == if Current(old(bucket).orphans, k).Some? then Err(ConditionalConflict) else Ok(old(bucket).NewId())
      ensures bucket == if r.Ok? then old(bucket).WriteOrphan(k, reason) else old(bucket)
    {
      if Current(bucket.orphans, k).Some? {
        return Err(ConditionalConflict);
      }
      r := Ok(bucket.NewId());
      bucket := bucket.WriteOrphan(k, reason);
    }

    method PutDeletion(k: Version, deletedAt: int) returns (r: Result<nat, Failure>)
      modifies this
      ensures r == if Current(old(bucket).deletions, k).Some? then Err(ConditionalConflict) else Ok(old(bucket).NewId())
      ensures bucket == if r.Ok? then old(bucket).WriteDeletion(k, deletedAt) else old(bucket)
    {
      if Current(bucket.deletions, k).Some? {
        return Err(ConditionalConflict);
      }
      r := Ok(bucket.NewId());
      bucket := bucket.WriteDeletion(k, deletedAt);
    }

    method DeleteReference(k: Version, version: nat)
      modifies this
      ensures bucket == old(bucket).RemoveReference(k, version)
    {
      bucket := bucket.RemoveReference(k, version);
    }

    method DeleteLatest(o: ObjectRef, version: nat)
      modifies this
      ensures bucket == old(bucket).RemoveLatest(o, version)
    {
      bucket := bucket.RemoveLatest(o, version);
    }

    // ---- blobs

    method HeadBlob(k: Version, version: nat) returns (blob: Option<Blob>)
      ensures blob == Find(StackOf(bucket.blobs, k), version)
    {
      blob := Find(StackOf(bucket.blobs, k), version);
    }

    method DeleteBlob(k: Version, version: nat)
      modifies this
      ensures bucket == old(bucket).RemoveBlob(k, version)
    {
      bucket := bucket.RemoveBlob(k, version);
    }

    /** A blob version, or its bytes from one position to another, both included, delivered at any pace. */
    method GetBody(k: Version, version: nat, byteRange: Option<(nat, nat)>, pace: nat -> nat)
      returns (body: Result<ByteStream, Failure>)
      requires byteRange.Some? ==> byteRange.value.0 <= byteRange.value.1
      ensures var blob := Find(StackOf(bucket.blobs, k), version);
              match body
              case Err(failure) =>
                || (blob.None? && failure == NotFound)
                || (blob.Some? && byteRange.Some? && byteRange.value.0 >= |blob.value.content|
                    && failure == RangeNotSatisfiable)
              case Ok(stream) =>
                && blob.Some? && fresh(stream) && stream.Valid()
                && match byteRange
                   case None => stream.Rest() == blob.value.content
                   case Some((from, to)) =>
                     && from < |blob.value.content|
                     && stream.Rest() == blob.value.content[from..Min(to + 1, |blob.value.content|)]
    {
      var blob := Find(StackOf(bucket.blobs, k), version);
      if blob.None? {
        return Err(NotFound);
      }
      var content := blob.value.content;
      var from, limit := 0, |content|;
      if byteRange.Some? {
        if byteRange.value.0 >= |content| {
          return Err(RangeNotSatisfiable);
        }
        from, limit := byteRange.value.0, Min(byteRange.value.1 + 1, |content|);
      }
      var stream := new ByteStream(content[from..limit], pace, 0);
      return Ok(stream);
    }

    /** Reads the whole version back; a wrong length is reported before a wrong digest. */
    method VerifyDigest(k: Version, version: nat, length: nat, digest: Digest, pace: nat -> nat)
        returns (failure: Option<Failure>)
      ensures var blob := Find(StackOf(bucket.blobs, k), version);
              failure ==
              if blob.None? then Some(NotFound)
              else if |blob.value.content| != length then Some(IncompleteUpload)
              else if cfg.hash(blob.value.content) != digest then Some(DigestMismatch)
              else None
    {
      hide Find, StackOf, ByteStream.Rest;
      var body := GetBody(k, version, None, pace);
      if body.Err? {
        return Some(body.error);
      }
      ghost var content := body.value.Rest();
      var hashed: bytes := [];
      var observed := 0;
      while true
        invariant fresh(body.value) && body.value.Valid() && hashed + body.value.Rest() == content
        invariant observed == |hashed|
        decreases |body.value.Rest()|
      {
        var raw := body.value.Read(VERIFY_UNIT);
        if raw == [] {
          break;
        }
        assert hashed + (raw + body.value.Rest()) == hashed + raw + body.value.Rest();
        hashed := hashed + raw;
        observed := observed + |raw|;
      }
      assert hashed == content;
      if observed != length {
        return Some(IncompleteUpload);
      }
      if cfg.hash(hashed) != digest {
        return Some(DigestMismatch);
      }
      return None;
    }

    /**
     * Stores a file under its digest; `landed` is what the provider keeps of it. Only the single-request
     * path is conditional. An upload that fails leaves the blob as it was, unless the request that stores it,
     * or completes it, took effect although it raised.
     */
    method PutFile(k: Version, payload: bytes, landed: bytes, client: Multipart.S3Client, pace: nat -> nat)
      returns (r: Result<nat, Failure>)
      requires cfg.Valid() && |payload| <= cfg.maxObjectBytes && k.digest == cfg.hash(payload)
      requires IdsBelow(StackOf(bucket.blobs, k), bucket.next)
      modifies this, client
      ensures StoresFile(old(bucket), bucket, k, payload, landed, r)
      ensures |payload| < cfg.multipartThreshold ==> (r == Err(UploadFailed) <==> client.putReply.PutRaises?)
      ensures |payload| >= cfg.multipartThreshold && Unhurried(pace) ==>
                (r != Err(UploadFailed) <==>
                 Multipart.Transferable(client, cfg.hash, payload, |payload|, cfg.multipartPartBytes))
    {
      if |payload| >= cfg.multipartThreshold {
        var stream := new ByteStream(payload, pace, 0);
        assert stream.Rest() == payload;
        client.assembled := None;
        var sent;
        ghost var parts, made;
        sent, parts, made := Multipart.UploadMultipart(client, cfg.hash, stream, |payload|, cfg.multipartPartBytes);
        if sent.Err? {
          if client.assembled.Some? {
            bucket := bucket.WriteBlob(k, Blob(landed, k.digest));
          }
          return Err(UploadFailed);
        }
      } else {
        var blocked := Current(bucket.blobs, k).Some?;
        if client.putReply.PutRaises? {
          if client.putReply.tookEffect && !blocked {
            bucket := bucket.WriteBlob(k, Blob(landed, k.digest));
          }
          return Err(UploadFailed);
        }
        if blocked {
          return Err(ConditionalConflict);
        }
      }
      var version := bucket.NewId();
      StoredReadsBack(bucket, k, Blob(landed, k.digest));
      bucket := bucket.WriteBlob(k, Blob(landed, k.digest));
      if cfg.verifyAfterWrite {
        var failure := VerifyDigest(k, version, |payload|, k.digest, pace);
        if failure.Some? {
          return Err(failure.value);
        }
      }
      return Ok(version);
    }

    /** The bucket and the answer after a file was stored, or was not. */
    ghost predicate StoresFile(b: Bucket, b': Bucket, k: Version, payload: bytes, landed: bytes, r: Result<nat,
                               Failure>) {
      var blocked := |payload| < cfg.multipartThreshold && Current(b.blobs, k).Some?;
      if r == Err(UploadFailed) then b' == b || (b' == b.WriteBlob(k, Blob(landed, k.digest)) && !blocked)
      else
        && b' == (if blocked then b else b.WriteBlob(k, Blob(landed, k.digest)))
        && r == if blocked then Err(ConditionalConflict)
                else if cfg.verifyAfterWrite && |landed| != |payload| then Err(IncompleteUpload)
                else if cfg.verifyAfterWrite && cfg.hash(landed) != k.digest then Err(DigestMismatch)
                else Ok(b.NewId())
    }
  }

  /** Every read of the stream hands over all it was asked for. */
  ghost predicate Unhurried(pace: nat -> nat) {
    forall i :: pace(i) == 0
  }
}
