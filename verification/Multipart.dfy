/** Multipart transfer (multipart.py): a bounded number of parts inside one session. */
module Multipart {
  import opened Wrappers
  import opened Streams
  import opened Integrity

  const S3_MAX_MULTIPART_PARTS: nat := 10_000

  /** The requests a client is sent, in order. */
  datatype Call = Create | UploadPart(number: nat, body: bytes) | Complete(partCount: nat) | Abort

  datatype PartReply = PartRaises | NoEtag | Etag(checksum: Option<Digest>)

  datatype CreateReply = CreateRaises | NoUploadId | UploadId

  /** A completion that raises may still have taken effect at the provider. */
  datatype CompleteReply = CompleteRaises(tookEffect: bool) | Completed(version: Option<nat>)

  /** A single request that raises may have taken effect as well. */
  datatype PutReply = PutDone | PutRaises(tookEffect: bool)

  datatype MultipartError = MultipartInvalid | IncompleteUpload | ClientFailure

  datatype Evidence = Evidence(version: Option<nat>, partCount: nat, partDigests: seq<Digest>)

  /** A provider whose every answer is chosen in advance, failures included. */
  class S3Client {
    const putReply: PutReply      // unless the request's condition fails
    const createReply: CreateReply
    const partReply: nat -> PartReply
    const completeReply: CompleteReply
    var calls: seq<Call>
    var session: seq<bytes>       // part bodies of the open session
    var assembled: Option<bytes>  // the object that the last successful completion made

    method CreateMultipartUpload() returns (reply: CreateReply)
      modifies this
      ensures reply == createReply && calls == old(calls) + [Create]
      ensures session == [] && assembled == old(assembled)
    {
      calls, session := calls + [Create], [];
      reply := createReply;
    }

    method UploadOnePart(number: nat, body: bytes) returns (reply: PartReply)
      modifies this
      ensures reply == partReply(number) && calls == old(calls) + [UploadPart(number, body)]
      ensures session == (if reply.PartRaises? then old(session) else old(session) + [body])
      ensures assembled == old(assembled)
    {
      calls := calls + [UploadPart(number, body)];
      reply := partReply(number);
      session := if reply.PartRaises? then session else session + [body];
    }

    method CompleteMultipartUpload(partCount: nat) returns (reply: CompleteReply)
      modifies this
      ensures reply == completeReply && calls == old(calls) + [Complete(partCount)]
      ensures assembled == if reply == CompleteRaises(false) then old(assembled) else Some(Flatten(old(session)))
    {
      calls := calls + [Complete(partCount)];
      reply := completeReply;
      if reply != CompleteRaises(false) {
        assembled := Some(Flatten(session));
      }
    }

    /** Whether or not the provider obliges: the caller suppresses a failure of this call. */
    method AbortMultipartUpload()
      modifies this
      ensures calls == old(calls) + [Abort] && assembled == old(assembled)
    {
      calls, session := calls + [Abort], [];
    }
  }

  function ExpectedParts(length: nat, partSize: nat): nat
    requires partSize > 0
  {
    var count := ChunkCount(length, partSize);
    if count < 1 then 1 else count
  }

  /** The count check refuses exactly the transfers that do not fit in 10,000 parts. */
  lemma TooManyPartsIff(length: nat, partSize: nat)
    requires partSize > 0
    ensures ExpectedParts(length, partSize) > S3_MAX_MULTIPART_PARTS <==> length > S3_MAX_MULTIPART_PARTS * partSize
  {
    var x := length + partSize - 1;
    DivBounds(x, partSize);
    if ChunkCount(length, partSize) > S3_MAX_MULTIPART_PARTS {
      MulMonotone(S3_MAX_MULTIPART_PARTS + 1, x / partSize, partSize);
    } else {
      MulMonotone(x / partSize + 1, S3_MAX_MULTIPART_PARTS + 1, partSize);
    }
  }

  /** The upload requests for `parts`, numbered from one. */
  function Uploads(parts: seq<bytes>): seq<Call> {
    seq(|parts|, i requires 0 <= i < |parts| => UploadPart(i + 1, parts[i]))
  }

  function Digests(hash: Hash, parts: seq<bytes>): seq<Digest> {
    seq(|parts|, i requires 0 <= i < |parts| => hash(parts[i]))
  }

  /** The provider took the part: an entity tag, and no other checksum than the one sent. */
  predicate Accepted(reply: PartReply, digest: Digest) {
    reply.Etag? && (reply.checksum.None? || reply.checksum.value == digest)
  }

  /** Non-empty pieces of at most `partSize` bytes. */
  predicate WellCut(parts: seq<bytes>, partSize: nat) {
    forall i | 0 <= i < |parts| :: 0 < |parts[i]| <= partSize
  }

  /** Every part but the last is full. */
  predicate FullBeforeLast(parts: seq<bytes>, partSize: nat) {
    forall i | 0 <= i < |parts| - 1 :: |parts[i]| == partSize
  }

  /** Full pieces, cut one after the other, are the fixed-size chunks. */
  lemma {:induction false} FullPartsAreChunks(hash: Hash, parts: seq<bytes>, partSize: nat)
    requires partSize > 0 && WellCut(parts, partSize) && FullBeforeLast(parts, partSize)
    ensures Digests(hash, parts) == ChunkDigests(hash, Flatten(parts), partSize)
  {
    if |parts| == 1 {
      assert Flatten(parts[1..]) == [] && Flatten(parts) == parts[0];
      ChunkDigestsUnfold(hash, parts[0], partSize);
      if |parts[0]| == partSize {
        assert parts[0][..partSize] == parts[0] && parts[0][partSize..] == [];
      }
    } else if |parts| > 1 {
      FullPartsAreChunks(hash, parts[1..], partSize);
      ChunkDigestsUnfold(hash, Flatten(parts), partSize);
      assert Flatten(parts)[..partSize] == parts[0] && Flatten(parts)[partSize..] == Flatten(parts[1..]);
      assert Digests(hash, parts) == [hash(parts[0])] + Digests(hash, parts[1..]);
    }
  }

  /** Everything a transfer out of an unthrottled stream depends on, the provider's answers included. */
  ghost predicate Transferable(client: S3Client, hash: Hash, data: bytes, length: nat, partSize: nat)
    requires partSize > 0
  {
    && |data| == length > 0
    && length <= S3_MAX_MULTIPART_PARTS * partSize
    && client.createReply == UploadId
    && client.completeReply.Completed?
    && PartsAccepted(client, ChunkDigests(hash, data, partSize))
  }

  ghost predicate PartsAccepted(client: S3Client, digests: seq<Digest>) {
    forall i | 0 <= i < |digests| :: Accepted(client.partReply(i + 1), digests[i])
  }

  /** The client answers this request by raising. */
  predicate Raises(client: S3Client, call: Call) {
    match call
    case Create => client.createReply.CreateRaises?
    case UploadPart(number, _) => client.partReply(number).PartRaises?
    case Complete(_) => client.completeReply.CompleteRaises?
    case Abort => false
  }

  ghost predicate Raised(client: S3Client, calls: seq<Call>) {
    exists call :: call in calls && Raises(client, call)
  }

  lemma {:induction false} RaisedIn(client: S3Client, calls: seq<Call>, more: seq<Call>)
    ensures Raised(client, calls + more) <==> Raised(client, calls) || Raised(client, more)
  {
    hide Raises;
    if Raised(client, calls) {
      var call :| call in calls && Raises(client, call);
      assert call in calls + more;
    }
    if Raised(client, more) {
      var call :| call in more && Raises(client, call);
      assert call in calls + more;
    }
  }

  lemma RaisedOnce(client: S3Client, call: Call)
    ensures Raised(client, [call]) <==> Raises(client, call)
  {
    assert call in [call];
    hide Raises;
  }

  /** How a transfer that obtained an upload id leaves the session. */
  ghost predicate SessionClosed(calls: seq<Call>, parts: seq<bytes>, r: Result<Evidence, MultipartError>) {
    match r
    case Ok(_) => calls == [Create] + Uploads(parts) + [Complete(|parts|)]
    case Err(_) =>
      || calls == [Create] + Uploads(parts) + [Abort]
      || calls == [Create] + Uploads(parts) + [Complete(|parts|)] + [Abort]
  }

  method UploadMultipart(client: S3Client, hash: Hash, stream: ByteStream, length: nat, partSize: nat)
    returns (r: Result<Evidence, MultipartError>, ghost parts: seq<bytes>, ghost made: seq<Call>)
    requires stream.Valid() && partSize > 0
    modifies client, stream
    ensures client.calls == old(client.calls) + made
    ensures length > S3_MAX_MULTIPART_PARTS * partSize ==> made == []
    ensures r == Err(MultipartInvalid) <==> length > S3_MAX_MULTIPART_PARTS * partSize
    ensures r == Err(ClientFailure) <==> Raised(client, made)
    ensures length <= S3_MAX_MULTIPART_PARTS * partSize && client.createReply != UploadId ==> r.Err? && made == [Create]
    ensures length <= S3_MAX_MULTIPART_PARTS * partSize && client.createReply == UploadId ==>
        SessionClosed(made, parts, r)
    ensures WellCut(parts, partSize)
    ensures r.Ok? ==>
              && Flatten(parts) == old(stream.Rest())
              && |Flatten(parts)| == length
              && |parts| == ExpectedParts(length, partSize)
              && client.completeReply.Completed?
              && r.value == Evidence(client.completeReply.version, |parts|, Digests(hash, parts))
              && PartsAccepted(client, Digests(hash, parts))
              && client.assembled == Some(old(stream.Rest()))
    ensures r.Err? && client.completeReply != CompleteRaises(true) ==> client.assembled == old(client.assembled)
    ensures stream.Eager() ==> (r.Ok? <==> Transferable(client, hash, old(stream.Rest()), length, partSize))
    ensures stream.Eager() && r.Ok? ==>
              FullBeforeLast(parts, partSize) && r.value.partDigests == ChunkDigests(hash, old(stream.Rest()), partSize)
  {
    parts, made := [], [];
    TooManyPartsIff(length, partSize);
    if ExpectedParts(length, partSize) > S3_MAX_MULTIPART_PARTS {
      return Err(MultipartInvalid), parts, made;
    }
    var created := client.CreateMultipartUpload();
    made := [Create];
    RaisedOnce(client, Create);
    if created.CreateRaises? {
      return Err(ClientFailure), parts, made;
    }
    if created.NoUploadId? {
      return Err(IncompleteUpload), parts, made;
    }
    ghost var tail;
    r, parts, tail := TransferParts(client, hash, stream, length, partSize);
    made := made + tail;
    RaisedIn(client, [Create], tail);
    RaisedOnce(client, Abort);
    RaisedIn(client, made, [Abort]);
    if r.Ok? && stream.Eager() {
      FullPartsAreChunks(hash, parts, partSize);
    }
    if r.Err? {
      client.AbortMultipartUpload();
      made := made + [Abort];
    }
  }

  /** Uploads one part and inspects the answer; None when the part was taken. */
  method SendPart(client: S3Client, number: nat, data: bytes, digest: Digest) returns (failure: Option<MultipartError>)
    modifies client
    ensures client.calls == old(client.calls) + [UploadPart(number, data)]
    ensures failure.None? <==> Accepted(client.partReply(number), digest)
    ensures failure == Some(ClientFailure) <==> client.partReply(number).PartRaises?
    ensures failure != Some(MultipartInvalid)
    ensures failure.None? ==> client.session == old(client.session) + [data]
    ensures client.assembled == old(client.assembled)
  {
    var reply := client.UploadOnePart(number, data);
    if reply.PartRaises? {
      return Some(ClientFailure);
    }
    if reply.NoEtag? {
      return Some(IncompleteUpload);
    }
    if reply.checksum.Some? && reply.checksum.value != digest {
      return Some(IncompleteUpload);
    }
    return None;
  }

  /** What a transfer has done after sending `parts`, all of which were accepted. */
  ghost predicate Sent(client: S3Client, hash: Hash, parts: seq<bytes>, partSize: nat)
    reads client
  {
    && WellCut(parts, partSize)
    && client.session == parts
    && PartsAccepted(client, Digests(hash, parts))
  }

  /** The guarded region: reads, uploads and the completion. */
  method TransferParts(client: S3Client, hash: Hash, stream: ByteStream, length: nat, partSize: nat)
    returns (r: Result<Evidence, MultipartError>, ghost parts: seq<bytes>, ghost made: seq<Call>)
    requires stream.Valid() && partSize > 0 && client.session == []
    requires ExpectedParts(length, partSize) <= S3_MAX_MULTIPART_PARTS
    modifies client, stream
    ensures client.calls == old(client.calls) + made
    ensures made == Uploads(parts) + [Complete(|parts|)] || (r.Err? && made == Uploads(parts))
    ensures WellCut(parts, partSize)
    ensures r.Ok? ==>
              && Flatten(parts) == old(stream.Rest())
              && |Flatten(parts)| == length
              && |parts| == ExpectedParts(length, partSize)
              && client.completeReply.Completed?
              && r.value == Evidence(client.completeReply.version, |parts|, Digests(hash, parts))
              && PartsAccepted(client, Digests(hash, parts))
              && client.assembled == Some(old(stream.Rest()))
    ensures r.Err? && client.completeReply != CompleteRaises(true) ==> client.assembled == old(client.assembled)
    ensures r != Err(MultipartInvalid) && (r == Err(ClientFailure) <==> Raised(client, made))
    ensures stream.Eager() && r.Ok? ==> FullBeforeLast(parts, partSize)
    ensures stream.Eager() && Transferable(client, hash, old(stream.Rest()), length, partSize) ==> r.Ok?
  {
    var failure, partDigests;
    failure, partDigests, parts := UploadAllParts(client, hash, stream, length, partSize);
    made := Uploads(parts);
    if failure.Some? {
      return Err(failure.value), parts, made;
    }
    var extra := stream.Read(1);
    if extra != [] {
      return Err(IncompleteUpload), parts, made;
    }
    var finished := client.CompleteMultipartUpload(|partDigests|);
    RaisedOnce(client, Complete(|parts|));
    RaisedIn(client, made, [Complete(|parts|)]);
    made := made + [Complete(|parts|)];
    if finished.CompleteRaises? {
      return Err(ClientFailure), parts, made;
    }
    return Ok(Evidence(finished.version, |partDigests|, partDigests)), parts, made;
  }

  /** The part loop, up to the comparison of the consumed length with the declared one. */
  method UploadAllParts(client: S3Client, hash: Hash, stream: ByteStream, length: nat, partSize: nat)
    returns (failure: Option<MultipartError>, partDigests: seq<Digest>, ghost parts: seq<bytes>)
    requires stream.Valid() && partSize > 0 && client.session == []
    modifies client, stream
    ensures stream.Valid() && WellCut(parts, partSize)
    ensures client.calls == old(client.calls) + Uploads(parts) && client.assembled == old(client.assembled)
    ensures failure.None? ==>
              && Sent(client, hash, parts, partSize) && partDigests == Digests(hash, parts)
              && Flatten(parts) + stream.Rest() == old(stream.Rest())
              && |Flatten(parts)| == length && |parts| == ExpectedParts(length, partSize)
    ensures failure != Some(MultipartInvalid) && (failure == Some(ClientFailure) <==> Raised(client, Uploads(parts)))
    ensures failure.None? && stream.Eager() ==> FullBeforeLast(parts, partSize)
    ensures stream.Eager() && Transferable(client, hash, old(stream.Rest()), length, partSize) ==> failure.None?
  {
    hide WellCut, PartsAccepted, Digests, AllFull, Uploads, ChunkDigests, ByteStream.Rest, Accepted, Flatten, Raised;
    ghost var all := stream.Rest();
    ghost var whole := stream.Eager() && Transferable(client, hash, all, length, partSize);
    parts, partDigests := [], [];
    var expected := ExpectedParts(length, partSize);
    var consumed: nat := 0;
    var number := 1;
    NothingSent(client, hash, partSize, length);
    while number <= expected
      invariant 1 <= number <= expected + 1 && |parts| == number - 1
      invariant stream.Valid() && Flatten(parts) + stream.Rest() == all
      invariant consumed == |Flatten(parts)| <= length
      invariant partDigests == Digests(hash, parts) && Sent(client, hash, parts, partSize)
      invariant client.calls == old(client.calls) + Uploads(parts) && client.assembled == old(client.assembled)
      invariant !Raised(client, Uploads(parts))
      invariant stream.Eager() && |all| >= length ==> AllFull(parts, partSize, length)
    {
      if whole {
        MoreToRead(hash, parts, partSize, length);
      }
      var data := stream.Read(Min(partSize, length - consumed));
      if data == [] {
        return Some(IncompleteUpload), partDigests, parts;
      }
      ghost var before := parts;
      parts := before + [data];
      PartAdded(client, hash, before, data, partSize, length);
      assert Flatten(before) + (data + stream.Rest()) == Flatten(before) + data + stream.Rest();
      if whole {
        PartIsChunk(hash, parts, all, partSize);
        AcceptedAt(client, ChunkDigests(hash, all, partSize), |before|);
      }
      consumed := consumed + |data|;
      var digest := hash(data);
      failure := SendPart(client, number, data, digest);
      RaisedOnce(client, UploadPart(number, data));
      RaisedIn(client, Uploads(before), [UploadPart(number, data)]);
      if failure.Some? {
        return failure, partDigests, parts;
      }
      partDigests := partDigests + [digest];
      number := number + 1;
    }
    if stream.Eager() && |all| >= length {
      EnoughParts(parts, partSize, length);
      AllFullIsFull(parts, partSize, length);
    }
    if consumed != length {
      return Some(IncompleteUpload), partDigests, parts;
    }
    return None, partDigests, parts;
  }

  lemma NothingSent(client: S3Client, hash: Hash, partSize: nat, length: nat)
    ensures Flatten([]) == [] && Uploads([]) == [] && Digests(hash, []) == []
    ensures WellCut([], partSize) && PartsAccepted(client, []) && AllFull([], partSize, length)
    ensures !Raised(client, [])
  {
  }

  lemma {:induction false} AcceptedAt(client: S3Client, digests: seq<Digest>, i: nat)
    requires PartsAccepted(client, digests) && i < |digests|
    ensures Accepted(client.partReply(i + 1), digests[i])
  {
  }

  lemma {:induction false} AllFullIsFull(parts: seq<bytes>, partSize: nat, length: nat)
    requires AllFull(parts, partSize, length)
    ensures FullBeforeLast(parts, partSize)
  {
  }

  /** One more non-empty part, cut at most `partSize` long. */
  lemma {:induction false} PartAdded(client: S3Client, hash: Hash, parts: seq<bytes>, data: bytes, partSize: nat,
                                     length: nat)
    requires WellCut(parts, partSize) && PartsAccepted(client, Digests(hash, parts))
    requires 0 < |data| <= partSize
    ensures WellCut(parts + [data], partSize)
    ensures Flatten(parts + [data]) == Flatten(parts) + data
    ensures Uploads(parts + [data]) == Uploads(parts) + [UploadPart(|parts| + 1, data)]
    ensures Digests(hash, parts + [data]) == Digests(hash, parts) + [hash(data)]
    ensures Accepted(client.partReply(|parts| + 1), hash(data)) ==> PartsAccepted(client, Digests(hash, parts + [data]))
    ensures AllFull(parts, partSize, length)
            && |Flatten(parts)| < length && |data| == Min(partSize, length - |Flatten(parts)|) ==>
              AllFull(parts + [data], partSize, length)
  {
    FlattenAppend(parts, data);
    hide Flatten, Accepted;
    if Accepted(client.partReply(|parts| + 1), hash(data)) {
      AcceptedNext(client, Digests(hash, parts), hash(data));
    }
  }

  lemma {:induction false} AcceptedNext(client: S3Client, digests: seq<Digest>, digest: Digest)
    requires PartsAccepted(client, digests) && Accepted(client.partReply(|digests| + 1), digest)
    ensures PartsAccepted(client, digests + [digest])
  {
  }

  ghost predicate AllFull(parts: seq<bytes>, partSize: nat, length: nat) {
    && FullBeforeLast(parts, partSize)
    && (parts != [] && |Flatten(parts)| < length ==> |parts[|parts| - 1]| == partSize)
  }

  lemma {:induction false} LengthOfFullParts(parts: seq<bytes>, partSize: nat)
    requires forall i | 0 <= i < |parts| :: |parts[i]| == partSize
    ensures |Flatten(parts)| == ChunkStart(|parts|, partSize)
  {
    if parts != [] {
      LengthOfFullParts(parts[1..], partSize);
    }
  }

  /** As many full parts as expected hold the declared length. */
  lemma {:induction false} EnoughParts(parts: seq<bytes>, partSize: nat, length: nat)
    requires partSize > 0 && AllFull(parts, partSize, length) && |parts| == ExpectedParts(length, partSize)
    ensures |Flatten(parts)| >= length
  {
    if |Flatten(parts)| < length {
      LengthOfFullParts(parts, partSize);
      ChunkStartIsProduct(|parts|, partSize);
      DivBounds(length + partSize - 1, partSize);
    }
  }

  /** Before the expected number of full parts something is left to read. */
  lemma {:induction false} MoreToRead(hash: Hash, parts: seq<bytes>, partSize: nat, length: nat)
    requires partSize > 0 && length > 0 && WellCut(parts, partSize) && AllFull(parts, partSize, length)
    requires |parts| < ExpectedParts(length, partSize)
    ensures |Flatten(parts)| != length
  {
    FullPartsAreChunks(hash, parts, partSize);
    ChunkDigestAt(hash, Flatten(parts), partSize, 0);
  }

  /** The last of the full parts cut so far has the digest of the chunk at its index. */
  lemma {:induction false} PartIsChunk(hash: Hash, parts: seq<bytes>, data: bytes, partSize: nat)
    requires partSize > 0 && parts != [] && Flatten(parts) <= data
    requires WellCut(parts, partSize) && AllFull(parts, partSize, |data|)
    ensures |parts| <= |ChunkDigests(hash, data, partSize)|
    ensures hash(parts[|parts| - 1]) == ChunkDigests(hash, data, partSize)[|parts| - 1]
  {
    hide WellCut, AllFull, Flatten, ChunkDigests, ChunkStart, Digests;
    AllFullIsFull(parts, partSize, |data|);
    FullPartsAreChunks(hash, parts, partSize);
    DigestAt(hash, parts, |parts| - 1);
    ReachesItsEnd(parts, |data|, partSize);
    PrefixChunk(hash, Flatten(parts), data, partSize, |parts| - 1);
  }

  lemma {:induction false} DigestAt(hash: Hash, parts: seq<bytes>, i: nat)
    requires i < |parts|
    ensures |Digests(hash, parts)| == |parts| && Digests(hash, parts)[i] == hash(parts[i])
  {
  }

  lemma {:induction false} ReachesItsEnd(parts: seq<bytes>, length: nat, partSize: nat)
    requires partSize > 0 && parts != [] && AllFull(parts, partSize, length) && |Flatten(parts)| <= length
    ensures |Flatten(parts)| == length || |Flatten(parts)| >= ChunkStart(|parts| - 1, partSize) + partSize
  {
    if |Flatten(parts)| < length {
      LengthOfFullParts(parts, partSize);
    }
  }

  /** A chunk that ends alike in a prefix and in the whole has the same digest in both. */
  lemma PrefixChunk(hash: Hash, cut: bytes, data: bytes, n: nat, i: nat)
    requires n > 0 && cut <= data && i < |ChunkDigests(hash, cut, n)|
    requires |cut| == |data| || |cut| >= ChunkStart(i, n) + n
    ensures i < |ChunkDigests(hash, data, n)|
    ensures ChunkDigests(hash, cut, n)[i] == ChunkDigests(hash, data, n)[i]
  {
    hide ChunkDigests, ChunkStart, ChunkCount;
    ChunkDigestAt(hash, cut, n, i);
    StartedChunkCounts(i, n, |data|);
    ChunkDigestAt(hash, data, n, i);
    assert cut[ChunkStart(i, n)..ChunkEnd(i, n, |cut|)] == data[ChunkStart(i, n)..ChunkEnd(i, n, |data|)];
  }
}
