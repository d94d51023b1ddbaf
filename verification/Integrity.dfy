/**
 * Chunked integrity (adapter.py, _IntegritySpool, _VerifiedRangeSource, _LimitedReader).
 * SHA-256 is the parameter `hash`; an incremental hasher is the bytes it was fed.
 */
module Integrity {
  import opened Wrappers
  import opened Streams

  type Digest = string

  type Hash = bytes -> Digest

  // ---------------------------------------------------------------- chunk digests

  /** The digests of the leading whole chunks of `s`. */
  function WholeDigests(hash: Hash, s: bytes, n: nat): seq<Digest>
    requires n > 0
  {
    if |s| < n then [] else [hash(s[..n])] + WholeDigests(hash, s[n..], n)
  }

  /** What follows the last whole chunk of `s`. */
  function ShortTail(s: bytes, n: nat): (tail: bytes)
    requires n > 0
    ensures |tail| < n
  {
    if |s| < n then s else ShortTail(s[n..], n)
  }

  /** The digests of consecutive chunks of `n` bytes, the last one possibly short. */
  function ChunkDigests(hash: Hash, s: bytes, n: nat): seq<Digest>
    requires n > 0
  {
    var tail := ShortTail(s, n);
    WholeDigests(hash, s, n) + (if tail == [] then [] else [hash(tail)])
  }

  function ChunkCount(length: nat, n: nat): nat
    requires n > 0
  {
    (length + n - 1) / n
  }

  /** Where chunk `i` starts: the product i * n, in a form that unfolds linearly. */
  function ChunkStart(i: nat, n: nat): nat {
    if i == 0 then 0 else ChunkStart(i - 1, n) + n
  }

  /** Where chunk `i` of an object of `total` bytes ends. */
  function ChunkEnd(i: nat, n: nat, total: nat): nat {
    Min(ChunkStart(i, n) + n, total)
  }

  lemma {:induction false} ChunkStartIsProduct(i: nat, n: nat)
    ensures ChunkStart(i, n) == i * n
  {
    if i > 0 {
      ChunkStartIsProduct(i - 1, n);
      assert i * n == (i - 1) * n + n;
    }
  }

  lemma {:induction false} ChunkStartMonotone(i: nat, j: nat, n: nat)
    requires i <= j
    ensures ChunkStart(i, n) <= ChunkStart(j, n)
    ensures i < j ==> ChunkStart(i, n) + n <= ChunkStart(j, n)
    decreases j
  {
    if i < j {
      ChunkStartMonotone(i, j - 1, n);
    }
  }

  lemma ChunkHolding(x: nat, n: nat) returns (i: nat)
    requires n > 0
    ensures ChunkStart(i, n) <= x < ChunkStart(i, n) + n
  {
    i := x / n;
    ChunkOf(x, n);
  }

  /** The chunk that holds position `x`. */
  lemma ChunkOf(x: nat, n: nat)
    requires n > 0
    ensures ChunkStart(x / n, n) <= x < ChunkStart(x / n, n) + n
  {
    ChunkStartIsProduct(x / n, n);
    ChunkStartIsProduct(x / n + 1, n);
    DivBounds(x, n);
  }

  /** Feeding bytes that stay within the open chunk. */
  lemma {:induction false} FeedWithinChunk(hash: Hash, s: bytes, x: bytes, n: nat)
    requires n > 0
    requires |ShortTail(s, n)| + |x| <= n
    ensures |ShortTail(s, n)| + |x| < n ==>
              WholeDigests(hash, s + x, n) == WholeDigests(hash, s, n)
              && ShortTail(s + x, n) == ShortTail(s, n) + x
    ensures |ShortTail(s, n)| + |x| == n ==>
              WholeDigests(hash, s + x, n) == WholeDigests(hash, s, n) + [hash(ShortTail(s, n) + x)]
              && ShortTail(s + x, n) == []
  {
    if |s| < n {
      if |s| + |x| == n {
        assert (s + x)[..n] == s + x && (s + x)[n..] == [];
      }
    } else {
      assert (s + x)[..n] == s[..n] && (s + x)[n..] == s[n..] + x;
      FeedWithinChunk(hash, s[n..], x, n);
    }
  }

  lemma ChunkDigestsUnfold(hash: Hash, s: bytes, n: nat)
    requires 0 < n
    ensures |s| >= n ==> ChunkDigests(hash, s, n) == [hash(s[..n])] + ChunkDigests(hash, s[n..], n)
    ensures 0 < |s| < n ==> ChunkDigests(hash, s, n) == [hash(s)]
  {
  }

  /** Chunk digests are indexed by the fixed-size slices, ceil(|s| / n) of them. */
  lemma {:induction false} ChunkDigestAt(hash: Hash, s: bytes, n: nat, i: nat)
    requires n > 0
    ensures |ChunkDigests(hash, s, n)| == ChunkCount(|s|, n)
    ensures i < ChunkCount(|s|, n) ==>
              ChunkStart(i, n) < ChunkEnd(i, n, |s|)
              && ChunkDigests(hash, s, n)[i] == hash(s[ChunkStart(i, n)..ChunkEnd(i, n, |s|)])
    decreases |s|
  {
    ChunkDigestsUnfold(hash, s, n);
    if |s| < n {
      CountOfShort(|s|, n);
      assert s[0..|s|] == s;
    } else {
      CountOfLong(|s|, n);
      ChunkDigestAt(hash, s[n..], n, if i == 0 then 0 else i - 1);
      if i == 0 {
        assert ChunkStart(0, n) == 0 && ChunkEnd(0, n, |s|) == n;
        assert s[0..n] == s[..n];
      } else if i < ChunkCount(|s|, n) {
        hide ChunkDigests, ChunkCount, ChunkStart, ChunkEnd;
        ChunkOfRest(s, n, i);
      }
    }
  }

  lemma ChunkOfRest(s: bytes, n: nat, i: nat)
    requires 0 < n <= |s| && i > 0
    requires ChunkStart(i - 1, n) < ChunkEnd(i - 1, n, |s| - n)
    ensures ChunkStart(i, n) < ChunkEnd(i, n, |s|)
    ensures s[n..][ChunkStart(i - 1, n)..ChunkEnd(i - 1, n, |s| - n)] == s[ChunkStart(i, n)..ChunkEnd(i, n, |s|)]
  {
    var from, to := ChunkStart(i - 1, n), ChunkEnd(i - 1, n, |s| - n);
    assert ChunkStart(i, n) == n + from && ChunkEnd(i, n, |s|) == n + to;
    SliceOfSlice(s, n, |s|, from, to);
    assert s[n..|s|] == s[n..];
  }

  lemma CountOfShort(length: nat, n: nat)
    requires 0 < n && length < n
    ensures ChunkCount(length, n) == if length == 0 then 0 else 1
  {
    if length > 0 {
      assert length + n - 1 == n + (length - 1);
    }
  }

  lemma CountOfLong(length: nat, n: nat)
    requires 0 < n <= length
    ensures ChunkCount(length, n) == 1 + ChunkCount(length - n, n)
  {
    var q := (length - 1) / n;
    DivBounds(length - 1, n);
    assert (q + 1) * n == q * n + n && (q + 2) * n == q * n + 2 * n;
    DivUnique(length + n - 1, n, q + 1);
  }

  /** Chunk `i` of an object of `total` bytes is whole in the content and has the digest recorded for it. */
  ghost predicate ChunkIntact(hash: Hash, n: nat, digests: seq<Digest>, content: bytes, total: nat, i: nat) {
    && i < |digests| && ChunkStart(i, n) <= ChunkEnd(i, n, total) <= |content|
    && digests[i] == hash(content[ChunkStart(i, n)..ChunkEnd(i, n, total)])
  }

  ghost predicate ChunksIntact(hash: Hash, n: nat, digests: seq<Digest>, content: bytes, total: nat, first: nat,
                               last: nat) {
    forall i: nat | first <= i <= last :: ChunkIntact(hash, n, digests, content, total, i)
  }

  /** Content agrees with its own digests wherever it has chunks. */
  lemma OwnDigestsIntact(hash: Hash, n: nat, content: bytes, first: nat, last: nat)
    requires n > 0 && last < ChunkCount(|content|, n)
    ensures ChunksIntact(hash, n, ChunkDigests(hash, content, n), content, |content|, first, last)
  {
    hide ChunkDigests, ChunkCount;
    forall i: nat | first <= i <= last
      ensures ChunkIntact(hash, n, ChunkDigests(hash, content, n), content, |content|, i)
    {
      CountMonotone(i, last, |content|, n);
      ChunkDigestAt(hash, content, n, i);
    }
  }

  lemma CountMonotone(i: nat, last: nat, length: nat, n: nat)
    requires n > 0 && i <= last < ChunkCount(length, n)
    ensures i < ChunkCount(length, n)
  {
  }

  // ---------------------------------------------------------------- the spool

  /** Writes through to the spool file and seals a digest whenever a chunk is full. */
  class IntegritySpool {
    const hash: Hash
    const chunkBytes: nat
    var content: bytes        // the spool file
    var chunkInput: bytes     // what the running hasher was fed
    var chunkLength: nat
    var digests: seq<Digest>
    ghost var sealed: seq<Digest>  // digests completed by earlier calls of Finish
    ghost var segment: bytes       // bytes hashed since then

    ghost predicate Valid()
      reads this
    {
      && chunkBytes > 0
      && chunkLength == |chunkInput|
      && chunkInput == ShortTail(segment, chunkBytes)
      && digests == sealed + WholeDigests(hash, segment, chunkBytes)
    }

    /** The tuple that Finish returns. */
    ghost function Digests(): seq<Digest>
      requires Valid()
      reads this
    {
      sealed + ChunkDigests(hash, segment, chunkBytes)
    }

    constructor (hash: Hash, chunkBytes: nat)
      requires chunkBytes > 0
      ensures Valid() && this.hash == hash && this.chunkBytes == chunkBytes
      ensures content == [] && sealed == [] && segment == []
    {
      this.hash := hash;
      this.chunkBytes := chunkBytes;
      content, chunkInput, chunkLength, digests := [], [], 0, [];
      sealed, segment := [], [];
    }

    /** `accepted` is how much the spool file takes; a short write is reported and not hashed. */
    method Write(data: bytes, accepted: nat) returns (written: nat)
      requires Valid() && accepted <= |data|
      modifies this
      ensures Valid() && written == accepted
      ensures content == old(content) + data[..accepted]
      ensures sealed == old(sealed)
      ensures segment == if accepted == |data| then old(segment) + data else old(segment)
    {
      content := content + data[..accepted];
      written := accepted;
      if written != |data| {
        return;
      }
      var offset := 0;
      assert data[..0] == [] && segment + [] == segment;
      while offset < |data|
        invariant offset <= |data|
        invariant Valid() && sealed == old(sealed)
        invariant segment == old(segment) + data[..offset]
        invariant content == old(content) + data[..accepted]
      {
        hide WholeDigests, ShortTail;
        var selected := Min(chunkBytes - chunkLength, |data| - offset);
        var piece := data[offset..offset + selected];
        FeedWithinChunk(hash, segment, piece, chunkBytes);
        AppendPiece(old(segment), data, offset, selected);
        chunkInput := chunkInput + piece;
        chunkLength := chunkLength + selected;
        segment := segment + piece;
        offset := offset + selected;
        if chunkLength == chunkBytes {
          SealChunk();
        }
      }
      assert data[..offset] == data;
    }

    method SealChunk()
      modifies this`digests, this`chunkInput, this`chunkLength
      ensures digests == old(digests) + [hash(old(chunkInput))]
      ensures chunkInput == [] && chunkLength == 0
    {
      digests := digests + [hash(chunkInput)];
      chunkInput, chunkLength := [], 0;
    }

    /** Finishing again returns the same tuple: the call leaves Digests() as it was. */
    method Finish() returns (all: seq<Digest>)
      requires Valid()
      modifies this
      ensures Valid()
      ensures all == Digests() == old(Digests())
      ensures content == old(content)
    {
      if chunkLength != 0 {
        SealChunk();
        sealed, segment := digests, [];
      }
      all := digests;
    }
  }

  /** The digests depend on the concatenation of the writes alone, however it was cut. */
  method SpoolFragments(hash: Hash, chunkBytes: nat, fragments: seq<bytes>)
    returns (content: bytes, digests: seq<Digest>)
    requires chunkBytes > 0
    ensures content == Flatten(fragments)
    ensures digests == ChunkDigests(hash, Flatten(fragments), chunkBytes)
  {
    var spool := new IntegritySpool(hash, chunkBytes);
    for k := 0 to |fragments|
      invariant spool.Valid() && spool.sealed == [] && fresh(spool)
      invariant spool.hash == hash && spool.chunkBytes == chunkBytes
      invariant spool.content == spool.segment == Flatten(fragments[..k])
    {
      FlattenAppend(fragments[..k], fragments[k]);
      assert fragments[..k + 1] == fragments[..k] + [fragments[k]];
      var written := spool.Write(fragments[k], |fragments[k]|);
    }
    assert fragments[..|fragments|] == fragments;
    digests := spool.Finish();
    content := spool.content;
  }

  // ---------------------------------------------------------------- verified range reads

  /** Hands out at most `remaining` bytes of the stream it wraps. */
  class LimitedReader {
    const stream: ByteStream
    var remaining: nat

    ghost predicate Valid()
      reads this, stream
    {
      stream.Valid()
    }

    /** What reading to the end still yields. */
    ghost function Rest(): bytes
      requires Valid()
      reads this, stream
    {
      stream.Rest()[..Min(remaining, |stream.Rest()|)]
    }

    constructor (stream: ByteStream, length: nat)
      requires stream.Valid()
      ensures Valid() && this.stream == stream
      ensures Rest() == stream.Rest()[..Min(length, |stream.Rest()|)]
    {
      this.stream := stream;
      this.remaining := length;
    }

    /** A negative size asks for everything. */
    method Read(size: int) returns (raw: bytes)
      requires Valid()
      modifies this, stream
      ensures Valid()
      ensures raw + Rest() == old(Rest())
      ensures size >= 0 ==> |raw| <= size
      ensures raw == [] <==> size == 0 || old(Rest()) == []
    {
      if remaining == 0 {
        return [];
      }
      var selected := if size < 0 then remaining else Min(size, remaining);
      ghost var before := stream.Rest();
      raw := stream.Read(selected);
      remaining := remaining - |raw|;
      assert before == raw + stream.Rest();
    }

    /** A consumer that reads in pieces of `size` until nothing comes back. */
    method Drain(size: nat) returns (all: bytes)
      requires Valid() && size > 0
      modifies this, stream
      ensures Valid() && all == old(Rest()) && Rest() == []
    {
      hide Rest, ByteStream.Rest;
      all := [];
      while true
        invariant Valid() && all + Rest() == old(Rest())
        decreases |Rest()|
      {
        var raw := Read(size);
        if raw == [] {
          break;
        }
        all := all + raw;
      }
    }
  }

  datatype RangeError = ChunkMismatch | Incomplete

  const READ_UNIT: nat := 1024 * 1024

  /** An inclusive range, resolved against the object's length (RFC 9110, section 14.1.2). */
  datatype ResolvedRange = ResolvedRange(start: nat, end: nat, total: nat) {
    ghost predicate Valid() {
      start <= end < total
    }

    function Length(): int {
      end - start + 1
    }
  }

  /** Where the chunk comparison stands: the open chunk and what its hasher was fed. */
  datatype Hashing = Hashing(currentChunk: nat, input: bytes, currentLength: nat)

  class VerifiedRangeSource {
    const hash: Hash
    const chunkBytes: nat
    const range: ResolvedRange
    const chunkDigests: seq<Digest>

    constructor (hash: Hash, chunkBytes: nat, range: ResolvedRange, chunkDigests: seq<Digest>)
      requires chunkBytes > 0 && range.Valid()
      ensures this.hash == hash && this.chunkBytes == chunkBytes
      ensures this.range == range && this.chunkDigests == chunkDigests
    {
      this.hash := hash;
      this.chunkBytes := chunkBytes;
      this.range := range;
      this.chunkDigests := chunkDigests;
    }

    ghost predicate Valid() {
      chunkBytes > 0 && range.Valid()
    }

    function FirstChunk(): nat requires Valid() { range.start / chunkBytes }

    function LastChunk(): nat requires Valid() { range.end / chunkBytes }

    function CoveringStart(): nat requires Valid() { ChunkStart(FirstChunk(), chunkBytes) }

    /** One past the last byte requested, so that the request covers whole chunks. */
    function CoveringLimit(): int requires Valid() { ChunkEnd(LastChunk(), chunkBytes, range.total) }

    /** The position in the response at which chunk `i` ends. */
    function EndInBody(i: nat): int requires Valid() { ChunkEnd(i, chunkBytes, range.total) - CoveringStart() }

    /** Chunk `i` arrived whole in `body`, and has the recorded digest. */
    ghost predicate Matches(body: bytes, i: nat)
      requires Valid()
    {
      && CoveringStart() <= ChunkStart(i, chunkBytes) <= CoveringStart() + EndInBody(i) <= CoveringStart() + |body|
      && i < |chunkDigests|
      && chunkDigests[i] == hash(body[ChunkStart(i, chunkBytes) - CoveringStart()..EndInBody(i)])
    }

    /** Bounds of the covering request, and of chunk `i` inside the response to it. */
    lemma Geometry(i: nat)
      requires Valid()
      ensures FirstChunk() <= LastChunk()
      ensures CoveringStart() <= range.start <= range.end < CoveringLimit() <= range.total
      ensures FirstChunk() <= i ==> ChunkStart(i, chunkBytes) >= CoveringStart()
      ensures i <= LastChunk() ==> ChunkStart(i, chunkBytes) < ChunkEnd(i, chunkBytes, range.total) <= CoveringLimit()
      ensures i < LastChunk() ==>
                ChunkEnd(i, chunkBytes, range.total) == ChunkStart(i + 1, chunkBytes) < CoveringLimit()
    {
      ChunkOf(range.start, chunkBytes);
      ChunkOf(range.end, chunkBytes);
      if LastChunk() < FirstChunk() {
        ChunkStartMonotone(LastChunk(), FirstChunk(), chunkBytes);
      }
      if FirstChunk() <= i {
        ChunkStartMonotone(FirstChunk(), i, chunkBytes);
      }
      if i <= LastChunk() {
        ChunkStartMonotone(i, LastChunk(), chunkBytes);
      }
    }

    /** The request is cut at multiples of the chunk size. */
    lemma CoveringBounds()
      requires Valid()
      ensures CoveringStart() == FirstChunk() * chunkBytes
      ensures CoveringLimit() == Min(range.total, (LastChunk() + 1) * chunkBytes)
    {
      ChunkStartIsProduct(FirstChunk(), chunkBytes);
      ChunkStartIsProduct(LastChunk() + 1, chunkBytes);
    }

    /** At most one chunk less a byte is fetched beyond each end of the range. */
    lemma FetchBound()
      requires Valid()
      ensures CoveringLimit() - CoveringStart() <= range.Length() + 2 * (chunkBytes - 1)
    {
      ChunkOf(range.start, chunkBytes);
      ChunkOf(range.end, chunkBytes);
    }

    ghost function BodyLength(): int requires Valid() { CoveringLimit() - CoveringStart() }

    /** The part of a response that is ever read. */
    ghost function Delivered(body: bytes): bytes
      requires Valid()
    {
      Geometry(0);
      body[..Min(|body|, BodyLength())]
    }

    /** Chunk `i` is covered by the range, arrived whole, and does not match its digest. */
    ghost predicate Corrupt(body: bytes, i: nat)
      requires Valid()
    {
      && FirstChunk() <= i <= LastChunk()
      && EndInBody(i) <= |Delivered(body)|
      && !Matches(Delivered(body), i)
    }

    ghost predicate AnyCorrupt(body: bytes)
      requires Valid()
    {
      exists i: nat :: Corrupt(body, i)
    }

    /** `pace` is how the spool file is read back. */
    method Open(body: ByteStream, pace: nat -> nat) returns (r: Result<LimitedReader, RangeError>)
      requires Valid() && body.Valid()
      modifies body
      ensures match r
              case Err(ChunkMismatch) => AnyCorrupt(old(body.Rest()))
              case Err(Incomplete) => !AnyCorrupt(old(body.Rest())) && |old(body.Rest())| < BodyLength()
              case Ok(reader) =>
                && !AnyCorrupt(old(body.Rest())) && |old(body.Rest())| >= BodyLength()
                && fresh(reader) && fresh(reader.stream) && reader.Valid()
                && CoveringStart() <= range.start && range.end < CoveringLimit()
                && reader.Rest() == old(body.Rest())[range.start - CoveringStart()..range.end + 1 - CoveringStart()]
    {
      hide AnyCorrupt, FirstChunk, ChunkStart, ChunkEnd;
      CoveringBounds();
      Geometry(0);
      var expectedCovering := Min(range.total, (LastChunk() + 1) * chunkBytes) - FirstChunk() * chunkBytes;
      var received := Receive(body, expectedCovering);
      if received.None? {
        return Err(ChunkMismatch);
      }
      var (spool, currentChunk) := received.value;
      if |spool| != expectedCovering || currentChunk != LastChunk() + 1 {
        return Err(Incomplete);
      }
      var stream := new ByteStream(spool, pace, range.start - FirstChunk() * chunkBytes);
      var reader := new LimitedReader(stream, range.Length());
      return Ok(reader);
    }

    /** The reading loop: the spooled bytes and the chunk after the last one compared. */
    method Receive(body: ByteStream, expected: nat) returns (r: Option<(bytes, nat)>)
      requires Valid() && body.Valid() && expected == BodyLength()
      modifies body
      ensures r.None? <==> AnyCorrupt(old(body.Rest()))
      ensures r.Some? ==> r.value.0 == Delivered(old(body.Rest()))
      ensures r.Some? && |r.value.0| == BodyLength() ==> r.value.1 == LastChunk() + 1
    {
      hide Progress, AnyCorrupt, Delivered, BodyLength, FirstChunk, LastChunk, ByteStream.Rest;
      ghost var all := body.Rest();
      ProgressStart();
      var spool: bytes := [];
      var observed: nat := 0;
      var state := Hashing(FirstChunk(), [], 0);
      while true
        invariant body.Valid() && spool + body.Rest() == all
        invariant observed == |spool| <= expected
        invariant Progress(spool, observed, state)
        decreases |body.Rest()|
      {
        var raw := body.Read(Min(READ_UNIT, expected - observed));
        if raw == [] {
          break;
        }
        DeliveredPrefix(all, spool + raw, body.Rest());
        var next := HashRead(all, spool, raw, state);
        if next.None? {
          return None;
        }
        state := next.value;
        spool := spool + raw;
        observed := observed + |raw|;
      }
      DeliveredPrefix(all, spool, body.Rest());
      assert Delivered(all) == spool;
      AllCompared(all, state);
      return Some((spool, state.currentChunk));
    }

    /** Hashes one read, comparing each chunk that it completes; None when one does not match. */
    method HashRead(ghost body: bytes, ghost spool: bytes, raw: bytes, start: Hashing) returns (r: Option<Hashing>)
      requires Valid() && Progress(spool, |spool|, start)
      requires spool + raw <= Delivered(body) && |spool + raw| <= BodyLength()
      ensures r.Some? ==> Progress(spool + raw, |spool + raw|, r.value)
      ensures r.None? ==> AnyCorrupt(body)
    {
      hide Progress, Corrupt, Matches, Delivered, BodyLength;
      hide ChunkStart, ChunkEnd, EndInBody, CoveringStart, CoveringLimit, FirstChunk, LastChunk;
      var offset: nat := 0;
      var s := start;
      ProgressExtends(spool, raw, |spool|, start);
      while offset < |raw|
        invariant offset <= |raw|
        invariant Progress(spool + raw, |spool| + offset, s)
      {
        FeedPiece(body, spool + raw, |spool| + offset, |raw| - offset, s);
        ChunkStartIsProduct(s.currentChunk, chunkBytes);
        var expectedChunkLength := Min(chunkBytes, range.total - s.currentChunk * chunkBytes);
        var selected := Min(expectedChunkLength - s.currentLength, |raw| - offset);
        SliceBehind(spool, raw, offset, offset + selected);
        s := Hashing(s.currentChunk, s.input + raw[offset..offset + selected], s.currentLength + selected);
        offset := offset + selected;
        if s.currentLength == expectedChunkLength {
          var digest := hash(s.input);
          if s.currentChunk >= |chunkDigests| || digest != chunkDigests[s.currentChunk] {
            return None;
          }
          s := Hashing(s.currentChunk + 1, [], 0);
        }
      }
      return Some(s);
    }

    /** The first `seen` bytes were hashed: whole matching chunks, then part of the current one. */
    ghost predicate Progress(spool: bytes, seen: nat, s: Hashing)
      requires Valid()
    {
      && seen <= |spool| <= BodyLength()
      && FirstChunk() <= s.currentChunk <= LastChunk() + 1
      && s.currentLength == |s.input| <= seen
      && s.input == spool[seen - s.currentLength..seen]
      && (if s.currentChunk <= LastChunk()
          then seen == ChunkStart(s.currentChunk, chunkBytes) - CoveringStart() + s.currentLength
                    < EndInBody(s.currentChunk)
          else seen == BodyLength() && s.currentLength == 0)
      && Compared(spool, s.currentChunk)
    }

    ghost predicate Compared(spool: bytes, current: nat)
      requires Valid()
    {
      forall i: nat :: FirstChunk() <= i < current ==> Matches(spool, i)
    }

    lemma ProgressStart()
      requires Valid()
      ensures Progress([], 0, Hashing(FirstChunk(), [], 0))
    {
      Geometry(FirstChunk());
    }

    lemma ProgressExtends(spool: bytes, raw: bytes, seen: nat, s: Hashing)
      requires Valid() && Progress(spool, seen, s)
      requires |spool + raw| <= BodyLength()
      ensures Progress(spool + raw, seen, s)
    {
      forall i: nat | FirstChunk() <= i < s.currentChunk
        ensures Matches(spool + raw, i)
      {
        assert Matches(spool, i);
        assert (spool + raw)[ChunkStart(i, chunkBytes) - CoveringStart()..EndInBody(i)] ==
               spool[ChunkStart(i, chunkBytes) - CoveringStart()..EndInBody(i)];
      }
    }

    /** The effect of hashing the next piece, which never crosses the end of the current chunk. */
    lemma FeedPiece(body: bytes, spool: bytes, seen: nat, pending: nat, s: Hashing)
      requires Valid() && Progress(spool, seen, s)
      requires 0 < pending && seen + pending == |spool|
      requires spool <= Delivered(body)
      ensures s.currentChunk <= LastChunk() && ChunkStart(s.currentChunk, chunkBytes) < range.total
      ensures var expected := Min(chunkBytes, range.total - ChunkStart(s.currentChunk, chunkBytes));
              var selected := Min(expected - s.currentLength, pending);
              && 0 < selected
              && var input := s.input + spool[seen..seen + selected];
                 if s.currentLength + selected != expected then
                   Progress(spool, seen + selected, Hashing(s.currentChunk, input, s.currentLength + selected))
                 else if s.currentChunk < |chunkDigests| && hash(input) == chunkDigests[s.currentChunk] then
                   Progress(spool, seen + selected, Hashing(s.currentChunk + 1, [], 0))
                 else
                   Corrupt(body, s.currentChunk)
    {
      hide Compared, FirstChunk, LastChunk, ChunkStart, Corrupt;
      var i := s.currentChunk;
      Geometry(i);
      var expected := Min(chunkBytes, range.total - ChunkStart(i, chunkBytes));
      var selected := Min(expected - s.currentLength, pending);
      var input := s.input + spool[seen..seen + selected];
      assert input == spool[seen - s.currentLength..seen + selected];
      if s.currentLength + selected == expected {
        WholeChunk(body, spool, seen + selected, i);
      }
    }

    /** Chunk `i` ends at `seen`: it either extends the compared chunks or is corrupt. */
    lemma WholeChunk(body: bytes, spool: bytes, seen: nat, i: nat)
      requires Valid() && FirstChunk() <= i <= LastChunk() && Compared(spool, i)
      requires seen == EndInBody(i) <= |spool| <= BodyLength() && spool <= Delivered(body)
      ensures 0 <= ChunkStart(i, chunkBytes) - CoveringStart() < seen
      ensures var input := spool[ChunkStart(i, chunkBytes) - CoveringStart()..seen];
              if i < |chunkDigests| && hash(input) == chunkDigests[i]
              then Progress(spool, seen, Hashing(i + 1, [], 0))
              else Corrupt(body, i)
    {
      Geometry(i);
      var from := ChunkStart(i, chunkBytes) - CoveringStart();
      assert Delivered(body)[from..seen] == spool[from..seen];
      if i < |chunkDigests| && hash(spool[from..seen]) == chunkDigests[i] {
        Geometry(i + 1);
        assert Matches(spool, i);
        ComparedNext(spool, i);
        assert spool[seen..seen] == [];
      }
      hide Compared, Matches, FirstChunk, LastChunk, ChunkStart;
    }

    lemma ComparedNext(spool: bytes, i: nat)
      requires Valid() && Compared(spool, i) && Matches(spool, i)
      ensures Compared(spool, i + 1)
    {
      hide Matches;
    }

    lemma DeliveredPrefix(body: bytes, spool: bytes, rest: bytes)
      requires Valid() && spool + rest == body && |spool| <= BodyLength()
      ensures spool <= Delivered(body)
      ensures |spool| == BodyLength() || rest == [] ==> spool == Delivered(body)
    {
    }

    /** At the end of the response every chunk that arrived whole was compared. */
    lemma AllCompared(body: bytes, s: Hashing)
      requires Valid() && Progress(Delivered(body), |Delivered(body)|, s)
      ensures !AnyCorrupt(body)
      ensures |Delivered(body)| == BodyLength() ==> s.currentChunk == LastChunk() + 1
    {
      Geometry(s.currentChunk);
      forall i: nat | Corrupt(body, i)
        ensures false
      {
        if i >= s.currentChunk {
          Geometry(i);
          ChunkStartMonotone(s.currentChunk, i, chunkBytes);
        }
      }
    }

    // ---- against the object the digests were taken from

    /** The source was built from the stored digests of `original`. */
    ghost predicate Describes(original: bytes) {
      && Valid()
      && range.total == |original|
      && chunkDigests == ChunkDigests(hash, original, chunkBytes)
    }

    ghost function OriginalChunk(original: bytes, i: nat): bytes
      requires Describes(original) && i <= LastChunk()
    {
      Geometry(i);
      original[ChunkStart(i, chunkBytes)..ChunkEnd(i, chunkBytes, range.total)]
    }

    ghost function DeliveredChunk(body: bytes, i: nat): bytes
      requires Valid() && FirstChunk() <= i <= LastChunk() && |body| >= BodyLength()
    {
      Geometry(i);
      body[ChunkStart(i, chunkBytes) - CoveringStart()..EndInBody(i)]
    }

    /** No delivered chunk collides with the chunk it stands for. */
    ghost predicate CollisionFree(original: bytes, body: bytes)
      requires Describes(original) && |body| >= BodyLength()
    {
      forall i: nat | FirstChunk() <= i <= LastChunk() ::
        hash(DeliveredChunk(body, i)) == hash(OriginalChunk(original, i)) ==>
          DeliveredChunk(body, i) == OriginalChunk(original, i)
    }

    lemma CorruptIffDigestDiffers(original: bytes, body: bytes, i: nat)
      requires Describes(original) && |body| >= BodyLength() && FirstChunk() <= i <= LastChunk()
      ensures Corrupt(body, i) <==> hash(DeliveredChunk(body, i)) != hash(OriginalChunk(original, i))
    {
      hide ChunkStart, ChunkDigests, ChunkCount, FirstChunk, LastChunk;
      Geometry(i);
      var from := ChunkStart(i, chunkBytes) - CoveringStart();
      assert Delivered(body)[from..EndInBody(i)] == DeliveredChunk(body, i);
      StartedChunkCounts(i, chunkBytes, |original|);
      ChunkDigestAt(hash, original, chunkBytes, i);
    }

    /** The covered chunks of stored content are whole and have their recorded digests. */
    ghost predicate StoresRange(content: bytes)
      requires Valid()
    {
      ChunksIntact(hash, chunkBytes, chunkDigests, content, range.total, FirstChunk(), LastChunk())
    }

    /** The covering slice of stored content passes just when the covered chunks have their digests. */
    lemma AcceptedIffIntact(content: bytes, body: bytes)
      requires Valid() && CoveringStart() <= CoveringLimit() <= |content|
      requires body == content[CoveringStart()..CoveringLimit()]
      ensures CoveringStart() <= range.start && range.end < CoveringLimit() <= |content| && |body| == BodyLength()
      ensures !AnyCorrupt(body) <==> StoresRange(content)
      ensures body[range.start - CoveringStart()..range.end + 1 - CoveringStart()] ==
          content[range.start..range.end + 1]
    {
      hide Corrupt, ChunkStart, ChunkEnd, FirstChunk, LastChunk;
      Geometry(0);
      OnlyCoveredAreCorrupt(body);
      forall i: nat | FirstChunk() <= i <= LastChunk()
        ensures Corrupt(body, i) <==> !ChunkIntact(hash, chunkBytes, chunkDigests, content, range.total, i)
      {
        CorruptIffNotIntact(content, body, i);
      }
      hide ChunkIntact;
      SliceOfSlice(content, CoveringStart(), CoveringLimit(), range.start - CoveringStart(),
                   range.end + 1 - CoveringStart());
    }

    /** Content that ends before the covering request does is not intact. */
    lemma ShortIsNotIntact(content: bytes)
      requires Valid() && |content| < CoveringLimit()
      ensures !StoresRange(content)
    {
      hide ChunkStart;
      Geometry(LastChunk());
      assert !ChunkIntact(hash, chunkBytes, chunkDigests, content, range.total, LastChunk());
    }

    lemma CorruptIffNotIntact(content: bytes, body: bytes, i: nat)
      requires Valid() && FirstChunk() <= i <= LastChunk()
      requires CoveringStart() <= CoveringLimit() <= |content| && body == content[CoveringStart()..CoveringLimit()]
      ensures Corrupt(body, i) <==> !ChunkIntact(hash, chunkBytes, chunkDigests, content, range.total, i)
    {
      hide ChunkStart, FirstChunk, LastChunk;
      Geometry(i);
      assert Delivered(body) == body;
      SliceOfSlice(content, CoveringStart(), CoveringLimit(), ChunkStart(i, chunkBytes) - CoveringStart(),
                   EndInBody(i));
    }

    /** Position `k` of the response lies in one of the covered chunks. */
    lemma ChunkAt(k: nat) returns (i: nat)
      requires Valid() && k < BodyLength()
      ensures FirstChunk() <= i <= LastChunk()
      ensures ChunkStart(i, chunkBytes) <= CoveringStart() + k < ChunkEnd(i, chunkBytes, range.total)
    {
      hide FirstChunk, LastChunk, ChunkStart;
      Geometry(0);
      i := ChunkHolding(CoveringStart() + k, chunkBytes);
      if i < FirstChunk() {
        ChunkStartMonotone(i, FirstChunk(), chunkBytes);
      } else if i > LastChunk() {
        ChunkStartMonotone(LastChunk(), i, chunkBytes);
      }
    }

    ghost predicate SameChunk(original: bytes, body: bytes, i: nat)
      requires Describes(original) && FirstChunk() <= i <= LastChunk() && |body| >= BodyLength()
    {
      DeliveredChunk(body, i) == OriginalChunk(original, i)
    }

    lemma SameChunkAt(original: bytes, body: bytes, i: nat, x: nat)
      requires Describes(original) && FirstChunk() <= i <= LastChunk() && |body| >= BodyLength()
      requires SameChunk(original, body, i)
      requires ChunkStart(i, chunkBytes) <= x < ChunkEnd(i, chunkBytes, range.total)
      ensures CoveringStart() <= x < CoveringLimit() <= |original|
      ensures Delivered(body)[x - CoveringStart()] == original[x]
    {
      hide FirstChunk, LastChunk, ChunkStart, ChunkEnd;
      Geometry(i);
      assert DeliveredChunk(body, i)[x - ChunkStart(i, chunkBytes)] ==
          OriginalChunk(original, i)[x - ChunkStart(i, chunkBytes)];
    }

    lemma SameBytesSameChunk(original: bytes, body: bytes, i: nat)
      requires Describes(original) && FirstChunk() <= i <= LastChunk() && |body| >= BodyLength()
      requires 0 <= CoveringStart() <= CoveringLimit() <= |original|
      requires Delivered(body) == original[CoveringStart()..CoveringLimit()]
      ensures SameChunk(original, body, i)
    {
      hide FirstChunk, LastChunk, ChunkStart, ChunkEnd;
      Geometry(i);
      var from, to := ChunkStart(i, chunkBytes) - CoveringStart(), EndInBody(i);
      assert DeliveredChunk(body, i) == Delivered(body)[from..to];
      SliceOfSlice(original, CoveringStart(), CoveringLimit(), from, to);
    }

    /** The response is the covering slice just when every covered chunk is the original one. */
    lemma SameBytesIffSameChunks(original: bytes, body: bytes)
      requires Describes(original) && |body| >= BodyLength()
      ensures CoveringStart() <= CoveringLimit() <= |original|
      ensures Delivered(body) == original[CoveringStart()..CoveringLimit()] <==>
              forall i: nat | FirstChunk() <= i <= LastChunk() :: SameChunk(original, body, i)
    {
      hide SameChunk, ChunkStart, ChunkEnd;
      Geometry(0);
      var covered := original[CoveringStart()..CoveringLimit()];
      if Delivered(body) == covered {
        forall i: nat | FirstChunk() <= i <= LastChunk()
          ensures SameChunk(original, body, i)
        {
          SameBytesSameChunk(original, body, i);
        }
      }
      if forall i: nat | FirstChunk() <= i <= LastChunk() :: SameChunk(original, body, i) {
        forall k: nat | k < BodyLength()
          ensures Delivered(body)[k] == covered[k]
        {
          var i := ChunkAt(k);
          SameChunkAt(original, body, i, CoveringStart() + k);
        }
      }
    }

    /** A complete response without a corrupt chunk carries exactly the object's bytes, and only such a one. */
    lemma AcceptedIffOriginal(original: bytes, body: bytes)
      requires Describes(original) && |body| >= BodyLength() && CollisionFree(original, body)
      ensures CoveringStart() <= CoveringLimit() <= |original|
      ensures !AnyCorrupt(body) <==> Delivered(body) == original[CoveringStart()..CoveringLimit()]
    {
      hide Corrupt, DeliveredChunk, OriginalChunk, Delivered;
      SameBytesIffSameChunks(original, body);
      forall i: nat | FirstChunk() <= i <= LastChunk()
        ensures Corrupt(body, i) <==> !SameChunk(original, body, i)
      {
        CorruptIffDigestDiffers(original, body, i);
      }
      OnlyCoveredAreCorrupt(body);
    }

    /** What is then handed out is exactly the requested slice of the object. */
    lemma AcceptedRangeIsOriginal(original: bytes, body: bytes)
      requires Describes(original) && |body| >= BodyLength() && CollisionFree(original, body) && !AnyCorrupt(body)
      ensures CoveringStart() <= range.start && range.end < CoveringLimit() <= |original|
      ensures body[range.start - CoveringStart()..range.end + 1 - CoveringStart()] ==
              original[range.start..range.end + 1]
    {
      hide AnyCorrupt, CollisionFree, ChunkStart, ChunkEnd, FirstChunk, LastChunk;
      Geometry(0);
      AcceptedIffOriginal(original, body);
      var from, to := range.start - CoveringStart(), range.end + 1 - CoveringStart();
      SliceOfSlice(original, CoveringStart(), CoveringLimit(), from, to);
      assert body[from..to] == Delivered(body)[from..to];
    }

    lemma OnlyCoveredAreCorrupt(body: bytes)
      requires Valid()
      ensures forall i: nat | Corrupt(body, i) :: FirstChunk() <= i <= LastChunk()
    {
    }

    lemma SameChunkIsNotCorrupt(original: bytes, body: bytes, i: nat)
      requires Describes(original) && FirstChunk() <= i <= LastChunk() && |body| >= BodyLength()
      requires SameChunk(original, body, i)
      ensures !Corrupt(body, i)
    {
      CorruptIffDigestDiffers(original, body, i);
    }

    /** The uncorrupted covering range passes, whatever the hash. */
    lemma OriginalIsAccepted(original: bytes, body: bytes)
      requires Describes(original)
      requires CoveringStart() <= CoveringLimit() <= |original| ==> body == original[CoveringStart()..CoveringLimit()]
      ensures CoveringStart() <= range.start && range.end < CoveringLimit() <= |original|
      ensures |body| == BodyLength() && !AnyCorrupt(body)
      ensures body[range.start - CoveringStart()..range.end + 1 - CoveringStart()] ==
          original[range.start..range.end + 1]
    {
      hide Corrupt, SameChunk, ChunkStart, ChunkEnd, DeliveredChunk, OriginalChunk;
      Geometry(0);
      SameBytesIffSameChunks(original, body);
      OnlyCoveredAreCorrupt(body);
      forall i: nat | FirstChunk() <= i <= LastChunk()
        ensures !Corrupt(body, i)
      {
        assert SameChunk(original, body, i);
        SameChunkIsNotCorrupt(original, body, i);
      }
      SliceOfSlice(original, CoveringStart(), CoveringLimit(),
                   range.start - CoveringStart(), range.end + 1 - CoveringStart());
    }
  }

  /**
   * End to end: bytes cut into any fragments are spooled and digested, a range is asked for,
   * the covering bytes come back at any pace and are read in pieces of any size.
   */
  method WriteThenReadRange(hash: Hash, chunkBytes: nat, fragments: seq<bytes>, start: nat, end: nat,
                            bodyPace: nat -> nat, spoolPace: nat -> nat, size: nat)
    returns (all: bytes)
    requires chunkBytes > 0 && size > 0 && start <= end < |Flatten(fragments)|
    ensures all == Flatten(fragments)[start..end + 1]
  {
    var original, digests := SpoolFragments(hash, chunkBytes, fragments);
    var source := new VerifiedRangeSource(hash, chunkBytes, ResolvedRange(start, end, |original|), digests);
    source.Geometry(0);
    ghost var covering := original[source.CoveringStart()..source.CoveringLimit()];
    source.OriginalIsAccepted(original, covering);
    var body := new ByteStream(original[source.CoveringStart()..source.CoveringLimit()], bodyPace, 0);
    assert body.Rest() == covering;
    var answer := source.Open(body, spoolPace);
    assert answer.Ok?;
    all := answer.value.Drain(size);
  }

  lemma SliceBehind(front: bytes, data: bytes, from: nat, to: nat)
    requires from <= to <= |data|
    ensures (front + data)[|front| + from..|front| + to] == data[from..to]
  {
  }

  lemma AppendPiece(front: bytes, data: bytes, offset: nat, selected: nat)
    requires offset + selected <= |data|
    ensures front + data[..offset] + data[offset..offset + selected] == front + data[..offset + selected]
  {
  }

  lemma SliceOfSlice(s: bytes, a: nat, b: nat, from: nat, to: nat)
    requires a <= b <= |s| && from <= to <= b - a
    ensures s[a..b][from..to] == s[a + from..a + to]
  {
    var middle := s[a..b];
    forall k | 0 <= k < to - from
      ensures middle[from..to][k] == s[a + from..a + to][k]
    {
      assert middle[from..to][k] == middle[from + k] == s[a + (from + k)];
    }
  }

  lemma StartedChunkCounts(i: nat, n: nat, total: nat)
    requires n > 0
    ensures ChunkStart(i, n) < total ==> i < ChunkCount(total, n)
  {
    ChunkStartIsProduct(i, n);
    if ChunkCount(total, n) <= i {
      DivBounds(total + n - 1, n);
      MulMonotone(ChunkCount(total, n) + 1, i + 1, n);
    }
  }

  lemma DivBounds(x: nat, n: nat)
    requires n > 0
    ensures x / n * n <= x < (x / n + 1) * n
  {
  }

  lemma DivUnique(x: nat, n: nat, q: nat)
    requires n > 0 && q * n <= x < (q + 1) * n
    ensures x / n == q
  {
    DivBounds(x, n);
    if x / n < q {
      MulMonotone(x / n + 1, q, n);
    } else if x / n > q {
      MulMonotone(q + 1, x / n, n);
    }
  }

  lemma MulMonotone(a: nat, b: nat, n: nat)
    requires a <= b
    ensures a * n <= b * n
  {
  }
}
