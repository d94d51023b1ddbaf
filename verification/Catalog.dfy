/**
 * What the bucket means to a caller: the published versions and, for each object, the current one.
 * Whole puts and deletes, run one after the other, are operations on this catalog.
 */
module Catalog {
  import opened Wrappers
  import opened Integrity
  import opened Retention
  import opened Bucket
  import opened Publication
  import opened Serial

  datatype Catalog = Catalog(published: map<Version, Envelope>, current: map<ObjectRef, Digest>)

  ghost function Abstract(b: Bucket): Catalog {
    var published := map k | k in b.references && Current(b.references, k).Some? ::
        Current(b.references, k).value.value;
    var current := map o | o in b.latest && Current(b.latest, o).Some?
        && Version(o, Current(b.latest, o).value.value) in published
                   :: Current(b.latest, o).value.value;
    Catalog(published, current)
  }

  /** The latest pointer is there but names no published version. */
  ghost predicate Dangling(b: Bucket, o: ObjectRef) {
    Current(b.latest, o).Some? && Current(b.references, Version(o, Current(b.latest, o).value.value)).None?
  }

  /** The version and the pointer that a bucket shows for a key. */
  ghost function PublishedAt(b: Bucket, k: Version): Option<Envelope> {
    var entry := Current(b.references, k);
    if entry.None? then None else Some(entry.value.value)
  }

  ghost function CurrentAt(b: Bucket, o: ObjectRef): Option<Digest> {
    var pointer := Current(b.latest, o);
    if pointer.None? || Current(b.references, Version(o, pointer.value.value)).None? then None
        else Some(pointer.value.value)
  }

  ghost function Get<K, V>(m: map<K, V>, k: K): Option<V> {
    if k in m then Some(m[k]) else None
  }

  lemma SameMap<K, V>(m: map<K, V>, m': map<K, V>)
    requires forall k :: Get(m, k) == Get(m', k)
    ensures m == m'
  {
    forall k
      ensures k in m <==> k in m'
      ensures k in m ==> m[k] == m'[k]
    {
      assert Get(m, k) == Get(m', k);
    }
  }

  /** A bucket abstracts to the catalog with which it agrees key by key. */
  lemma CatalogIs(b: Bucket, c: Catalog)
    requires forall k :: Get(c.published, k) == PublishedAt(b, k)
    requires forall o :: Get(c.current, o) == CurrentAt(b, o)
    ensures Abstract(b) == c
  {
    var a := Abstract(b);
    forall k
      ensures Get(a.published, k) == Get(c.published, k)
    {
      assert Get(c.published, k) == PublishedAt(b, k);
    }
    SameMap(a.published, c.published);
    forall o
      ensures Get(a.current, o) == Get(c.current, o)
    {
      assert Get(c.current, o) == CurrentAt(b, o);
    }
    SameMap(a.current, c.current);
  }

  lemma AbstractLookup(b: Bucket)
    ensures forall k :: Get(Abstract(b).published, k) == PublishedAt(b, k)
    ensures forall o :: Get(Abstract(b).current, o) == CurrentAt(b, o)
  {
  }

  lemma SameCatalog(b: Bucket, b': Bucket)
    requires forall k :: PublishedAt(b', k) == PublishedAt(b, k)
    requires forall o :: CurrentAt(b', o) == CurrentAt(b, o)
    ensures Abstract(b') == Abstract(b)
  {
    hide PublishedAt, CurrentAt;
    AbstractLookup(b);
    CatalogIs(b', Abstract(b));
  }

  // ---------------------------------------------------------------- operations on the catalog

  ghost function Publish(c: Catalog, k: Version, envelope: Envelope): Catalog {
    Catalog(c.published[k := envelope], c.current[k.objectRef := k.digest])
  }

  ghost function Retract(c: Catalog, k: Version, successor: Option<Digest>): Catalog {
    var o := k.objectRef;
    Catalog(c.published - {k},
            if o in c.current && c.current[o] == k.digest then
              if successor.Some? then c.current[o := successor.value] else c.current - {o}
            else c.current)
  }

  ghost predicate Has(c: Catalog, o: ObjectRef, d: Digest) {
    Version(o, d) in c.published
  }

  /** `d` is newer than every other published version of `o` but `except`. */
  ghost predicate Newest(c: Catalog, o: ObjectRef, d: Digest, except: Option<Digest>) {
    && Has(c, o, d) && Some(d) != except
    && forall d' | Has(c, o, d') && d' != d && Some(d') != except ::
         c.published[Version(o, d')].metadata.createdAt < c.published[Version(o, d)].metadata.createdAt
  }

  /** What the scan for another version must answer. */
  ghost predicate RightSuccessor(c: Catalog, k: Version, successor: Option<Digest>) {
    match successor
    case None => forall d | Has(c, k.objectRef, d) :: d == k.digest
    case Some(d) => Newest(c, k.objectRef, d, Some(k.digest))
  }

  /** The current version of an object is its newest, and there is one exactly when any survives. */
  ghost predicate TidyAt(c: Catalog, o: ObjectRef) {
    && (o in c.current ==> Newest(c, o, c.current[o], None))
    && (o !in c.current ==> forall d :: !Has(c, o, d))
  }

  ghost predicate Tidy(c: Catalog) {
    forall o :: TidyAt(c, o)
  }

  // ---------------------------------------------------------------- what serial operation keeps

  ghost predicate UniqueIds<T>(s: seq<Entry<T>>) {
    forall i, j | 0 <= i < j < |s| :: s[i].id != s[j].id
  }

  ghost predicate Sound(b: Bucket, clock: int) {
    && (forall k | Current(b.references, k).Some? ::
          var m := Current(b.references, k).value.value.metadata;
          m.objectRef == k.objectRef && m.digest == k.digest && m.createdAt <= clock)
    && (forall k :: |StackOf(b.references, k)| <= 1)
    && (forall o :: UniqueIds(StackOf(b.latest, o)) && IdsBelow(StackOf(b.latest, o), b.next))
    && (!b.versioned ==> forall o :: |StackOf(b.latest, o)| <= 1)
    && b.next > UNVERSIONED
  }

  lemma {:induction false} WithoutLast<T>(s: seq<Entry<T>>)
    requires s != [] && UniqueIds(s)
    ensures Without(s, s[|s| - 1].id) == s[..|s| - 1]
  {
    if |s| > 1 {
      assert UniqueIds(s[1..]) by {
        assert forall i | 0 <= i < |s| - 1 :: s[1..][i] == s[i + 1];
      }
      WithoutLast(s[1..]);
      assert s[..|s| - 1] == [s[0]] + s[1..][..|s| - 2];
    }
  }

  lemma ReadsAgree(b: Bucket, clock: int, o: ObjectRef)
    requires Sound(b, clock)
    ensures forall k :: ReadExact(b, k) == if Current(b.references, k).Some?
        then Ok(Current(b.references, k).value.value) else Err(NotFound)
    ensures TryLatest(b, o) ==
            if Current(b.latest, o).Some? && !Dangling(b, o)
            then Ok(Some(Current(b.references, Version(o, Current(b.latest, o).value.value)).value.value)) else Ok(None)
  {
    hide StackOf;
  }

  // ---------------------------------------------------------------- puts

  /** The writes of a put succeed up to the reference record. */
  ghost predicate Writes(cfg: Config, b: Bucket, t: PutTask, io: IO) {
    && (!t.Single(cfg) || Current(b.blobs, t.Key(cfg)).None?)
    && ReadBack(cfg, io.landed, t).None?
    && Current(b.references, t.Key(cfg)).None?
  }

  /**
   * A put that may only create the pointer, finds none that resolves, and so writes blob and reference
   * only to meet a dangling pointer.
   */
  ghost predicate Strands(cfg: Config, b: Bucket, request: PutRequest, io: IO) {
    var t := StartPut(cfg, request);
    && t.stage.First?
    && |request.payload| <= cfg.maxObjectBytes
    && t.CreatesLatest()
    && Dangling(b, request.objectRef)
    && Writes(cfg, b, t, io)
  }

  /** The envelope that a put writes. */
  ghost function WrittenEnvelope(cfg: Config, b: Bucket, request: PutRequest, io: IO): Envelope
    requires cfg.Valid()
  {
    NewEnvelope(cfg, StartPut(cfg, request), b.NewId(), io.now)
  }

  lemma UploadKeepsCatalog(b: Bucket, clock: int, k: Version, blob: Blob)
    requires Sound(b, clock)
    ensures Sound(b.WriteBlob(k, blob), clock) && Abstract(b.WriteBlob(k, blob)) == Abstract(b)
  {
    hide Current, StackOf;
    SameCatalog(b, b.WriteBlob(k, blob));
  }

  lemma OrphanKeepsCatalog(b: Bucket, clock: int, k: Version, reason: string)
    requires Sound(b, clock)
    ensures Sound(b.WriteOrphan(k, reason), clock) && Abstract(b.WriteOrphan(k, reason)) == Abstract(b)
  {
    hide Current, StackOf;
    SameCatalog(b, b.WriteOrphan(k, reason));
  }

  /** Writing the reference record publishes the version; a dangling pointer to it comes alive. */
  lemma ReferPublishes(b: Bucket, clock: int, k: Version, envelope: Envelope)
    requires Sound(b, clock) && Current(b.references, k).None?
    requires envelope.metadata.objectRef == k.objectRef && envelope.metadata.digest == k.digest
    requires envelope.metadata.createdAt > clock
    ensures var b' := b.WriteReference(k, envelope);
            && Sound(b', envelope.metadata.createdAt)
            && (forall o :: Current(b'.latest, o) == Current(b.latest, o))
            && (forall j :: PublishedAt(b', j) == if j == k then Some(envelope) else PublishedAt(b, j))
            && (forall o :: CurrentAt(b', o) ==
                  if o == k.objectRef && Current(b.latest, o).Some? && Current(b.latest, o).value.value == k.digest
                  then Some(k.digest) else CurrentAt(b, o))
  {
    var b' := b.WriteReference(k, envelope);
    forall j
      ensures StackOf(b'.references, j) == if j == k then [Entry(b.NewId(), envelope)] else StackOf(b.references, j)
    {
    }
    assert b'.latest == b.latest;
  }

  lemma MovePoints(b: Bucket, clock: int, o: ObjectRef, d: Digest)
    requires Sound(b, clock)
    ensures var b' := b.WriteLatest(o, d);
            && Sound(b', clock)
            && (forall k :: PublishedAt(b', k) == PublishedAt(b, k))
            && (forall p :: p != o ==> CurrentAt(b', p) == CurrentAt(b, p))
            && (CurrentAt(b', o) == if PublishedAt(b, Version(o, d)).Some? then Some(d) else None)
  {
    var b' := b.WriteLatest(o, d);
    assert b'.references == b.references;
    forall p
      ensures StackOf(b'.latest, p) == if p == o then b.Pushed(StackOf(b.latest, o), d) else StackOf(b.latest, p)
    {
    }
    PushedStack(b, StackOf(b.latest, o), d);
    hide StackOf, UniqueIds, IdsBelow, Bucket.Pushed;
    forall p
      ensures UniqueIds(StackOf(b'.latest, p)) && IdsBelow(StackOf(b'.latest, p), b'.next)
    {
      assert UniqueIds(StackOf(b.latest, p)) && IdsBelow(StackOf(b.latest, p), b.next);
      IdsBelowLater(StackOf(b.latest, p), b.next);
    }
  }

  lemma {:induction false} PushedStack<T>(b: Bucket, s: seq<Entry<T>>, value: T)
    requires UniqueIds(s) && IdsBelow(s, b.next)
    ensures UniqueIds(b.Pushed(s, value)) && IdsBelow(b.Pushed(s, value), b.next + 1)
    ensures b.Pushed(s, value) != [] && b.Pushed(s, value)[|b.Pushed(s, value)| - 1].value == value
    ensures !b.versioned ==> |b.Pushed(s, value)| == 1
  {
  }

  lemma {:induction false} IdsBelowLater<T>(s: seq<Entry<T>>, bound: nat)
    requires IdsBelow(s, bound)
    ensures IdsBelow(s, bound + 1)
  {
  }

  /** What a put does to the catalog from its reference record on. */
  lemma FinishPutRefines(cfg: Config, b: Bucket, clock: int, t: PutTask, envelope: Envelope)
    requires Sound(b, clock) && PublishedAt(b, t.Key(cfg)) == Some(envelope)
    requires envelope.metadata.digest == t.Digest(cfg)
    requires t.CreatesLatest() && Current(b.latest, t.request.objectRef).Some? ==>
               CurrentAt(b, t.request.objectRef) == None || CurrentAt(b, t.request.objectRef) == Some(t.Digest(cfg))
    ensures var (b', outcome) := FinishPut(cfg, b, t, envelope);
            && Sound(b', clock)
            && (forall k :: PublishedAt(b', k) == PublishedAt(b, k))
            && (forall p :: p != t.request.objectRef ==> CurrentAt(b', p) == CurrentAt(b, p))
            && if t.CreatesLatest() && Current(b.latest, t.request.objectRef).Some? then
                 outcome == PutFailed(ConditionalConflict) && CurrentAt(b', t.request.objectRef) ==
                     CurrentAt(b, t.request.objectRef)
               else
                 outcome == Published(envelope.metadata) && CurrentAt(b', t.request.objectRef) == Some(t.Digest(cfg))
  {
    var o, k := t.request.objectRef, t.Key(cfg);
    if t.CreatesLatest() && Current(b.latest, o).Some? {
      ReadsAgree(b, clock, o);
      OrphanKeepsCatalog(b, clock, k, "latest-conflict");
      AbstractLookup(b);
      AbstractLookup(b.WriteOrphan(k, "latest-conflict"));
    } else {
      MovePoints(b, clock, o, k.digest);
    }
  }

  /** What a put that gets to write does: `envelope` is published, and made current or not. */
  ghost predicate WroteVersion(b: Bucket, b': Bucket, t: PutTask, k: Version, envelope: Envelope, outcome: PutOutcome) {
    var o := k.objectRef;
    && (forall j :: PublishedAt(b', j) == if j == k then Some(envelope) else PublishedAt(b, j))
    && (forall p :: p != o ==> CurrentAt(b', p) == CurrentAt(b, p))
    && if t.CreatesLatest() && Current(b.latest, o).Some? then
         && outcome == PutFailed(ConditionalConflict)
         && CurrentAt(b', o) == if Current(b.latest, o).value.value == k.digest then Some(k.digest) else None
       else
         outcome == Published(envelope.metadata) && CurrentAt(b', o) == Some(k.digest)
  }

  lemma WritingPutRefines(cfg: Config, b: Bucket, clock: int, t: PutTask, io: IO)
    requires cfg.Valid() && Sound(b, clock) && io.now > clock && Writes(cfg, b, t, io)
    requires t.CreatesLatest() ==> CurrentAt(b, t.request.objectRef) == None
    ensures var (b', outcome) := WritePut(cfg, b, t, io);
            Sound(b', io.now) && WroteVersion(b, b', t, t.Key(cfg), NewEnvelope(cfg, t, b.NewId(), io.now), outcome)
  {
    var o, k := t.request.objectRef, t.Key(cfg);
    var envelope := NewEnvelope(cfg, t, b.NewId(), io.now);
    var b1 := b.WriteBlob(k, Blob(io.landed, k.digest));
    UploadKeepsCatalog(b, clock, k, Blob(io.landed, k.digest));
    assert b1.references == b.references && b1.latest == b.latest;
    assert forall j :: PublishedAt(b1, j) == PublishedAt(b, j);
    assert forall p :: CurrentAt(b1, p) == CurrentAt(b, p);
    assert envelope.metadata.objectRef == o && envelope.metadata.digest == k.digest
        && envelope.metadata.createdAt == io.now;
    ReferPublishes(b1, clock, k, envelope);
    hide NewEnvelope, Sound;
    FinishPutRefines(cfg, b1.WriteReference(k, envelope), io.now, t, envelope);
    hide FinishPut;
  }

  lemma FailingWriteKeepsCatalog(cfg: Config, b: Bucket, clock: int, t: PutTask, io: IO)
    requires cfg.Valid() && Sound(b, clock) && io.now > clock && !Writes(cfg, b, t, io)
    ensures var (b', outcome) := WritePut(cfg, b, t, io);
            Sound(b', io.now) && outcome.PutFailed? && Abstract(b') == Abstract(b)
  {
    hide Abstract, FinishPut;
    UploadKeepsCatalog(b, clock, t.Key(cfg), Blob(io.landed, t.Digest(cfg)));
  }

  /** The checks before the upload let a put through. */
  ghost predicate Admitted(cfg: Config, b: Bucket, request: PutRequest) {
    var t := StartPut(cfg, request);
    && t.stage.First? && |request.payload| <= cfg.maxObjectBytes
    && match CurrentAt(b, request.objectRef)
       case None => true
       case Some(d) => !request.createOnly && !request.immutable && d != t.Digest(cfg)
  }

  /** What the catalog alone decides about a put that is not admitted to the upload. */
  ghost function Verdict(cfg: Config, c: Catalog, request: PutRequest): PutOutcome {
    var retention := FromRequest(request.retention, cfg.lockMode);
    var d := cfg.hash(request.payload);
    var current := Get(c.current, request.objectRef);
    if retention.Err? then PutFailed(RetentionDenied)
    else if current.Some? && request.createOnly then PutFailed(ConditionalConflict)
    else if |request.payload| > cfg.maxObjectBytes || current.None?
        || Version(request.objectRef, current.value) !in c.published
    then PutFailed(InvalidRequest)
    else
      var envelope := c.published[Version(request.objectRef, current.value)];
      if current.value != d then PutFailed(ImmutableConflict)
      else if envelope.metadata.attributes == request.attributes && envelope.metadata.immutable == request.immutable
              && envelope.retention == retention.value
      then Repeated(envelope.metadata)
      else PutFailed(ConditionalConflict)
  }

  lemma AdmissionDecides(cfg: Config, b: Bucket, clock: int, request: PutRequest, io: IO)
    requires cfg.Valid() && Sound(b, clock)
    ensures if Admitted(cfg, b, request) then RunPut(cfg, b, request, io) ==
        WritePut(cfg, b, StartPut(cfg, request), io)
            else RunPut(cfg, b, request, io) == (b, Verdict(cfg, Abstract(b), request))
  {
    hide WritePut, FromRequest, Abstract;
    ReadsAgree(b, clock, request.objectRef);
    AbstractLookup(b);
    var c := Abstract(b);
    var current := CurrentAt(b, request.objectRef);
    assert Get(c.current, request.objectRef) == current;
    if current.Some? {
      assert Get(c.published, Version(request.objectRef, current.value)) ==
          PublishedAt(b, Version(request.objectRef, current.value));
    }
  }

  /**
   * A put that runs alone: success publishes the version and makes it current, a repeat changes nothing
   * and answers with the current version, and a failure changes nothing unless the put strands.
   */
  lemma PutRefines(cfg: Config, b: Bucket, clock: int, request: PutRequest, io: IO)
    requires cfg.Valid() && Sound(b, clock) && io.now > clock
    ensures var (b', outcome) := RunPut(cfg, b, request, io);
            var c, c' := Abstract(b), Abstract(b');
            var o, k := request.objectRef, Version(request.objectRef, cfg.hash(request.payload));
            var envelope := WrittenEnvelope(cfg, b, request, io);
            && Sound(b', io.now)
            && match outcome
               case Published(m) =>
                 m == envelope.metadata && k !in c.published && c' == Publish(c, k, envelope)
               case Repeated(m) =>
                 c' == c && Get(c.current, o) == Some(k.digest) && k in c.published && c.published[k].metadata == m
                 && m.attributes == request.attributes && m.immutable == request.immutable
                 && Ok(c.published[k].retention) == FromRequest(request.retention, cfg.lockMode)
               case PutFailed(failure) =>
                 if Strands(cfg, b, request, io) then
                   && failure == ConditionalConflict && k !in c.published && o !in c.current
                   && c' == (if Current(b.latest, o).value.value == k.digest then Publish(c, k, envelope)
                             else c.(published := c.published[k := envelope]))
                 else c' == c
  {
    var (b', outcome) := RunPut(cfg, b, request, io);
    var k := Version(request.objectRef, cfg.hash(request.payload));
    var t := StartPut(cfg, request);
    AbstractLookup(b);
    AdmissionDecides(cfg, b, clock, request, io);
    if !Admitted(cfg, b, request) {
      StrandsMeans(cfg, b, request, io);
      hide Abstract, Strands, Admitted, RunPut, WritePut, CurrentAt, PublishedAt, FromRequest;
    } else if !Writes(cfg, b, t, io) {
      FailingWriteKeepsCatalog(cfg, b, clock, t, io);
      hide Abstract, RunPut, WritePut, CurrentAt, PublishedAt;
    } else {
      WritingPutRefines(cfg, b, clock, t, io);
      StrandsMeans(cfg, b, request, io);
      var envelope := WrittenEnvelope(cfg, b, request, io);
      WroteVersionCatalog(b, b', t, k, envelope, outcome);
    }
  }

  lemma StrandsMeans(cfg: Config, b: Bucket, request: PutRequest, io: IO)
    ensures Strands(cfg, b, request, io) <==>
            Admitted(cfg, b, request) && Writes(cfg, b, StartPut(cfg, request), io)
            && StartPut(cfg, request).CreatesLatest() && Current(b.latest, request.objectRef).Some?
  {
  }

  lemma WroteVersionCatalog(b: Bucket, b': Bucket, t: PutTask, k: Version, envelope: Envelope, outcome: PutOutcome)
    requires WroteVersion(b, b', t, k, envelope, outcome) && PublishedAt(b, k) == None
    requires t.CreatesLatest() ==> CurrentAt(b, k.objectRef) == None
    ensures k !in Abstract(b).published
    ensures var c := Abstract(b);
            if CurrentAt(b', k.objectRef) == Some(k.digest) then Abstract(b') == Publish(c, k, envelope)
            else k.objectRef !in c.current && Abstract(b') == c.(published := c.published[k := envelope])
    ensures t.CreatesLatest() ==> k.objectRef !in Abstract(b).current
  {
    AbstractLookup(b);
    var c := Abstract(b);
    hide Abstract, PublishedAt, CurrentAt, Current;
    assert Get(c.published, k) == None && Get(c.current, k.objectRef) == CurrentAt(b, k.objectRef);
    if CurrentAt(b', k.objectRef) == Some(k.digest) {
      CatalogIs(b', Publish(c, k, envelope));
    } else {
      CatalogIs(b', c.(published := c.published[k := envelope]));
    }
  }

  // ---------------------------------------------------------------- deletes

  lemma DropsReference(b: Bucket, clock: int, k: Version, blobVersion: nat)
    requires Sound(b, clock) && Current(b.references, k).Some?
    ensures var b' := b.RemoveBlob(k, blobVersion).RemoveReference(k, Current(b.references, k).value.id);
            && Sound(b', clock) && b'.latest == b.latest && b'.deletions == b.deletions
            && (forall j :: PublishedAt(b', j) == if j == k then None else PublishedAt(b, j))
  {
    var b' := b.RemoveBlob(k, blobVersion).RemoveReference(k, Current(b.references, k).value.id);
    var s := StackOf(b.references, k);
    assert |s| == 1 && Without(s, s[0].id) == [];
    forall j
      ensures StackOf(b'.references, j) == if j == k then [] else StackOf(b.references, j)
    {
    }
  }

  /** Removing the current pointer uncovers the pointer before it, if the bucket kept one. */
  lemma PopsPointer(b: Bucket, clock: int, o: ObjectRef)
    requires Sound(b, clock) && Current(b.latest, o).Some?
    ensures var b' := b.RemoveLatest(o, Current(b.latest, o).value.id);
            && Sound(b', clock) && b'.references == b.references && b'.deletions == b.deletions
            && (forall p :: p != o ==> Current(b'.latest, p) == Current(b.latest, p))
            && (Current(b'.latest, o).Some? <==> |StackOf(b.latest, o)| > 1)
  {
    var b' := b.RemoveLatest(o, Current(b.latest, o).value.id);
    var s := StackOf(b.latest, o);
    WithoutLast(s);
    forall p
      ensures StackOf(b'.latest, p) == if p == o then s[..|s| - 1] else StackOf(b.latest, p)
      ensures UniqueIds(StackOf(b'.latest, p)) && IdsBelow(StackOf(b'.latest, p), b'.next)
    {
      assert UniqueIds(StackOf(b.latest, p)) && IdsBelow(StackOf(b.latest, p), b.next);
    }
  }

  lemma EvidenceKeepsCatalog(b: Bucket, clock: int, k: Version, now: int)
    requires Sound(b, clock)
    ensures var b' := b.WriteDeletion(k, now); Sound(b', clock) && Abstract(b') == Abstract(b)
    ensures Current(b.WriteDeletion(k, now).latest, k.objectRef) == Current(b.latest, k.objectRef)
  {
    hide Current, StackOf;
    SameCatalog(b, b.WriteDeletion(k, now));
  }

  /** The pointer after a delete of the current version. */
  lemma RepointRefines(b: Bucket, clock: int, k: Version, successor: Option<Digest>)
    requires Sound(b, clock) && Current(b.latest, k.objectRef).Some? && PublishedAt(b, k) == None
    requires match successor
             case Some(d) => PublishedAt(b, Version(k.objectRef, d)).Some?
             case None => forall d :: PublishedAt(b, Version(k.objectRef, d)) == None
    ensures var b' := if successor.Some? then b.WriteLatest(k.objectRef, successor.value)
                      else b.RemoveLatest(k.objectRef, Current(b.latest, k.objectRef).value.id);
            && Sound(b', clock) && b'.deletions == b.deletions
            && (forall j :: PublishedAt(b', j) == PublishedAt(b, j))
            && (forall p :: p != k.objectRef ==> CurrentAt(b', p) == CurrentAt(b, p))
            && CurrentAt(b', k.objectRef) == successor
            && (successor.None? ==> (Current(b'.latest, k.objectRef).Some? <==> |StackOf(b.latest, k.objectRef)| > 1))
  {
    if successor.Some? {
      MovePoints(b, clock, k.objectRef, successor.value);
    } else {
      PopsPointer(b, clock, k.objectRef);
      var b' := b.RemoveLatest(k.objectRef, Current(b.latest, k.objectRef).value.id);
      assert PublishedAt(b, Version(k.objectRef, if Current(b'.latest, k.objectRef).Some?
                                    then Current(b'.latest, k.objectRef).value.value else k.digest)) == None;
    }
  }

  /**
   * A delete that runs alone retracts the version, and what is current passes to the successor that
   * the scan found. Evidence of an earlier deletion of the same version only changes the answer.
   */
  lemma DeleteRefines(b: Bucket, clock: int, k: Version, io: IO)
    requires Sound(b, clock) && io.now > clock && RightSuccessor(Abstract(b), k, io.previous)
    ensures var (b', outcome) := RunDelete(b, k, io);
            var c, c' := Abstract(b), Abstract(b');
            && Sound(b', io.now)
            && if k !in c.published then c' == c && outcome == DeleteFailed(NotFound)
               else if !Releases(c.published[k].retention, io.now) then c' == c
                   && outcome == DeleteFailed(RetentionDenied)
               else
                 && c' == Retract(c, k, io.previous)
                 && outcome == (if Current(b.deletions, k).Some? then DeleteFailed(ConditionalConflict) else Deleted)
                 && Leaves(b, b', k, c.published[k], io.now)
                 && (Get(c.current, k.objectRef) == Some(k.digest) && io.previous.None? ==>
                       (Dangling(b', k.objectRef) <==> |StackOf(b.latest, k.objectRef)| > 1))
  {
    var o := k.objectRef;
    var (b', outcome) := RunDelete(b, k, io);
    var c := Abstract(b);
    AbstractLookup(b);
    ReadsAgree(b, clock, o);
    assert Get(c.published, k) == PublishedAt(b, k) && Get(c.current, o) == CurrentAt(b, o);
    if PublishedAt(b, k).Some? && Releases(PublishedAt(b, k).value.retention, io.now) {
      RetractRefines(b, clock, k, io);
    }
  }

  /** The recorded blob version is gone, and evidence of the deletion is there. */
  ghost predicate Leaves(b: Bucket, b': Bucket, k: Version, envelope: Envelope, now: int) {
    && Find(StackOf(b'.blobs, k), envelope.blobVersion).None?
    && Current(b'.deletions, k).Some?
    && (if Current(b.deletions, k).Some? then Current(b'.deletions, k) == Current(b.deletions, k)
        else Current(b'.deletions, k).value.value == now)
  }

  lemma DropAndRecordLeaves(b: Bucket, b2: Bucket, k: Version, now: int)
    requires PublishedAt(b, k).Some? && b2.blobs == Dropped(b, k).blobs && b2.deletions == b.deletions
    ensures Leaves(b, if Current(b2.deletions, k).Some? then b2
                   else b2.WriteDeletion(k, now), k, PublishedAt(b, k).value, now)
  {
    var id := PublishedAt(b, k).value.blobVersion;
    FindWithout(StackOf(b.blobs, k), id, id);
  }

  lemma RetractRefines(b: Bucket, clock: int, k: Version, io: IO)
    requires Sound(b, clock) && io.now > clock && RightSuccessor(Abstract(b), k, io.previous)
    requires PublishedAt(b, k).Some? && Releases(PublishedAt(b, k).value.retention, io.now)
    ensures var (b', outcome) := RunDelete(b, k, io);
            var c := Abstract(b);
            && Sound(b', io.now) && Abstract(b') == Retract(c, k, io.previous)
            && outcome == (if Current(b.deletions, k).Some? then DeleteFailed(ConditionalConflict) else Deleted)
            && Leaves(b, b', k, PublishedAt(b, k).value, io.now)
            && (CurrentAt(b, k.objectRef) == Some(k.digest) && io.previous.None? ==>
                  (Dangling(b', k.objectRef) <==> |StackOf(b.latest, k.objectRef)| > 1))
  {
    hide Abstract, FinishDelete, RunDelete, Sound, StackOf, Without, Leaves, RightSuccessor, Retract, Releases;
    var o := k.objectRef;
    var b1 := Dropped(b, k);
    var wasLatest := CurrentAt(b, o) == Some(k.digest);
    RunDeleteShape(b, clock, k, io);
    DropsReference(b, clock, k, PublishedAt(b, k).value.blobVersion);
    SuccessorSurvives(b, b1, k, io.previous);
    if wasLatest {
      RepointRefines(b1, clock, k, io.previous);
    }
    var b2 := Repointed(b1, k, wasLatest, io.previous);
    FinishDeleteShape(b1, k, wasLatest, io);
    assert b2.blobs == b1.blobs && b2.deletions == b.deletions;
    DropAndRecordLeaves(b, b2, k, io.now);
    EvidenceKeepsCatalog(b2, clock, k, io.now);
    UntouchedCurrent(b, b1, k);
    hide Current, Dropped;
    assert forall p | p != o :: CurrentAt(b2, p) == CurrentAt(b, p);
    RetractedCatalog(b, b2, k, io.previous);
    DanglingNeedsPointer(b2, o);
    DanglingNeedsPointer(b2.WriteDeletion(k, io.now), o);
    SoundLater(b2, clock, io.now);
    SoundLater(b2.WriteDeletion(k, io.now), clock, io.now);
  }

  ghost function Dropped(b: Bucket, k: Version): Bucket
    requires PublishedAt(b, k).Some?
  {
    b.RemoveBlob(k, PublishedAt(b, k).value.blobVersion).RemoveReference(k, Current(b.references, k).value.id)
  }

  ghost function Repointed(b: Bucket, k: Version, wasLatest: bool, successor: Option<Digest>): Bucket
    requires wasLatest && successor.None? ==> Current(b.latest, k.objectRef).Some?
  {
    if !wasLatest then b
    else if successor.Some? then b.WriteLatest(k.objectRef, successor.value)
    else b.RemoveLatest(k.objectRef, Current(b.latest, k.objectRef).value.id)
  }

  lemma RunDeleteShape(b: Bucket, clock: int, k: Version, io: IO)
    requires Sound(b, clock) && PublishedAt(b, k).Some? && Releases(PublishedAt(b, k).value.retention, io.now)
    ensures RunDelete(b, k, io) == FinishDelete(Dropped(b, k), k, CurrentAt(b, k.objectRef) == Some(k.digest), io)
  {
    hide FinishDelete, StackOf, Without;
    ReadsAgree(b, clock, k.objectRef);
  }

  lemma FinishDeleteShape(b: Bucket, k: Version, wasLatest: bool, io: IO)
    requires wasLatest && io.previous.None? ==> Current(b.latest, k.objectRef).Some?
    ensures var b2 := Repointed(b, k, wasLatest, io.previous);
            FinishDelete(b, k, wasLatest, io) ==
            if Current(b2.deletions, k).Some? then (b2, DeleteFailed(ConditionalConflict))
                else (b2.WriteDeletion(k, io.now), Deleted)
  {
    hide StackOf, Without;
  }

  /** Dropping a reference changes what is current only where the pointer named it. */
  lemma UntouchedCurrent(b: Bucket, b1: Bucket, k: Version)
    requires b1.latest == b.latest
    requires forall j :: PublishedAt(b1, j) == if j == k then None else PublishedAt(b, j)
    ensures forall p :: p != k.objectRef || CurrentAt(b, p) != Some(k.digest) ==> CurrentAt(b1, p) == CurrentAt(b, p)
  {
    forall p
      ensures p != k.objectRef || CurrentAt(b, p) != Some(k.digest) ==> CurrentAt(b1, p) == CurrentAt(b, p)
    {
      var pointer := Current(b.latest, p);
      if pointer.Some? {
        assert PublishedAt(b1, Version(p, pointer.value.value)) ==
               if Version(p, pointer.value.value) == k then None else PublishedAt(b, Version(p, pointer.value.value));
      }
    }
  }

  lemma SoundLater(b: Bucket, clock: int, later: int)
    requires Sound(b, clock) && clock <= later
    ensures Sound(b, later)
  {
  }

  lemma SuccessorSurvives(b: Bucket, b1: Bucket, k: Version, successor: Option<Digest>)
    requires RightSuccessor(Abstract(b), k, successor)
    requires forall j :: PublishedAt(b1, j) == if j == k then None else PublishedAt(b, j)
    ensures match successor
            case Some(d) => PublishedAt(b1, Version(k.objectRef, d)).Some?
            case None => forall d :: PublishedAt(b1, Version(k.objectRef, d)) == None
  {
    AbstractLookup(b);
    var c := Abstract(b);
    hide Abstract;
    forall d
      ensures Has(c, k.objectRef, d) <==> PublishedAt(b, Version(k.objectRef, d)).Some?
    {
      assert Get(c.published, Version(k.objectRef, d)) == PublishedAt(b, Version(k.objectRef, d));
    }
  }

  lemma DanglingNeedsPointer(b: Bucket, o: ObjectRef)
    ensures Dangling(b, o) <==> Current(b.latest, o).Some? && CurrentAt(b, o) == None
    ensures Get(Abstract(b).current, o) == CurrentAt(b, o)
  {
    AbstractLookup(b);
  }

  lemma RetractedCatalog(b: Bucket, b': Bucket, k: Version, successor: Option<Digest>)
    requires forall j :: PublishedAt(b', j) == if j == k then None else PublishedAt(b, j)
    requires forall p :: p != k.objectRef ==> CurrentAt(b', p) == CurrentAt(b, p)
    requires CurrentAt(b', k.objectRef) == if CurrentAt(b, k.objectRef) ==
        Some(k.digest) then successor else CurrentAt(b, k.objectRef)
    ensures Abstract(b') == Retract(Abstract(b), k, successor)
  {
    AbstractLookup(b);
    var c := Abstract(b);
    hide Abstract, PublishedAt, CurrentAt;
    assert Get(c.current, k.objectRef) == CurrentAt(b, k.objectRef);
    CatalogIs(b', Retract(c, k, successor));
  }
}
