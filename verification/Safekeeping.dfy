/**
 * Puts and deletes together, interleaved call by call, in a bucket that keeps versions (adapter.py, _put,
 * _delete and _stat): whatever is read is right, although it may be gone.
 */
module Safekeeping {
  import opened Wrappers
  import opened Integrity
  import opened Bucket
  import opened Publication
  import opened Interleaving
  import opened StoredBytes
  import opened Holding

  /** Blob version `id` is gone, or it is what its key and the length say. */
  ghost predicate GoodOrGone(cfg: Config, b: Bucket, k: Version, id: nat, length: nat) {
    var blob := Find(StackOf(b.blobs, k), id);
    blob.None? || Good(cfg, blob.value.content, k.digest, length)
  }

  /** What a record names has been handed out, and is good or gone. */
  ghost predicate Settled(cfg: Config, b: Bucket, k: Version, id: nat, length: nat) {
    id < b.next && GoodOrGone(cfg, b, k, id, length)
  }

  ghost predicate RecordsSettled(cfg: Config, b: Bucket) {
    forall k, e | e in StackOf(b.references, k) :: Settled(cfg, b, k, e.value.blobVersion, e.value.metadata.length)
  }

  ghost predicate TaskSettled(cfg: Config, b: Bucket, t: Task) {
    t.Putting? ==>
      && (t.put.stage.Verify? ==> t.put.stage.version < b.next)
      && (t.put.stage.Refer? ==> Settled(cfg, b, t.put.Key(cfg), t.put.stage.version, |t.put.request.payload|))
  }

  ghost predicate Guarded(cfg: Config, w: World) {
    && w.bucket.versioned && RecordsSettled(cfg, w.bucket) && OrderlyIds(w.bucket)
    && (forall i | 0 <= i < |w.tasks| :: TaskSettled(cfg, w.bucket, w.tasks[i]))
  }

  /** An upload is read back, or good bytes land. */
  ghost predicate Sincere(cfg: Config, w: World, e: Event) {
    e.Step? && e.index < |w.tasks| && w.tasks[e.index].Putting? && w.tasks[e.index].put.stage.Upload? ==>
      var t := w.tasks[e.index].put;
      cfg.verifyAfterWrite || Good(cfg, e.io.landed, t.Digest(cfg), |t.request.payload|)
  }

  ghost predicate SincereRun(cfg: Config, w: World, events: seq<Event>)
    requires cfg.Valid()
    decreases |events|
  {
    events == [] || (Sincere(cfg, w, events[0]) && SincereRun(cfg, Apply(cfg, w, events[0]), events[1..]))
  }

  /** Blob versions stay as they are while they are there, and their ids are not handed out again. */
  ghost predicate Preserves(b: Bucket, b': Bucket) {
    && b'.versioned == b.versioned && b'.next >= b.next
    && (forall k, id: nat | id < b.next :: FoundOrGone(b, b', k, id))
  }

  ghost predicate FoundOrGone(b: Bucket, b': Bucket, k: Version, id: nat) {
    var after := Find(StackOf(b'.blobs, k), id);
    after == Find(StackOf(b.blobs, k), id) || after.None?
  }

  lemma SettledStays(cfg: Config, b: Bucket, b': Bucket, k: Version, id: nat, length: nat)
    requires Preserves(b, b') && Settled(cfg, b, k, id, length)
    ensures Settled(cfg, b', k, id, length)
  {
    hide Good, Find, StackOf;
    assert FoundOrGone(b, b', k, id);
  }

  lemma PreservesTransitive(b: Bucket, b1: Bucket, b2: Bucket)
    requires Preserves(b, b1) && Preserves(b1, b2)
    ensures Preserves(b, b2)
  {
    hide Find, StackOf;
    forall k, id: nat | id < b.next
      ensures FoundOrGone(b, b2, k, id)
    {
      assert FoundOrGone(b, b1, k, id) && FoundOrGone(b1, b2, k, id);
    }
  }

  lemma UploadPreserves(b: Bucket, k: Version, blob: Blob)
    requires b.versioned
    ensures Preserves(b, b.WriteBlob(k, blob))
  {
    forall id
      ensures Find(StackOf(b.blobs, k) + [Entry(b.next, blob)], id) ==
              if Find(StackOf(b.blobs, k), id).Some? then Find(StackOf(b.blobs, k), id)
              else if b.next == id then Some(blob) else None
    {
      FindAppend(StackOf(b.blobs, k), Entry(b.next, blob), id);
    }
    hide Find;
  }

  lemma RemovalPreserves(b: Bucket, k: Version, id: nat)
    ensures Preserves(b, b.RemoveBlob(k, id)) && (OrderlyIds(b) ==> OrderlyIds(b.RemoveBlob(k, id)))
  {
    var b' := b.RemoveBlob(k, id);
    forall j, v: nat | v < b.next
      ensures FoundOrGone(b, b', j, v)
    {
      FindWithout(StackOf(b.blobs, k), id, v);
    }
    WithoutSelects(StackOf(b.blobs, k), id);
    hide Find, Without;
    forall j
      ensures forall e | e in StackOf(b'.blobs, j) :: e in StackOf(b.blobs, j)
    {
    }
    if OrderlyIds(b) {
      forall j
        ensures IdsBelow(StackOf(b'.blobs, j), b'.next)
      {
        SubsetBelow(StackOf(b.blobs, j), StackOf(b'.blobs, j), b.next);
      }
    }
  }

  lemma {:induction false} SubsetBelow<T>(s: seq<Entry<T>>, part: seq<Entry<T>>, bound: nat)
    requires IdsBelow(s, bound) && forall e | e in part :: e in s
    ensures IdsBelow(part, bound)
  {
    forall i | 0 <= i < |part|
      ensures part[i].id < bound
    {
      assert part[i] in part;
    }
  }

  lemma SameBlobsPreserve(b: Bucket, b': Bucket)
    requires b'.blobs == b.blobs && b'.versioned == b.versioned && b'.next >= b.next
    ensures Preserves(b, b') && (OrderlyIds(b) ==> OrderlyIds(b'))
  {
    hide Find;
  }

  // ---------------------------------------------------------------- version ids

  lemma PutStepKeepsIds(cfg: Config, b: Bucket, t: PutTask, io: IO)
    requires cfg.Valid() && !t.stage.PutEnded? && OrderlyIds(b)
    ensures var b' := PutStep(cfg, b, t, io).0; OrderlyIds(b') && (b.versioned ==> Preserves(b, b'))
  {
    hide PutStep, OrderlyIds, Bucket.WriteBlob, Preserves;
    var b' := PutStep(cfg, b, t, io).0;
    if t.stage.Upload? {
      if Blocked(cfg, b, t) {
        BlockedStep(cfg, b, t, io);
        SameBlobsPreserve(b, b');
      } else {
        UploadStep(cfg, b, t, io);
        UploadEffect(b, t.Key(cfg), Blob(io.landed, t.Digest(cfg)));
        if b.versioned {
          UploadPreserves(b, t.Key(cfg), Blob(io.landed, t.Digest(cfg)));
        }
      }
      hide Blocked;
    } else {
      if t.stage.Verify? {
        VerifyEffect(cfg, b, t, io);
      } else if t.stage.Refer? {
        ReferEffect(cfg, b, t, io);
      } else {
        QuietEffect(cfg, b, t, io);
      }
      SameBlobsPreserve(b, b');
    }
  }

  lemma DeleteStepKeepsIds(b: Bucket, t: DeleteTask, io: IO)
    requires !t.stage.DeleteEnded? && OrderlyIds(b)
    ensures var b' := DeleteStep(b, t, io).0; OrderlyIds(b') && Preserves(b, b')
  {
    hide DeleteStep, OrderlyIds, Bucket.RemoveBlob, Preserves;
    var b' := DeleteStep(b, t, io).0;
    if Looks(t.stage) {
      LookingReads(b, t, io);
      SameBlobsPreserve(b, b');
    } else {
      DeleteWrites(b, t, io);
      if t.stage.DropBlob? && t.envelope.Some? {
        RemovalPreserves(b, t.key, t.envelope.value.blobVersion);
      } else {
        SameBlobsPreserve(b, b');
      }
    }
  }

  /**
   * Over any run of puts and deletes blob version ids are handed out once, or stand for none; and where they
   * are handed out, a blob version stays what it is until it is gone.
   */
  lemma {:induction false} RunKeepsIds(cfg: Config, w: World, events: seq<Event>)
    requires cfg.Valid() && OrderlyIds(w.bucket)
    ensures var b' := Run(cfg, w, events).bucket; OrderlyIds(b') && (w.bucket.versioned ==> Preserves(w.bucket, b'))
    decreases |events|
  {
    hide OrderlyIds, PutStep, DeleteStep, StartPut, Preserves;
    SameBlobsPreserve(w.bucket, w.bucket);
    if events != [] {
      var e := events[0];
      var w1 := Apply(cfg, w, e);
      if e.Step? && e.index < |w.tasks| {
        match w.tasks[e.index] {
          case Putting(t) => if !t.stage.PutEnded? { PutStepKeepsIds(cfg, w.bucket, t, e.io); }
          case Deleting(t) => if !t.stage.DeleteEnded? { DeleteStepKeepsIds(w.bucket, t, e.io); }
        }
      }
      RunKeepsIds(cfg, w1, events[1..]);
      if w.bucket.versioned {
        PreservedIsVersioned(w.bucket, w1.bucket);
        PreservesTransitive(w.bucket, w1.bucket, Run(cfg, w1, events[1..]).bucket);
      }
    }
  }

  lemma PreservedIsVersioned(b: Bucket, b': Bucket)
    requires Preserves(b, b')
    ensures b'.versioned == b.versioned
  {
  }

  lemma NoIds(versioned: bool)
    ensures OrderlyIds(Empty(versioned))
  {
  }

  // ---------------------------------------------------------------- right bytes or none

  /** A step of either kind: what it must re-establish. */
  ghost predicate StepGuards(cfg: Config, b: Bucket, b': Bucket, t': Task) {
    Preserves(b, b') && OrderlyIds(b') && RecordsSettled(cfg, b') && TaskSettled(cfg, b', t')
  }

  lemma PutStepGuards(cfg: Config, b: Bucket, t: PutTask, io: IO)
    requires cfg.Valid() && !t.stage.PutEnded? && b.versioned && OrderlyIds(b) && RecordsSettled(cfg, b)
    requires TaskSettled(cfg, b, Putting(t))
    requires t.stage.Upload? ==> cfg.verifyAfterWrite || Good(cfg, io.landed, t.Digest(cfg), |t.request.payload|)
    ensures var (b', t') := PutStep(cfg, b, t, io); StepGuards(cfg, b, b', Putting(t'))
  {
    hide PutStep, OrderlyIds, GoodOrGone, Good, StackOf, Bucket.WriteBlob;
    var (b', t') := PutStep(cfg, b, t, io);
    if t.stage.Upload? {
      if Blocked(cfg, b, t) {
        BlockedStep(cfg, b, t, io);
      } else {
        UploadStep(cfg, b, t, io);
        UploadPreserves(b, t.Key(cfg), Blob(io.landed, t.Digest(cfg)));
        UploadLands(cfg, b, t.Key(cfg), Blob(io.landed, t.Digest(cfg)));
        UploadSettles(cfg, b, t.Key(cfg), Blob(io.landed, t.Digest(cfg)));
        SameRecordsSettled(cfg, b, b');
      }
      hide Blocked;
    } else if t.stage.Verify? {
      VerifyGuards(cfg, b, t, io);
    } else if t.stage.Refer? {
      ReferGuards(cfg, b, t, io);
    } else {
      QuietEffect(cfg, b, t, io);
      QuietIsNoVerify(cfg, b, t, io);
      SameBlobsPreserve(b, b');
      SameRecordsSettled(cfg, b, b');
    }
  }

  lemma UploadSettles(cfg: Config, b: Bucket, k: Version, blob: Blob)
    requires b.versioned && OrderlyIds(b)
    ensures forall length | Good(cfg, blob.content, k.digest, length) ::
              Settled(cfg, b.WriteBlob(k, blob), k, b.NewId(), length)
    ensures b.NewId() < b.WriteBlob(k, blob).next
  {
    UploadEffect(b, k, blob);
    hide Good, Find, StackOf;
  }

  lemma SameRecordsSettled(cfg: Config, b: Bucket, b': Bucket)
    requires RecordsSettled(cfg, b) && Preserves(b, b')
    requires forall k, e | e in StackOf(b'.references, k) :: e in StackOf(b.references, k)
    ensures RecordsSettled(cfg, b')
  {
    hide StackOf, Settled, Preserves;
    forall k, e | e in StackOf(b'.references, k)
      ensures Settled(cfg, b', k, e.value.blobVersion, e.value.metadata.length)
    {
      SettledStays(cfg, b, b', k, e.value.blobVersion, e.value.metadata.length);
    }
  }

  lemma QuietIsNoVerify(cfg: Config, b: Bucket, t: PutTask, io: IO)
    requires cfg.Valid() && !t.stage.PutEnded? && !t.stage.Upload?
    ensures !PutStep(cfg, b, t, io).1.stage.Verify?
  {
    hide Current, StackOf, ReadExact;
  }

  lemma VerifyGuards(cfg: Config, b: Bucket, t: PutTask, io: IO)
    requires cfg.Valid() && t.stage.Verify? && b.versioned && OrderlyIds(b) && RecordsSettled(cfg, b)
    requires TaskSettled(cfg, b, Putting(t))
    ensures var (b', t') := PutStep(cfg, b, t, io); StepGuards(cfg, b, b', Putting(t'))
  {
    hide StackOf, OrderlyIds, RecordsSettled, Find;
  }

  lemma ReferGuards(cfg: Config, b: Bucket, t: PutTask, io: IO)
    requires cfg.Valid() && t.stage.Refer? && b.versioned && OrderlyIds(b) && RecordsSettled(cfg, b)
    requires TaskSettled(cfg, b, Putting(t))
    ensures var (b', t') := PutStep(cfg, b, t, io); StepGuards(cfg, b, b', Putting(t'))
  {
    hide OrderlyIds, GoodOrGone, Good, Find, NewEnvelope;
    var (b', t') := PutStep(cfg, b, t, io);
    ReferEffect(cfg, b, t, io);
    SameBlobsPreserve(b, b');
    EnvelopeOfTask(cfg, t, t.stage.version, io.now);
    var envelope := NewEnvelope(cfg, t, t.stage.version, io.now);
    forall k, e | e in StackOf(b'.references, k)
      ensures Settled(cfg, b', k, e.value.blobVersion, e.value.metadata.length)
    {
      assert e in StackOf(b.references, k) || (k == t.Key(cfg) && e.value == envelope);
      assert Settled(cfg, b, k, e.value.blobVersion, e.value.metadata.length);
      SettledStays(cfg, b, b', k, e.value.blobVersion, e.value.metadata.length);
    }
  }

  lemma DeleteStepGuards(cfg: Config, b: Bucket, t: DeleteTask, io: IO)
    requires !t.stage.DeleteEnded? && OrderlyIds(b) && RecordsSettled(cfg, b)
    ensures var (b', t') := DeleteStep(b, t, io); StepGuards(cfg, b, b', Deleting(t'))
  {
    hide DeleteStep, OrderlyIds, Settled, StackOf, Without;
    var (b', t') := DeleteStep(b, t, io);
    if Looks(t.stage) {
      LookingReads(b, t, io);
      SameBlobsPreserve(b, b');
    } else {
      DeleteWrites(b, t, io);
      if t.stage.DropBlob? && t.envelope.Some? {
        RemovalPreserves(b, t.key, t.envelope.value.blobVersion);
      } else {
        SameBlobsPreserve(b, b');
      }
      SameRecordsSettled(cfg, b, b');
    }
  }

  /** What the writing steps of a delete do to blobs and records. */
  lemma DeleteWrites(b: Bucket, t: DeleteTask, io: IO)
    requires !t.stage.DeleteEnded? && !Looks(t.stage)
    ensures var b' := DeleteStep(b, t, io).0;
            && b'.versioned == b.versioned && b'.next >= b.next
            && (if t.stage.DropBlob? && t.envelope.Some? then b' == b.RemoveBlob(t.key, t.envelope.value.blobVersion)
                else b'.blobs == b.blobs)
            && (forall k, e | e in StackOf(b'.references, k) :: e in StackOf(b.references, k))
  {
    hide Without, Current, StackOf;
    if t.stage.DropReference? {
      DropSelects(b, t.key, t.stage.version);
    }
  }

  lemma DropSelects(b: Bucket, k: Version, id: nat)
    ensures var b' := b.RemoveReference(k, id);
            forall j, e | e in StackOf(b'.references, j) :: e in StackOf(b.references, j)
  {
    WithoutSelects(StackOf(b.references, k), id);
    hide Without;
  }

  lemma EventGuards(cfg: Config, w: World, e: Event)
    requires cfg.Valid() && Guarded(cfg, w) && Sincere(cfg, w, e)
    ensures Guarded(cfg, Apply(cfg, w, e))
  {
    hide PutStep, DeleteStep, RecordsSettled, OrderlyIds, Good, Settled, StartPut, StepGuards;
    var w' := Apply(cfg, w, e);
    if e.Step? && e.index < |w.tasks| {
      match w.tasks[e.index] {
        case Putting(t) =>
          if !t.stage.PutEnded? {
            PutStepGuards(cfg, w.bucket, t, e.io);
            GuardedAfter(cfg, w, e.index, w');
          }
        case Deleting(t) =>
          if !t.stage.DeleteEnded? {
            DeleteStepGuards(cfg, w.bucket, t, e.io);
            GuardedAfter(cfg, w, e.index, w');
          }
      }
    } else if e.BeginPut? {
      StartSettled(cfg, w.bucket, e.request);
    }
  }

  lemma StartSettled(cfg: Config, b: Bucket, request: PutRequest)
    ensures TaskSettled(cfg, b, Putting(StartPut(cfg, request)))
  {
  }

  lemma GuardedAfter(cfg: Config, w: World, i: nat, w': World)
    requires Guarded(cfg, w) && i < |w.tasks| == |w'.tasks| && w'.tasks == w.tasks[i := w'.tasks[i]]
    requires StepGuards(cfg, w.bucket, w'.bucket, w'.tasks[i])
    ensures Guarded(cfg, w')
  {
    hide RecordsSettled, OrderlyIds, Settled;
    forall j | 0 <= j < |w'.tasks|
      ensures TaskSettled(cfg, w'.bucket, w'.tasks[j])
    {
      assert TaskSettled(cfg, w.bucket, w.tasks[j]);
      var t := w.tasks[j];
      if t.Putting? && t.put.stage.Refer? && j != i {
        SettledStays(cfg, w.bucket, w'.bucket, t.put.Key(cfg), t.put.stage.version, |t.put.request.payload|);
      }
    }
  }

  /** Every current record names a blob version that is good or gone. */
  ghost predicate RecordsGoodOrGone(cfg: Config, b: Bucket) {
    forall k | Current(b.references, k).Some? ::
      var envelope := Current(b.references, k).value.value;
      GoodOrGone(cfg, b, k, envelope.blobVersion, envelope.metadata.length)
  }

  /** Every stat that succeeds names a blob version that is stored with the digest and length of its answer. */
  ghost predicate StatsIntact(cfg: Config, b: Bucket) {
    forall o, digest | Stat(b, o, digest).Ok? ::
      var envelope := Stat(b, o, digest).value;
      Intact(cfg, b, Version(o, envelope.metadata.digest), envelope.blobVersion, envelope.metadata.length)
  }

  /** When uploads are read back nothing is asked of what lands. */
  lemma {:induction false} ReadBackIsSincere(cfg: Config, w: World, events: seq<Event>)
    requires cfg.Valid() && cfg.verifyAfterWrite
    ensures SincereRun(cfg, w, events)
    decreases |events|
  {
    hide Apply;
    if events != [] {
      ReadBackIsSincere(cfg, Apply(cfg, w, events[0]), events[1..]);
    }
  }

  lemma {:induction false} RunGuards(cfg: Config, w: World, events: seq<Event>)
    requires cfg.Valid() && Guarded(cfg, w) && SincereRun(cfg, w, events)
    ensures Guarded(cfg, Run(cfg, w, events))
    decreases |events|
  {
    hide Guarded, Sincere, Apply;
    if events != [] {
      EventGuards(cfg, w, events[0]);
      RunGuards(cfg, Apply(cfg, w, events[0]), events[1..]);
    }
  }

  /**
   * In a bucket that keeps versions, after any interleaving of puts and deletes whose uploads are read back
   * or land well: the blob version that a record names is gone or has the digest and length, so a stat that
   * succeeds names the right bytes.
   */
  lemma {:induction false} StatNamesRightBytes(cfg: Config, events: seq<Event>)
    requires cfg.Valid() && SincereRun(cfg, Initial(true), events)
    ensures var b := Run(cfg, Initial(true), events).bucket; RecordsGoodOrGone(cfg, b) && StatsIntact(cfg, b)
  {
    hide Run, SincereRun, Good;
    NothingIsGuarded(cfg);
    RunGuards(cfg, Initial(true), events);
    var b := Run(cfg, Initial(true), events).bucket;
    forall k | Current(b.references, k).Some?
      ensures var envelope := Current(b.references, k).value.value;
              GoodOrGone(cfg, b, k, envelope.blobVersion, envelope.metadata.length)
    {
      var s := StackOf(b.references, k);
      assert s[|s| - 1] in s;
      assert Settled(cfg, b, k, s[|s| - 1].value.blobVersion, s[|s| - 1].value.metadata.length);
    }
    hide Guarded, StackOf;
    forall o, digest | Stat(b, o, digest).Ok?
      ensures var envelope := Stat(b, o, digest).value;
              Intact(cfg, b, Version(o, envelope.metadata.digest), envelope.blobVersion, envelope.metadata.length)
    {
      StatReadsRecord(b, o, digest);
    }
  }

  lemma NothingIsGuarded(cfg: Config)
    ensures Guarded(cfg, Initial(true))
  {
  }

  lemma StatReadsRecord(b: Bucket, o: ObjectRef, digest: Option<Digest>)
    requires Stat(b, o, digest).Ok?
    ensures var envelope := Stat(b, o, digest).value;
            var k := Version(o, envelope.metadata.digest);
            && Current(b.references, k).Some? && Current(b.references, k).value.value == envelope
            && Find(StackOf(b.blobs, k), envelope.blobVersion).Some?
  {
    hide StackOf, Find;
  }
}
