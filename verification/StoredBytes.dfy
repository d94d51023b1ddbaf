/**
 * The second half of the chain in delete-free runs (adapter.py, _put; transport.py, put_file): a record's
 * blob version is stored with its digest and length, exactly as long as uploads are safe.
 */
module StoredBytes {
  import opened Wrappers
  import opened Streams
  import opened Integrity
  import opened Retention
  import opened Bucket
  import opened Publication
  import opened Interleaving

  /** Bytes that pass for the digest and the length. */
  ghost predicate Good(cfg: Config, content: bytes, d: Digest, length: nat) {
    cfg.hash(content) == d && |content| == length
  }

  /** Version `id` of the blob is stored, hashes to the digest of its key and has the length. */
  ghost predicate Intact(cfg: Config, b: Bucket, k: Version, id: nat, length: nat) {
    var blob := Find(StackOf(b.blobs, k), id);
    blob.Some? && Good(cfg, blob.value.content, k.digest, length)
  }

  /** Every record names a blob version that is intact. */
  ghost predicate BytesHold(cfg: Config, b: Bucket) {
    forall k | Current(b.references, k).Some? ::
      var envelope := Current(b.references, k).value.value;
      Intact(cfg, b, k, envelope.blobVersion, envelope.metadata.length)
  }

  /** Version ids are handed out once; without versioning there is one, which stands for none. */
  ghost predicate OrderlyIds(b: Bucket) {
    && (forall k :: IdsBelow(StackOf(b.blobs, k), b.next))
    && (!b.versioned ==> forall k, e | e in StackOf(b.blobs, k) :: e.id == UNVERSIONED)
  }

  // ---------------------------------------------------------------- safe uploads

  /** The single request meets a blob that is there already. */
  predicate Blocked(cfg: Config, b: Bucket, t: PutTask) {
    t.stage.Upload? && t.Single(cfg) && Current(b.blobs, t.Key(cfg)).Some?
  }

  /** Task `j` is about to write the record of `k`. */
  ghost predicate Awaits(cfg: Config, w: World, j: nat, k: Version) {
    j < |w.tasks| && w.tasks[j].Putting? && w.tasks[j].put.stage.Refer? && w.tasks[j].put.Key(cfg) == k
  }

  /**
   * Some record, or some record to come, needs what upload `t` leaves under its key to be of this length:
   * without versioning the record that is there, or else those about to be written; and without read-back
   * its own.
   */
  ghost predicate Needs(cfg: Config, w: World, t: PutTask, length: nat) {
    var b, k := w.bucket, t.Key(cfg);
    if Current(b.references, k).Some? then
      !b.versioned && length == Current(b.references, k).value.value.metadata.length
    else
      || (!cfg.verifyAfterWrite && length == |t.request.payload|)
      || (!b.versioned && exists j: nat :: Awaits(cfg, w, j, k) && |w.tasks[j].put.request.payload| == length)
  }

  /** What lands serves everyone who needs it. */
  ghost predicate UploadIsSafe(cfg: Config, w: World, t: PutTask, landed: bytes) {
    Blocked(cfg, w.bucket, t) || forall length | Needs(cfg, w, t, length) :: Good(cfg, landed, t.Digest(cfg), length)
  }

  ghost predicate SafeEvent(cfg: Config, w: World, e: Event) {
    && !e.BeginDelete?
    && (e.Step? && e.index < |w.tasks| && w.tasks[e.index].Putting? && w.tasks[e.index].put.stage.Upload? ==>
          UploadIsSafe(cfg, w, w.tasks[e.index].put, e.io.landed))
  }

  /** Delete-free, with every upload safe at its moment. */
  ghost predicate SafeRun(cfg: Config, w: World, events: seq<Event>)
    requires cfg.Valid()
    decreases |events|
  {
    events == [] || (SafeEvent(cfg, w, events[0]) && SafeRun(cfg, Apply(cfg, w, events[0]), events[1..]))
  }

  // ---------------------------------------------------------------- the invariant

  /** Before its record is written the blob version of a put is intact, unless another wrote the record. */
  ghost predicate Backed(cfg: Config, b: Bucket, t: PutTask) {
    t.stage.Refer? ==>
      Current(b.references, t.Key(cfg)).Some? || Intact(cfg, b, t.Key(cfg), t.stage.version, |t.request.payload|)
  }

  ghost predicate Held(cfg: Config, w: World) {
    && (forall i | 0 <= i < |w.tasks| :: w.tasks[i].Putting? && Backed(cfg, w.bucket, w.tasks[i].put))
    && BytesHold(cfg, w.bucket) && OrderlyIds(w.bucket)
  }

  lemma {:induction false} FoundAt<T>(s: seq<Entry<T>>, id: nat) returns (i: nat)
    requires Find(s, id).Some?
    ensures i < |s| && s[i] == Entry(id, Find(s, id).value)
  {
    if s[0].id == id {
      i := 0;
    } else {
      i := FoundAt(s[1..], id);
      i := i + 1;
    }
  }

  /** What an upload makes of the version ids, and of every blob version. */
  lemma UploadEffect(b: Bucket, k: Version, blob: Blob)
    requires OrderlyIds(b)
    ensures var b' := b.WriteBlob(k, blob);
            && OrderlyIds(b')
            && Find(StackOf(b'.blobs, k), b.NewId()) == Some(blob)
            && (forall j :: j != k ==> StackOf(b'.blobs, j) == StackOf(b.blobs, j))
            && (b.versioned ==>
                  forall id | Find(StackOf(b.blobs, k), id).Some? ::
                    Find(StackOf(b'.blobs, k), id) == Find(StackOf(b.blobs, k), id))
            && (!b.versioned ==> forall id | Find(StackOf(b.blobs, k), id).Some? :: id == UNVERSIONED)
  {
    var s := StackOf(b.blobs, k);
    var b' := b.WriteBlob(k, blob);
    assert IdsBelow(s, b.next);
    assert forall j :: j != k ==> StackOf(b'.blobs, j) == StackOf(b.blobs, j);
    assert StackOf(b'.blobs, k) == b.Pushed(s, blob);
    if b.versioned {
      FindOnlyStored(s, b.next, b.next);
      forall id
        ensures Find(s + [Entry(b.next, blob)], id) ==
                if Find(s, id).Some? then Find(s, id) else if b.next == id then Some(blob) else None
      {
        FindAppend(s, Entry(b.next, blob), id);
      }
    } else {
      forall id | Find(s, id).Some?
        ensures id == UNVERSIONED
      {
        var i := FoundAt(s, id);
        assert s[i] in s;
      }
    }
    forall j
      ensures IdsBelow(StackOf(b'.blobs, j), b'.next)
      ensures !b.versioned ==> forall e | e in StackOf(b'.blobs, j) :: e.id == UNVERSIONED
    {
      assert IdsBelow(StackOf(b.blobs, j), b.next);
    }
  }

  /** An upload leaves a blob version intact unless, without versioning, it puts other bytes in its place. */
  lemma UploadKeepsIntact(cfg: Config, b: Bucket, k: Version, blob: Blob, j: Version, id: nat, length: nat)
    requires OrderlyIds(b) && Intact(cfg, b, j, id, length)
    ensures Intact(cfg, b.WriteBlob(k, blob), j, id, length) <==>
            b.versioned || j != k || Good(cfg, blob.content, k.digest, length)
  {
    UploadEffect(b, k, blob);
    hide OrderlyIds, Bucket.WriteBlob, StackOf, Find;
  }

  lemma UploadStep(cfg: Config, b: Bucket, t: PutTask, io: IO)
    requires cfg.Valid() && t.stage.Upload? && !Blocked(cfg, b, t)
    ensures PutStep(cfg, b, t, io) ==
            (b.WriteBlob(t.Key(cfg), Blob(io.landed, t.Digest(cfg))),
             t.At(if cfg.verifyAfterWrite then Verify(b.NewId()) else Refer(b.NewId())))
  {
    hide Current, StackOf;
  }

  lemma StepAt(cfg: Config, w: World, i: nat, io: IO)
    requires cfg.Valid() && i < |w.tasks| && w.tasks[i].Putting? && !w.tasks[i].put.stage.PutEnded?
    ensures var (b', t') := PutStep(cfg, w.bucket, w.tasks[i].put, io);
            Apply(cfg, w, Step(i, io)) == World(b', w.tasks[i := Putting(t')])
  {
    hide PutStep;
  }

  /** An upload keeps the invariant exactly when it is safe. */
  lemma UploadHoldsIff(cfg: Config, w: World, i: nat, io: IO)
    requires cfg.Valid() && Held(cfg, w)
    requires i < |w.tasks| && w.tasks[i].put.stage.Upload? && !Blocked(cfg, w.bucket, w.tasks[i].put)
    ensures Held(cfg, Apply(cfg, w, Step(i, io))) <==> UploadIsSafe(cfg, w, w.tasks[i].put, io.landed)
  {
    hide PutStep, Apply, Intact, OrderlyIds, Good, Bucket.WriteBlob, Blocked;
    var b, t := w.bucket, w.tasks[i].put;
    var k, blob := t.Key(cfg), Blob(io.landed, t.Digest(cfg));
    StepAt(cfg, w, i, io);
    UploadStep(cfg, b, t, io);
    UploadLands(cfg, b, k, blob);
    var w' := Apply(cfg, w, Step(i, io));
    if UploadIsSafe(cfg, w, t, io.landed) {
      SafeUploadHolds(cfg, w, i, io.landed, w');
    }
    if Held(cfg, w') {
      forall length | Needs(cfg, w, t, length)
        ensures Good(cfg, io.landed, k.digest, length)
      {
        NeededIsKept(cfg, w, i, io.landed, w', length);
      }
    }
  }

  /** The new version is intact just when what landed is good. */
  lemma UploadLands(cfg: Config, b: Bucket, k: Version, blob: Blob)
    requires OrderlyIds(b)
    ensures var b' := b.WriteBlob(k, blob);
            && OrderlyIds(b') && b'.references == b.references && b'.versioned == b.versioned
            && (forall length :: Intact(cfg, b', k, b.NewId(), length) <==> Good(cfg, blob.content, k.digest, length))
  {
    UploadEffect(b, k, blob);
    hide OrderlyIds, StackOf, Find;
  }

  /** Task `i` has uploaded, and what landed is the newest blob under its key. */
  ghost predicate Uploaded(cfg: Config, w: World, i: nat, landed: bytes, w': World) {
    && i < |w.tasks| && w.tasks[i].Putting? && w.tasks[i].put.stage.Upload?
    && var b, t := w.bucket, w.tasks[i].put;
       w' == World(b.WriteBlob(t.Key(cfg), Blob(landed, t.Digest(cfg))),
                   w.tasks[i := Putting(t.At(if cfg.verifyAfterWrite then Verify(b.NewId()) else Refer(b.NewId())))])
  }

  lemma SafeUploadHolds(cfg: Config, w: World, i: nat, landed: bytes, w': World)
    requires Held(cfg, w) && Uploaded(cfg, w, i, landed, w') && !Blocked(cfg, w.bucket, w.tasks[i].put)
    requires UploadIsSafe(cfg, w, w.tasks[i].put, landed)
    ensures Held(cfg, w')
  {
    hide Intact, OrderlyIds, Good, Bucket.WriteBlob, Current, Blocked;
    var b, t := w.bucket, w.tasks[i].put;
    var k, blob := t.Key(cfg), Blob(landed, t.Digest(cfg));
    UploadLands(cfg, b, k, blob);
    forall j | 0 <= j < |w'.tasks|
      ensures w'.tasks[j].Putting? && Backed(cfg, w'.bucket, w'.tasks[j].put)
    {
      assert w.tasks[j].Putting? && Backed(cfg, b, w.tasks[j].put);
      if j == i {
        assert Needs(cfg, w, t, |t.request.payload|) || cfg.verifyAfterWrite || Current(b.references, k).Some?;
      } else {
        var u := w.tasks[j].put;
        if u.stage.Refer? && Current(b.references, u.Key(cfg)).None? {
          UploadKeepsIntact(cfg, b, k, blob, u.Key(cfg), u.stage.version, |u.request.payload|);
          if u.Key(cfg) == k && !b.versioned {
            assert Awaits(cfg, w, j, k);
            assert Needs(cfg, w, t, |u.request.payload|);
          }
        }
      }
    }
    forall j | Current(b.references, j).Some?
      ensures var e := Current(b.references, j).value.value; Intact(cfg, w'.bucket, j, e.blobVersion, e.metadata.length)
    {
      var e := Current(b.references, j).value.value;
      UploadKeepsIntact(cfg, b, k, blob, j, e.blobVersion, e.metadata.length);
      if j == k && !b.versioned {
        assert Needs(cfg, w, t, e.metadata.length);
      }
    }
  }

  lemma NeededIsKept(cfg: Config, w: World, i: nat, landed: bytes, w': World, length: nat)
    requires Held(cfg, w) && Uploaded(cfg, w, i, landed, w') && Held(cfg, w') && Needs(cfg, w, w.tasks[i].put, length)
    ensures Good(cfg, landed, w.tasks[i].put.Digest(cfg), length)
  {
    hide Intact, OrderlyIds, Good, Bucket.WriteBlob, Current;
    var b, t := w.bucket, w.tasks[i].put;
    var k, blob := t.Key(cfg), Blob(landed, t.Digest(cfg));
    UploadLands(cfg, b, k, blob);
    if Current(b.references, k).Some? {
      var e := Current(b.references, k).value.value;
      UploadKeepsIntact(cfg, b, k, blob, k, e.blobVersion, e.metadata.length);
    } else if !cfg.verifyAfterWrite && length == |t.request.payload| {
      assert Backed(cfg, w'.bucket, w'.tasks[i].put);
    } else {
      var j: nat :| Awaits(cfg, w, j, k) && |w.tasks[j].put.request.payload| == length;
      var u := w.tasks[j].put;
      assert Backed(cfg, b, u) && w'.tasks[j] == w.tasks[j] && Backed(cfg, w'.bucket, w'.tasks[j].put);
      UploadKeepsIntact(cfg, b, k, blob, k, u.stage.version, length);
    }
  }

  // ---------------------------------------------------------------- the other steps

  lemma VerifyEffect(cfg: Config, b: Bucket, t: PutTask, io: IO)
    requires cfg.Valid() && t.stage.Verify?
    ensures var (b', t') := PutStep(cfg, b, t, io);
            b' == b && t'.request == t.request
            && (t'.stage.Refer? ==> Intact(cfg, b, t.Key(cfg), t'.stage.version, |t.request.payload|))
  {
    hide StackOf;
  }

  lemma QuietEffect(cfg: Config, b: Bucket, t: PutTask, io: IO)
    requires cfg.Valid() && !t.stage.PutEnded? && !t.stage.Upload? && !t.stage.Verify? && !t.stage.Refer?
    ensures var (b', t') := PutStep(cfg, b, t, io);
            && t'.request == t.request && !t'.stage.Refer?
            && b'.blobs == b.blobs && b'.references == b.references && b'.versioned == b.versioned && b'.next >= b.next
  {
    hide PutStep;
    if Checks(t.stage) {
      CheckingReads(cfg, b, t, io);
      CheckingIsNoRefer(cfg, b, t, io);
    } else if Seeks(t.stage) {
      SeekingReads(cfg, b, t, io);
      SeekingIsNoRefer(cfg, b, t, io);
    } else if t.stage.MoveLatest? {
      MoveEffect(cfg, b, t, io);
    } else {
      MarkEffect(cfg, b, t, io);
    }
  }

  lemma CheckingIsNoRefer(cfg: Config, b: Bucket, t: PutTask, io: IO)
    requires cfg.Valid() && Checks(t.stage)
    ensures !PutStep(cfg, b, t, io).1.stage.Refer?
  {
    hide Current, ReadExact;
  }

  lemma SeekingIsNoRefer(cfg: Config, b: Bucket, t: PutTask, io: IO)
    requires cfg.Valid() && Seeks(t.stage) && !t.stage.Verify?
    ensures !PutStep(cfg, b, t, io).1.stage.Refer?
  {
    hide Current, ReadExact;
  }

  lemma MarkEffect(cfg: Config, b: Bucket, t: PutTask, io: IO)
    requires cfg.Valid() && t.stage.MarkOrphan?
    ensures var (b', t') := PutStep(cfg, b, t, io);
            && t'.request == t.request && t'.stage.PutEnded?
            && b'.blobs == b.blobs && b'.references == b.references && b'.versioned == b.versioned && b'.next >= b.next
  {
    hide Current, StackOf;
  }

  lemma SameBlobsSameIntact(cfg: Config, b: Bucket, b': Bucket)
    requires b'.blobs == b.blobs && b'.versioned == b.versioned && b'.next >= b.next
    ensures forall k, id, length :: Intact(cfg, b', k, id, length) == Intact(cfg, b, k, id, length)
    ensures OrderlyIds(b) ==> OrderlyIds(b')
  {
  }

  /** A step that is no upload. */
  lemma OtherStepHolds(cfg: Config, b: Bucket, t: PutTask, io: IO)
    requires cfg.Valid() && !t.stage.PutEnded? && (t.stage.Upload? ==> Blocked(cfg, b, t))
    requires Backed(cfg, b, t) && BytesHold(cfg, b) && OrderlyIds(b)
    ensures var (b', t') := PutStep(cfg, b, t, io);
            && b'.blobs == b.blobs && Backed(cfg, b', t') && BytesHold(cfg, b') && OrderlyIds(b') && Extends(b, b')
  {
    hide PutStep, Intact, OrderlyIds, Current;
    var (b', t') := PutStep(cfg, b, t, io);
    if t.stage.Upload? {
      BlockedStep(cfg, b, t, io);
    } else if t.stage.Verify? {
      VerifyEffect(cfg, b, t, io);
    } else if t.stage.Refer? {
      ReferEffect(cfg, b, t, io);
      SameBlobsSameIntact(cfg, b, b');
      EnvelopeOfTask(cfg, t, t.stage.version, io.now);
      hide NewEnvelope;
    } else {
      QuietEffect(cfg, b, t, io);
      SameBlobsSameIntact(cfg, b, b');
    }
  }

  lemma BlockedStep(cfg: Config, b: Bucket, t: PutTask, io: IO)
    requires cfg.Valid() && Blocked(cfg, b, t)
    ensures PutStep(cfg, b, t, io) == (b, t.Fail(ConditionalConflict))
  {
    hide Current;
  }

  lemma EnvelopeOfTask(cfg: Config, t: PutTask, version: nat, now: int)
    requires cfg.Valid()
    ensures var e := NewEnvelope(cfg, t, version, now);
            && e.blobVersion == version && e.metadata.length == |t.request.payload|
            && e.metadata.objectRef == t.request.objectRef && e.metadata.digest == t.Digest(cfg)
  {
  }

  lemma EventHolds(cfg: Config, w: World, e: Event)
    requires cfg.Valid() && Held(cfg, w) && SafeEvent(cfg, w, e)
    ensures Held(cfg, Apply(cfg, w, e))
  {
    if e.Step? && e.index < |w.tasks| && !w.tasks[e.index].put.stage.PutEnded? {
      var t := w.tasks[e.index].put;
      if t.stage.Upload? && !Blocked(cfg, w.bucket, t) {
        UploadHoldsIff(cfg, w, e.index, e.io);
        hide Apply, Held;
      } else {
        OtherEventHolds(cfg, w, e.index, e.io);
        hide Apply, Held;
      }
    } else {
      assert Apply(cfg, w, e).bucket == w.bucket;
      hide BytesHold, OrderlyIds, Current, StartPut;
    }
  }

  lemma OtherEventHolds(cfg: Config, w: World, i: nat, io: IO)
    requires cfg.Valid() && Held(cfg, w) && i < |w.tasks| && !w.tasks[i].put.stage.PutEnded?
    requires w.tasks[i].put.stage.Upload? ==> Blocked(cfg, w.bucket, w.tasks[i].put)
    ensures Held(cfg, Apply(cfg, w, Step(i, io)))
  {
    hide PutStep, Apply, Intact, OrderlyIds, BytesHold, Current;
    StepAt(cfg, w, i, io);
    OtherStepHolds(cfg, w.bucket, w.tasks[i].put, io);
    var w' := Apply(cfg, w, Step(i, io));
    forall j | 0 <= j < |w'.tasks|
      ensures w'.tasks[j].Putting? && Backed(cfg, w'.bucket, w'.tasks[j].put)
    {
      assert w.tasks[j].Putting? && Backed(cfg, w.bucket, w.tasks[j].put);
      if j != i {
        BackedStays(cfg, w.bucket, w'.bucket, w.tasks[j].put);
      }
    }
  }

  lemma BackedStays(cfg: Config, b: Bucket, b': Bucket, t: PutTask)
    requires Backed(cfg, b, t) && b'.blobs == b.blobs && Extends(b, b')
    ensures Backed(cfg, b', t)
  {
    hide Current, Find;
  }

  lemma {:induction false} RunHolds(cfg: Config, w: World, events: seq<Event>)
    requires cfg.Valid() && Held(cfg, w) && SafeRun(cfg, w, events)
    ensures Held(cfg, Run(cfg, w, events)) && DeleteFree(events)
    decreases |events|
  {
    hide Held, SafeEvent, Apply;
    if events != [] {
      EventHolds(cfg, w, events[0]);
      RunHolds(cfg, Apply(cfg, w, events[0]), events[1..]);
      SafeIsDeleteFree(cfg, w, events);
    }
  }

  lemma {:induction false} SafeIsDeleteFree(cfg: Config, w: World, events: seq<Event>)
    requires cfg.Valid() && events != [] && SafeRun(cfg, w, events) && DeleteFree(events[1..])
    ensures DeleteFree(events)
  {
    forall i | 0 <= i < |events|
      ensures !events[i].BeginDelete?
    {
      if i > 0 {
        assert !events[1..][i - 1].BeginDelete?;
      }
    }
  }

  /**
   * In every state that a delete-free run with safe uploads reaches, each record names a blob version that
   * is stored with its digest and length, and a latest pointer names such a record of its object.
   */
  lemma {:induction false} LatestResolvesToBytes(cfg: Config, versioned: bool, events: seq<Event>, o: ObjectRef)
    requires cfg.Valid() && SafeRun(cfg, Initial(versioned), events)
    ensures var b := Run(cfg, Initial(versioned), events).bucket;
            && BytesHold(cfg, b)
            && (Current(b.latest, o).Some? ==>
                  var k := Version(o, Current(b.latest, o).value.value);
                  && ReadEnvelope(b, o, None).Ok?
                  && var envelope := ReadEnvelope(b, o, None).value;
                     && envelope.metadata.objectRef == o && envelope.metadata.digest == k.digest
                     && Intact(cfg, b, k, envelope.blobVersion, envelope.metadata.length))
  {
    hide Run, Intact, SafeRun;
    RunHolds(cfg, Initial(versioned), events);
    LatestResolvesToRecord(cfg, versioned, events, o);
  }

  // ---------------------------------------------------------------- the condition is exact

  /** A broken blob version becomes a broken record when the put that waits for it goes on. */
  lemma ReferBreaks(cfg: Config, w: World, j: nat, k: Version, io: IO)
    requires cfg.Valid() && Awaits(cfg, w, j, k) && Current(w.bucket.references, k).None?
    requires !Intact(cfg, w.bucket, k, w.tasks[j].put.stage.version, |w.tasks[j].put.request.payload|)
    ensures SafeRun(cfg, w, [Step(j, io)]) && !BytesHold(cfg, Run(cfg, w, [Step(j, io)]).bucket)
  {
    hide PutStep, Intact, UploadIsSafe, NewEnvelope, Current;
    var t := w.tasks[j].put;
    StepAt(cfg, w, j, io);
    ReferEffect(cfg, w.bucket, t, io);
    EnvelopeOfTask(cfg, t, t.stage.version, io.now);
    var w' := Apply(cfg, w, Step(j, io));
    SameBlobsSameIntact(cfg, w.bucket, w'.bucket);
    assert [Step(j, io)][1..] == [] && Run(cfg, w', []) == w';
    hide Apply;
    assert Current(w'.bucket.references, k).Some?;
  }

  /** An unsafe upload breaks a record, at once or with one more step of a put that waits to write it. */
  lemma UnsafeUploadBreaks(cfg: Config, w: World, i: nat, io: IO) returns (later: seq<Event>)
    requires cfg.Valid() && Held(cfg, w) && i < |w.tasks| && w.tasks[i].put.stage.Upload?
    requires !UploadIsSafe(cfg, w, w.tasks[i].put, io.landed)
    ensures var w' := Apply(cfg, w, Step(i, io)); SafeRun(cfg, w', later) && !BytesHold(cfg, Run(cfg, w', later).bucket)
  {
    hide PutStep, Apply, Intact, OrderlyIds, Good, Bucket.WriteBlob, Blocked, Current, SafeRun, Run;
    var b, t := w.bucket, w.tasks[i].put;
    var k, blob := t.Key(cfg), Blob(io.landed, t.Digest(cfg));
    StepAt(cfg, w, i, io);
    UploadStep(cfg, b, t, io);
    UploadLands(cfg, b, k, blob);
    var w' := Apply(cfg, w, Step(i, io));
    var length :| Needs(cfg, w, t, length) && !Good(cfg, io.landed, t.Digest(cfg), length);
    if Current(b.references, k).Some? {
      var e := Current(b.references, k).value.value;
      UploadKeepsIntact(cfg, b, k, blob, k, e.blobVersion, e.metadata.length);
      later := [];
      NoEvents(cfg, w');
    } else if !cfg.verifyAfterWrite && length == |t.request.payload| {
      later := [Step(i, io)];
      ReferBreaks(cfg, w', i, k, io);
    } else {
      var j: nat :| Awaits(cfg, w, j, k) && |w.tasks[j].put.request.payload| == length;
      var u := w.tasks[j].put;
      assert Backed(cfg, b, u) && w'.tasks[j] == w.tasks[j];
      UploadKeepsIntact(cfg, b, k, blob, k, u.stage.version, length);
      later := [Step(j, io)];
      ReferBreaks(cfg, w', j, k, io);
    }
  }

  lemma NothingIsHeld(cfg: Config, versioned: bool)
    ensures Held(cfg, Initial(versioned))
  {
  }

  lemma NoEvents(cfg: Config, w: World)
    requires cfg.Valid()
    ensures Run(cfg, w, []) == w && SafeRun(cfg, w, [])
  {
  }

  /**
   * Exactly which uploads are safe: in any state that safe uploads can reach, one more upload leaves every
   * record, in every further run of safe uploads, with its bytes if and only if it is safe itself.
   */
  lemma {:induction false} UploadIsSafeIff(cfg: Config, versioned: bool, earlier: seq<Event>, i: nat, io: IO)
    requires cfg.Valid() && SafeRun(cfg, Initial(versioned), earlier)
    requires var w := Run(cfg, Initial(versioned), earlier);
             i < |w.tasks| && w.tasks[i].Putting? && w.tasks[i].put.stage.Upload?
    ensures var w := Run(cfg, Initial(versioned), earlier);
            var w' := Apply(cfg, w, Step(i, io));
            UploadIsSafe(cfg, w, w.tasks[i].put, io.landed) <==>
            forall later | SafeRun(cfg, w', later) :: BytesHold(cfg, Run(cfg, w', later).bucket)
  {
    hide Run, SafeRun, Apply, UploadIsSafe, BytesHold;
    NothingIsHeld(cfg, versioned);
    RunHolds(cfg, Initial(versioned), earlier);
    var w := Run(cfg, Initial(versioned), earlier);
    var w' := Apply(cfg, w, Step(i, io));
    if UploadIsSafe(cfg, w, w.tasks[i].put, io.landed) {
      EventHolds(cfg, w, Step(i, io));
      forall later | SafeRun(cfg, w', later)
        ensures BytesHold(cfg, Run(cfg, w', later).bucket)
      {
        RunHolds(cfg, w', later);
      }
    } else {
      var later := UnsafeUploadBreaks(cfg, w, i, io);
    }
  }

  // ---------------------------------------------------------------- where nothing is asked of uploads

  /** Every put takes the conditional single request. */
  ghost predicate SmallPuts(cfg: Config, events: seq<Event>) {
    forall i | 0 <= i < |events| && events[i].BeginPut? :: |events[i].request.payload| < cfg.multipartThreshold
  }

  ghost predicate SmallTasks(cfg: Config, w: World) {
    forall i | 0 <= i < |w.tasks| && w.tasks[i].Putting? :: w.tasks[i].put.Single(cfg)
  }

  /** What is needed is stored already. */
  lemma NeededIsStored(cfg: Config, w: World, t: PutTask, length: nat)
    requires Held(cfg, w) && cfg.verifyAfterWrite && Needs(cfg, w, t, length)
    ensures Current(w.bucket.blobs, t.Key(cfg)).Some?
  {
    var b, k := w.bucket, t.Key(cfg);
    hide Good;
    if Current(b.references, k).None? {
      var j: nat :| Awaits(cfg, w, j, k) && |w.tasks[j].put.request.payload| == length;
      assert Backed(cfg, b, w.tasks[j].put);
    }
  }

  /** A read-back upload that keeps versions, or is blocked by any blob, is safe. */
  lemma ReadBackUploadIsSafe(cfg: Config, w: World, t: PutTask, landed: bytes)
    requires Held(cfg, w) && cfg.verifyAfterWrite && t.stage.Upload?
    requires w.bucket.versioned || t.Single(cfg)
    ensures UploadIsSafe(cfg, w, t, landed)
  {
    hide Good, Held, Current;
    forall length | Needs(cfg, w, t, length)
      ensures w.bucket.versioned || Blocked(cfg, w.bucket, t)
    {
      NeededIsStored(cfg, w, t, length);
    }
    if w.bucket.versioned {
      VersionedNeedsNothing(cfg, w, t);
    }
  }

  lemma VersionedNeedsNothing(cfg: Config, w: World, t: PutTask)
    requires cfg.verifyAfterWrite && w.bucket.versioned
    ensures forall length :: !Needs(cfg, w, t, length)
  {
  }

  lemma {:induction false} ReadBackRunsAreSafe(cfg: Config, w: World, events: seq<Event>)
    requires cfg.Valid() && cfg.verifyAfterWrite && Held(cfg, w) && DeleteFree(events)
    requires w.bucket.versioned || (SmallTasks(cfg, w) && SmallPuts(cfg, events))
    ensures SafeRun(cfg, w, events)
    decreases |events|
  {
    hide Held, UploadIsSafe, PutStep;
    if events != [] {
      var e := events[0];
      TasksAreTheirs(cfg, w);
      if e.Step? && e.index < |w.tasks| && w.tasks[e.index].put.stage.Upload? {
        ReadBackUploadIsSafe(cfg, w, w.tasks[e.index].put, e.io.landed);
      }
      EventHolds(cfg, w, e);
      SmallStays(cfg, w, e);
      assert forall i | 0 <= i < |events| - 1 :: events[1..][i] == events[i + 1];
      ReadBackRunsAreSafe(cfg, Apply(cfg, w, e), events[1..]);
    }
  }

  lemma TasksAreTheirs(cfg: Config, w: World)
    requires Held(cfg, w)
    ensures forall i | 0 <= i < |w.tasks| :: w.tasks[i].Putting?
  {
  }

  lemma SmallStays(cfg: Config, w: World, e: Event)
    requires cfg.Valid() && !e.BeginDelete? && forall i | 0 <= i < |w.tasks| :: w.tasks[i].Putting?
    ensures var w' := Apply(cfg, w, e);
            && w'.bucket.versioned == w.bucket.versioned
            && (SmallTasks(cfg, w) && (e.BeginPut? ==> |e.request.payload| < cfg.multipartThreshold) ==>
                SmallTasks(cfg, w'))
  {
    hide PutStep, FromRequest;
    if e.Step? && e.index < |w.tasks| && !w.tasks[e.index].put.stage.PutEnded? {
      StepKeepsRequest(cfg, w.bucket, w.tasks[e.index].put, e.io);
    }
  }

  lemma StepKeepsRequest(cfg: Config, b: Bucket, t: PutTask, io: IO)
    requires cfg.Valid() && !t.stage.PutEnded?
    ensures var (b', t') := PutStep(cfg, b, t, io); b'.versioned == b.versioned && t'.request == t.request
  {
    hide PutStep;
    if t.stage.Refer? {
      ReferEffect(cfg, b, t, io);
    } else if t.stage.MoveLatest? {
      MoveEffect(cfg, b, t, io);
    } else {
      ElsewhereEffect(cfg, b, t, io);
    }
  }

  /**
   * When every upload is read back, nothing else is asked of uploads in a versioned bucket, nor in any
   * bucket whose puts are all below the multipart threshold: every delete-free run is safe.
   */
  lemma {:induction false} ReadBackSuffices(cfg: Config, versioned: bool, events: seq<Event>)
    requires cfg.Valid() && cfg.verifyAfterWrite && DeleteFree(events) && (versioned || SmallPuts(cfg, events))
    ensures SafeRun(cfg, Initial(versioned), events) && BytesHold(cfg, Run(cfg, Initial(versioned), events).bucket)
  {
    ReadBackRunsAreSafe(cfg, Initial(versioned), events);
    RunHolds(cfg, Initial(versioned), events);
  }
}
