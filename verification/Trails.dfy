/**
 * What the calls of puts and deletes see and do (adapter.py, _put and _delete; transport.py, put_file), and the
 * order in which one task makes them in a run.
 */
module Trails {
  import opened Wrappers
  import opened Integrity
  import opened Retention
  import opened Bucket
  import opened Publication
  import opened Serial
  import opened Leftovers
  import opened Answers

  /** What one call of a task found or did. */
  datatype Act =
    // of a put
    | SawPointer(digest: Digest)
    | PassedFirst
    | PassedSecond
    | Uploaded(id: nat)
    | FoundIntact(id: nat)
    | Referred(envelope: Envelope)
    | MovedPointer(envelope: Envelope)
    | LostRace(envelope: Envelope)
    | SawNoWinner
    | MarkedOrphan
    // of a delete
    | Permitted(envelope: Envelope)
    | ReadPointer(digest: Digest)
    | Decided(wasLatest: bool)
    | Scanned(previous: Option<Digest>)
    | HeadedRecord(id: nat)
    | DroppedBlob(id: nat)
    | DroppedRecord(id: nat)
    | Repointed(digest: Digest)
    | HeadedPointer(id: nat)
    | DroppedPointer(id: nat)
    | LeftEvidence

  /** Nothing is there that the pointer leads to, as far as this call sees. */
  predicate SeesNothing(b: Bucket, t: PutTask) {
    if Pointed(t).Some? then PointedRecord(b, t).None?
    else (t.stage.First? || t.stage.Second? || t.stage.Winner?) && Current(b.latest, t.request.objectRef).None?
  }

  predicate PutActs(cfg: Config, b: Bucket, t: PutTask, io: IO, act: Act)
    requires cfg.Valid()
  {
    var r, k, pointer := t.request, t.Key(cfg), Current(b.latest, t.request.objectRef);
    match act
    case SawPointer(d) =>
      (t.stage.First? || t.stage.Second? || t.stage.Winner?) && pointer.Some? && pointer.value.value == d
    case PassedFirst =>
      // a create-only put sees nothing, and the payload is within the limit
      && (t.stage.First? || t.stage.FirstReference?) && |r.payload| <= cfg.maxObjectBytes
      && (SeesNothing(b, t) || (Finds(b, t) && !r.createOnly))
    case PassedSecond =>
      // what is there is another version, and may be replaced
      && (t.stage.Second? || t.stage.SecondReference?)
      && (SeesNothing(b, t) || (Finds(b, t) && Pointed(t) != Some(k.digest) && !r.createOnly && !r.immutable))
    case Uploaded(id) =>
      // a single request needs a free key
      && t.stage.Upload? && id == b.NewId()
      && (|r.payload| < cfg.multipartThreshold ==> Current(b.blobs, k).None?)
    case FoundIntact(id) =>
      && t.stage == Verify(id)
      && var blob := Find(StackOf(b.blobs, k), id);
         blob.Some? && |blob.value.content| == |r.payload| && cfg.hash(blob.value.content) == k.digest
    case Referred(e) =>
      // there is no record yet, and the one that is written says what was submitted
      && t.stage == Refer(e.blobVersion) && Current(b.references, k).None?
      && e.metadata == Metadata(r.objectRef, k.digest, |r.payload|, io.now, r.immutable, r.attributes)
      && Retained(cfg, r, e.retention) && e.chunkBytes == cfg.chunkBytes
      && e.chunkDigests == ChunkDigests(cfg.hash, r.payload, cfg.chunkBytes)
    case MovedPointer(e) => t.stage == MoveLatest(e) && (r.createOnly || r.immutable ==> pointer.None?)
    case LostRace(e) => t.stage == MoveLatest(e) && (r.createOnly || r.immutable) && pointer.Some?
    case SawNoWinner =>
      // the pointer leads nowhere, or to another version
      && (t.stage.Winner? || t.stage.WinnerReference?)
      && (SeesNothing(b, t) || (Finds(b, t) && Pointed(t) != Some(k.digest)))
    case MarkedOrphan => t.stage.MarkOrphan?
    case _ => false
  }

  predicate Retained(cfg: Config, request: PutRequest, record: Option<RetentionRecord>) {
    FromRequest(request.retention, cfg.lockMode) == Ok(record)
  }

  predicate DeleteActs(b: Bucket, t: DeleteTask, io: IO, act: Act) {
    var o, k := t.key.objectRef, t.key;
    var record, pointer := Current(b.references, k), Current(b.latest, o);
    match act
    case Permitted(e) =>
      && t.stage.Lookup? && record.Some? && record.value.value == e && Own(k, e) && Releases(e.retention, io.now)
    case ReadPointer(d) => t.stage.LatestPointer? && pointer.Some? && pointer.value.value == d
    case Decided(wasLatest) =>
      // the version is the one that the pointer leads to
      || (t.stage.LatestPointer? && pointer.None? && !wasLatest)
      || (&& t.stage.LatestReference?
          && var seen := Current(b.references, Version(o, t.stage.digest));
             if seen.None? then !wasLatest
             else Own(Version(o, t.stage.digest), seen.value.value) && (wasLatest <==> t.stage.digest == k.digest))
    case Scanned(previous) => t.stage.Scan? && io.previous == previous
    case HeadedRecord(id) => t.stage.HeadReference? && record.Some? && record.value.id == id
    case DroppedBlob(id) => t.stage.DropBlob? && t.envelope.Some? && t.envelope.value.blobVersion == id
    case DroppedRecord(id) => t.stage.DropReference? && t.stage.version == id
    case Repointed(d) => t.stage == Repoint(d)
    case HeadedPointer(id) => t.stage.HeadLatest? && pointer.Some? && pointer.value.id == id
    case DroppedPointer(id) => t.stage == DropLatest(id)
    case LeftEvidence => t.stage.Evidence? && Current(b.deletions, k).None?
    case _ => false
  }

  /** What an act of a put leaves in the bucket. */
  lemma PutActLeaves(cfg: Config, b: Bucket, t: PutTask, io: IO, act: Act)
    requires cfg.Valid() && PutActs(cfg, b, t, io, act) && Retained(cfg, t.request, t.record)
    requires IdsBelow(StackOf(b.blobs, t.Key(cfg)), b.next)
    ensures var b', k := PutStep(cfg, b, t, io).0, t.Key(cfg);
            match act
            case Uploaded(id) => Find(StackOf(b'.blobs, k), id) == Some(Blob(io.landed, k.digest))
            case Referred(e) => Current(b'.references, k) == Some(Entry(b.NewId(), e))
            case MovedPointer(_) => Current(b'.latest, k.objectRef) == Some(Entry(b.NewId(), k.digest))
            case MarkedOrphan =>
              if Current(b.orphans, k).Some? then b' == b
              else Current(b'.orphans, k) == Some(Entry(b.NewId(), "latest-conflict"))
            case _ => b' == b
  {
    hide PutActs, PutStep, IdsBelow;
    match act {
      case Uploaded(id) => UploadLeaves(cfg, b, t, io, id);
      case Referred(e) => ReferLeaves(cfg, b, t, io, e);
      case MovedPointer(e) => PointerLeaves(cfg, b, t, io, e);
      case MarkedOrphan => MarkLeaves(cfg, b, t, io);
      case LostRace(e) => LosingReads(cfg, b, t, io, e);
      case _ =>
        SeeingChecks(cfg, b, t, io, act);
        if Checks(t.stage) {
          CheckingReads(cfg, b, t, io);
        } else {
          SeekingReads(cfg, b, t, io);
        }
    }
  }

  lemma UploadLeaves(cfg: Config, b: Bucket, t: PutTask, io: IO, id: nat)
    requires cfg.Valid() && PutActs(cfg, b, t, io, Uploaded(id)) && IdsBelow(StackOf(b.blobs, t.Key(cfg)), b.next)
    ensures Find(StackOf(PutStep(cfg, b, t, io).0.blobs, t.Key(cfg)), id) == Some(Blob(io.landed, t.Digest(cfg)))
  {
    StoredReadsBack(b, t.Key(cfg), Blob(io.landed, t.Digest(cfg)));
    hide IdsBelow, StackOf, Find, NewEnvelope;
  }

  lemma ReferLeaves(cfg: Config, b: Bucket, t: PutTask, io: IO, e: Envelope)
    requires cfg.Valid() && PutActs(cfg, b, t, io, Referred(e)) && Retained(cfg, t.request, t.record)
    ensures Current(PutStep(cfg, b, t, io).0.references, t.Key(cfg)) == Some(Entry(b.NewId(), e))
  {
    hide ReadExact, ChunkDigests, FromRequest, Find;
  }

  lemma PointerLeaves(cfg: Config, b: Bucket, t: PutTask, io: IO, e: Envelope)
    requires cfg.Valid() && PutActs(cfg, b, t, io, MovedPointer(e))
    ensures Current(PutStep(cfg, b, t, io).0.latest, t.request.objectRef) == Some(Entry(b.NewId(), t.Digest(cfg)))
  {
    hide ReadExact, Find, NewEnvelope;
  }

  lemma MarkLeaves(cfg: Config, b: Bucket, t: PutTask, io: IO)
    requires cfg.Valid() && PutActs(cfg, b, t, io, MarkedOrphan)
    ensures var b', k := PutStep(cfg, b, t, io).0, t.Key(cfg);
            if Current(b.orphans, k).Some? then b' == b
            else Current(b'.orphans, k) == Some(Entry(b.NewId(), "latest-conflict"))
  {
    hide ReadExact, Find, NewEnvelope;
  }

  lemma LosingReads(cfg: Config, b: Bucket, t: PutTask, io: IO, e: Envelope)
    requires cfg.Valid() && PutActs(cfg, b, t, io, LostRace(e))
    ensures PutStep(cfg, b, t, io).0 == b
  {
    hide ReadExact, Find, NewEnvelope;
  }

  lemma SeeingChecks(cfg: Config, b: Bucket, t: PutTask, io: IO, act: Act)
    requires cfg.Valid() && PutActs(cfg, b, t, io, act)
    requires !act.Uploaded? && !act.Referred? && !act.MovedPointer? && !act.MarkedOrphan? && !act.LostRace?
    ensures Checks(t.stage) || Seeks(t.stage)
  {
    hide Find, StackOf;
  }

  /** Of the entries exactly those with this id are gone. */
  ghost predicate OnlyGone<T(!new)>(s: seq<Entry<T>>, s': seq<Entry<T>>, id: nat) {
    forall e :: e in s' <==> e in s && e.id != id
  }

  /** What an act of a delete leaves in the bucket. */
  lemma DeleteActLeaves(b: Bucket, t: DeleteTask, io: IO, act: Act)
    requires DeleteActs(b, t, io, act)
    ensures var b', k := DeleteStep(b, t, io).0, t.key;
            match act
            case DroppedBlob(id) => OnlyGone(StackOf(b.blobs, k), StackOf(b'.blobs, k), id)
            case DroppedRecord(id) => OnlyGone(StackOf(b.references, k), StackOf(b'.references, k), id)
            case Repointed(d) => Current(b'.latest, k.objectRef) == Some(Entry(b.NewId(), d))
            case DroppedPointer(id) => OnlyGone(StackOf(b.latest, k.objectRef), StackOf(b'.latest, k.objectRef), id)
            case LeftEvidence => Current(b'.deletions, k) == Some(Entry(b.NewId(), io.now))
            case _ => b' == b
  {
    match act {
      case DroppedBlob(id) => OneGone(StackOf(b.blobs, t.key), id);
      case DroppedRecord(id) => OneGone(StackOf(b.references, t.key), id);
      case DroppedPointer(id) => OneGone(StackOf(b.latest, t.key.objectRef), id);
      case _ =>
    }
    hide Without, OnlyGone, ReadExact, Releases;
  }

  lemma OneGone<T(!new)>(s: seq<Entry<T>>, id: nat)
    ensures OnlyGone(s, Without(s, id), id)
  {
    forall e
      ensures e in Without(s, id) <==> e in s && e.id != id
    {
      WithoutHas(s, id, e);
    }
  }

  // ---------------------------------------------------------------- in a run

  datatype Subject = PutOf(request: PutRequest) | DeleteOf(key: Version)

  /** In event `h` task `i`, a put of this request or a delete of this version, acts so. */
  ghost predicate ActsAt(cfg: Config, w: World, events: seq<Event>, h: nat, i: nat, of: Subject, act: Act)
    requires cfg.Valid()
  {
    && h < |events| && events[h].Step?
    && var b := Run(cfg, w, events[..h]).bucket;
       match of
       case PutOf(request) =>
         var t := PutCallAt(cfg, w, events, h, i);
         t.Some? && t.value.request == request && PutActs(cfg, b, t.value, events[h].io, act)
       case DeleteOf(key) =>
         var t := CallAt(cfg, w, events, h, i);
         t.Some? && t.value.key == key && DeleteActs(b, t.value, events[h].io, act)
  }

  /** Before event `m` it has acted in these ways, in this order. */
  ghost predicate Did(cfg: Config, w: World, events: seq<Event>, m: nat, i: nat, of: Subject, acts: seq<Act>)
    requires cfg.Valid()
    decreases |acts|, 1
  {
    acts == [] || exists h: nat :: h < m && DidUntil(cfg, w, events, h, i, of, acts)
  }

  /** The last of these acts is the one in event `h`. */
  ghost predicate DidUntil(cfg: Config, w: World, events: seq<Event>, h: nat, i: nat, of: Subject, acts: seq<Act>)
    requires cfg.Valid() && acts != []
    decreases |acts|, 0
  {
    && ActsAt(cfg, w, events, h, i, of, acts[|acts| - 1])
    && Did(cfg, w, events, h, i, of, acts[..|acts| - 1])
  }

  lemma {:induction false} ActsStay(cfg: Config, w: World, front: seq<Event>, e: Event, h: nat, i: nat, of: Subject,
                                    act: Act)
    requires cfg.Valid() && ActsAt(cfg, w, front, h, i, of, act)
    ensures ActsAt(cfg, w, front + [e], h, i, of, act)
  {
    hide PutActs, DeleteActs;
    assert (front + [e])[..h] == front[..h] && (front + [e])[h] == front[h];
  }

  lemma NothingDone(cfg: Config, w: World, events: seq<Event>, m: nat, i: nat, of: Subject)
    requires cfg.Valid()
    ensures Did(cfg, w, events, m, i, of, [])
  {
  }

  /** What was done stays done. */
  lemma {:induction false} DidStays(cfg: Config, w: World, front: seq<Event>, e: Event, m: nat, m': nat, i: nat,
                                    of: Subject, acts: seq<Act>)
    requires cfg.Valid() && m <= m' && Did(cfg, w, front, m, i, of, acts)
    ensures Did(cfg, w, front + [e], m', i, of, acts)
    decreases |acts|
  {
    hide ActsAt;
    if acts != [] {
      var n := |acts| - 1;
      var h: nat :| h < m && DidUntil(cfg, w, front, h, i, of, acts);
      ActsStay(cfg, w, front, e, h, i, of, acts[n]);
      DidStays(cfg, w, front, e, h, h, i, of, acts[..n]);
      assert DidUntil(cfg, w, front + [e], h, i, of, acts);
    }
  }

  /** One more act, in the last event. */
  lemma {:induction false} DoesOneMore(cfg: Config, w: World, front: seq<Event>, e: Event, i: nat, of: Subject,
                                       acts: seq<Act>, act: Act)
    requires cfg.Valid() && Did(cfg, w, front, |front|, i, of, acts)
    requires ActsAt(cfg, w, front + [e], |front|, i, of, act)
    ensures Did(cfg, w, front + [e], |front + [e]|, i, of, acts + [act])
  {
    hide ActsAt;
    DidStays(cfg, w, front, e, |front|, |front|, i, of, acts);
    assert (acts + [act])[..|acts|] == acts && (acts + [act])[|acts|] == act;
    assert DidUntil(cfg, w, front + [e], |front|, i, of, acts + [act]);
  }

  /** Whoever did something did it in one of the events. */
  lemma {:induction false} DidLast(cfg: Config, w: World, events: seq<Event>, m: nat, i: nat, of: Subject,
                                   acts: seq<Act>, act: Act)
      returns (h: nat)
    requires cfg.Valid() && Did(cfg, w, events, m, i, of, acts + [act])
    ensures h < m && ActsAt(cfg, w, events, h, i, of, act) && Did(cfg, w, events, h, i, of, acts)
  {
    hide ActsAt;
    var all := acts + [act];
    assert all[..|acts|] == acts && all[|acts|] == act;
    h :| h < m && DidUntil(cfg, w, events, h, i, of, all);
  }

  lemma {:induction false} DidLater(cfg: Config, w: World, events: seq<Event>, m: nat, m': nat, i: nat, of: Subject,
                                    acts: seq<Act>)
    requires cfg.Valid() && m <= m' && Did(cfg, w, events, m, i, of, acts)
    ensures Did(cfg, w, events, m', i, of, acts)
  {
    hide DidUntil;
  }

  /** All but the last of what was done was done, too. */
  lemma {:induction false} DidBefore(cfg: Config, w: World, events: seq<Event>, m: nat, i: nat, of: Subject,
                                     acts: seq<Act>, act: Act)
    requires cfg.Valid() && Did(cfg, w, events, m, i, of, acts + [act])
    ensures Did(cfg, w, events, m, i, of, acts)
  {
    hide Did, ActsAt;
    var h := DidLast(cfg, w, events, m, i, of, acts, act);
    DidLater(cfg, w, events, h, m, i, of, acts);
  }
}
