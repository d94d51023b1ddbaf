/**
 * What runs leave behind (adapter.py, _put and _delete; transport.py, put_file): every stored blob version belongs
 * to some put, and every record that is gone has its evidence or a delete that owes it.
 */
module Leftovers {
  import opened Wrappers
  import opened Retention
  import opened Bucket
  import opened Publication
  import opened Interleaving
  import opened StoredBytes
  import opened Accounting
  import opened Holding
  import opened Safekeeping

  // ---------------------------------------------------------------- blobs

  /** The record of `k` names this blob version. */
  ghost predicate Names(b: Bucket, k: Version, id: nat) {
    Current(b.references, k).Some? && Current(b.references, k).value.value.blobVersion == id
  }

  /**
   * The put stored this blob version of its key, and is on its way to the record, or has the record, which names
   * the version, or has failed.
   */
  ghost predicate Owns(cfg: Config, b: Bucket, t: PutTask, k: Version, id: nat) {
    && t.Key(cfg) == k
    && match t.stage
       case Verify(version) => version == id
       case Refer(version) => version == id
       case MoveLatest(envelope) => envelope.blobVersion == id && Names(b, k, id)
       case Winner(envelope) => envelope.blobVersion == id && Names(b, k, id)
       case WinnerReference(envelope, _) => envelope.blobVersion == id && Names(b, k, id)
       case MarkOrphan(envelope) => envelope.blobVersion == id && Names(b, k, id)
       case PutEnded(Published(_)) => Names(b, k, id)
       case PutEnded(PutFailed(_)) => t.referenced ==> Names(b, k, id)
       case _ => false
  }

  type Owners = map<(Version, nat), nat>

  ghost predicate OwnedBy(cfg: Config, w: World, k: Version, id: nat, i: nat) {
    i < |w.tasks| && w.tasks[i].Putting? && Owns(cfg, w.bucket, w.tasks[i].put, k, id)
  }

  ghost predicate Stored(b: Bucket, k: Version, id: nat) {
    Find(StackOf(b.blobs, k), id).Some?
  }

  /** Every stored blob version is owned by a put, and no two by the same. */
  ghost predicate BlobsOwned(cfg: Config, w: World, owners: Owners) {
    && (forall k, id: nat | Stored(w.bucket, k, id) :: (k, id) in owners && OwnedBy(cfg, w, k, id, owners[(k, id)]))
    && (forall k, id: nat, j, jd: nat | Stored(w.bucket, k, id) && Stored(w.bucket, j, jd) ::
          (k, id) in owners && (j, jd) in owners && owners[(k, id)] == owners[(j, jd)] ==> k == j && id == jd)
  }

  /** The envelope that a put in flight carries. */
  function EnvelopeInFlight(t: PutTask): (envelope: Envelope)
    requires InFlight(t)
  {
    match t.stage
    case MoveLatest(envelope) => envelope
    case Winner(envelope) => envelope
    case WinnerReference(envelope, _) => envelope
    case MarkOrphan(envelope) => envelope
  }

  /** A read-back leads to the record, or fails. */
  lemma VerifyGoesOn(cfg: Config, b: Bucket, t: PutTask, io: IO)
    requires cfg.Valid() && t.stage.Verify?
    ensures var t' := PutStep(cfg, b, t, io).1;
            t'.stage == Refer(t.stage.version) || (t'.stage.PutEnded? && t'.stage.outcome.PutFailed?)
  {
    hide StackOf, Find;
  }

  /** A search for the winner goes on to mark the orphan, or fails. */
  lemma SearchGoesOn(cfg: Config, b: Bucket, t: PutTask, io: IO)
    requires cfg.Valid() && (t.stage.Winner? || t.stage.WinnerReference?)
    ensures var t' := PutStep(cfg, b, t, io).1;
            || (t'.stage.PutEnded? && t'.stage.outcome.PutFailed?)
            || (InFlight(t') && EnvelopeInFlight(t') == EnvelopeInFlight(t))
  {
    hide Current, ReadExact;
  }

  lemma MoveGoesOn(cfg: Config, b: Bucket, t: PutTask, io: IO)
    requires cfg.Valid() && t.stage.MoveLatest?
    ensures var t' := PutStep(cfg, b, t, io).1;
            t'.stage == Winner(t.stage.envelope) || t'.stage == PutEnded(Published(t.stage.envelope.metadata))
  {
    hide Current, Bucket.WriteLatest;
  }

  lemma MarkGoesOn(cfg: Config, b: Bucket, t: PutTask, io: IO)
    requires cfg.Valid() && t.stage.MarkOrphan?
    ensures PutStep(cfg, b, t, io).1.stage == PutEnded(PutFailed(ConditionalConflict))
  {
    hide Current, Bucket.WriteOrphan;
  }

  /** No record yet: the put does not count as having written one. */
  predicate Unwritten(t: PutTask) {
    t.referenced ==> InFlight(t) || t.stage.PutEnded?
  }

  /** A put past its upload, stepped, goes on owning what it stored. */
  lemma OwnerGoesOn(cfg: Config, b: Bucket, t: PutTask, io: IO, k: Version, id: nat)
    requires cfg.Valid() && !t.stage.PutEnded? && Owns(cfg, b, t, k, id) && Unwritten(t)
    ensures var (b', t') := PutStep(cfg, b, t, io); Owns(cfg, b', t', k, id) && b'.blobs == b.blobs
  {
    hide PutStep, Current;
    StepEffect(cfg, b, t, io);
    match t.stage {
      case Verify(_) => SeekingReads(cfg, b, t, io); VerifyGoesOn(cfg, b, t, io);
      case Refer(version) => ReferEffect(cfg, b, t, io); EnvelopeOfTask(cfg, t, version, io.now);
      case MoveLatest(_) => MoveEffect(cfg, b, t, io); MoveGoesOn(cfg, b, t, io);
      case MarkOrphan(_) => MarkEffect(cfg, b, t, io); MarkGoesOn(cfg, b, t, io);
      case _ => SeekingReads(cfg, b, t, io); SearchGoesOn(cfg, b, t, io);
    }
  }

  /** Other puts keep what they own, as records stay. */
  lemma OwnsStays(cfg: Config, b: Bucket, b': Bucket, t: PutTask, k: Version, id: nat)
    requires Owns(cfg, b, t, k, id) && Extends(b, b')
    ensures Owns(cfg, b', t, k, id)
  {
    hide Current;
  }

  lemma StaysUnwritten(cfg: Config, b: Bucket, t: PutTask, io: IO)
    requires cfg.Valid() && !t.stage.PutEnded? && Unwritten(t)
    ensures Unwritten(PutStep(cfg, b, t, io).1)
  {
    hide PutStep, Current;
    StepEffect(cfg, b, t, io);
    match t.stage {
      case Refer(version) => ReferEffect(cfg, b, t, io);
      case MoveLatest(_) => MoveGoesOn(cfg, b, t, io);
      case MarkOrphan(_) => MarkGoesOn(cfg, b, t, io);
      case Winner(_) => SearchGoesOn(cfg, b, t, io);
      case WinnerReference(_, _) => SearchGoesOn(cfg, b, t, io);
      case _ =>
    }
  }

  ghost predicate AllUnwritten(w: World) {
    forall i | 0 <= i < |w.tasks| :: w.tasks[i].Putting? && Unwritten(w.tasks[i].put)
  }

  /** An upload that stores something makes its put the owner of the new version, and takes no other from anyone. */
  lemma UploadOwns(cfg: Config, w: World, i: nat, io: IO, owners: Owners) returns (owners': Owners)
    requires cfg.Valid() && OrderlyIds(w.bucket) && BlobsOwned(cfg, w, owners) && AllUnwritten(w)
    requires i < |w.tasks| && w.tasks[i].put.stage.Upload? && !Blocked(cfg, w.bucket, w.tasks[i].put)
    ensures BlobsOwned(cfg, Apply(cfg, w, Step(i, io)), owners')
  {
    hide PutStep, OrderlyIds, Find, StackOf, Bucket.WriteBlob, Current, Blocked, Unwritten;
    var b, t := w.bucket, w.tasks[i].put;
    var k, id, blob := t.Key(cfg), b.NewId(), Blob(io.landed, t.Digest(cfg));
    StepAt(cfg, w, i, io);
    UploadStep(cfg, b, t, io);
    UploadLands(cfg, b, k, blob);
    UploadEffect(b, k, blob);
    owners' := owners[(k, id) := i];
    var w' := Apply(cfg, w, Step(i, io));
    hide Apply;
    forall j, jd: nat | Stored(w'.bucket, j, jd)
      ensures (j, jd) in owners' && OwnedBy(cfg, w', j, jd, owners'[(j, jd)])
      ensures (j, jd) != (k, id) ==> Stored(b, j, jd) && owners'[(j, jd)] != i
    {
      if (j, jd) != (k, id) {
        StoredBefore(b, k, blob, j, jd);
        var m := owners[(j, jd)];
        assert OwnedBy(cfg, w, j, jd, m);
        OwnsStays(cfg, b, w'.bucket, w.tasks[m].put, j, jd);
      }
    }
  }

  /** Another version that is stored after an upload was stored before. */
  lemma StoredBefore(b: Bucket, k: Version, blob: Blob, j: Version, jd: nat)
    requires OrderlyIds(b) && Stored(b.WriteBlob(k, blob), j, jd) && (j, jd) != (k, b.NewId())
    ensures Stored(b, j, jd)
  {
    if j == k {
      var kept := if b.versioned then StackOf(b.blobs, k) else [];
      FindAppend(kept, Entry(b.NewId(), blob), jd);
      assert StackOf(b.WriteBlob(k, blob).blobs, k) == kept + [Entry(b.NewId(), blob)];
    }
  }

  lemma StepOwns(cfg: Config, w: World, i: nat, io: IO, owners: Owners)
    requires cfg.Valid() && BlobsOwned(cfg, w, owners) && AllUnwritten(w) && Linked(cfg, w)
    requires i < |w.tasks| && !w.tasks[i].put.stage.PutEnded?
    requires w.tasks[i].put.stage.Upload? ==> Blocked(cfg, w.bucket, w.tasks[i].put)
    ensures BlobsOwned(cfg, Apply(cfg, w, Step(i, io)), owners)
  {
    hide PutStep, Find, StackOf, Current, Blocked, Unwritten, Linked, Apply, Owns, Extends;
    var b, t := w.bucket, w.tasks[i].put;
    StepAt(cfg, w, i, io);
    EventKeepsLinks(cfg, w, Step(i, io));
    SameBlobs(cfg, b, t, io);
    var w' := Apply(cfg, w, Step(i, io));
    forall j, jd: nat | Stored(w'.bucket, j, jd)
      ensures (j, jd) in owners && OwnedBy(cfg, w', j, jd, owners[(j, jd)])
    {
      assert Stored(b, j, jd) by { SameStored(b, w'.bucket, j, jd); }
      var m := owners[(j, jd)];
      assert OwnedBy(cfg, w, j, jd, m);
      if m == i {
        OwnerGoesOn(cfg, b, t, io, j, jd);
      } else {
        OwnsStays(cfg, b, w'.bucket, w.tasks[m].put, j, jd);
      }
    }
    forall j, jd: nat | Stored(w'.bucket, j, jd)
      ensures Stored(b, j, jd)
    {
      SameStored(b, w'.bucket, j, jd);
    }
  }

  lemma SameStored(b: Bucket, b': Bucket, j: Version, jd: nat)
    requires b'.blobs == b.blobs
    ensures Stored(b', j, jd) == Stored(b, j, jd)
  {
  }

  lemma SameBlobs(cfg: Config, b: Bucket, t: PutTask, io: IO)
    requires cfg.Valid() && !t.stage.PutEnded? && (t.stage.Upload? ==> Blocked(cfg, b, t))
    ensures PutStep(cfg, b, t, io).0.blobs == b.blobs
  {
    hide PutStep, Current;
    match t.stage {
      case Upload => BlockedStep(cfg, b, t, io);
      case Verify(_) => VerifyEffect(cfg, b, t, io);
      case Refer(_) => ReferEffect(cfg, b, t, io);
      case _ => QuietEffect(cfg, b, t, io);
    }
  }

  lemma EventOwns(cfg: Config, w: World, e: Event, owners: Owners) returns (owners': Owners)
    requires cfg.Valid() && OrderlyIds(w.bucket) && BlobsOwned(cfg, w, owners) && AllUnwritten(w) && Linked(cfg, w)
    requires !e.BeginDelete?
    ensures BlobsOwned(cfg, Apply(cfg, w, e), owners') && AllUnwritten(Apply(cfg, w, e))
  {
    hide PutStep, Find, StackOf, Current, Blocked, Linked, Owns, Unwritten, OrderlyIds;
    owners' := owners;
    match e {
      case BeginPut(request) =>
        StartsUnwritten(cfg, request);
        OwnersStay(cfg, w, Putting(StartPut(cfg, request)), owners);
      case Step(i, io) =>
        if i < |w.tasks| && !w.tasks[i].put.stage.PutEnded? {
          var t := w.tasks[i].put;
          StepAt(cfg, w, i, io);
          StaysUnwritten(cfg, w.bucket, t, io);
          if t.stage.Upload? && !Blocked(cfg, w.bucket, t) {
            owners' := UploadOwns(cfg, w, i, io, owners);
          } else {
            StepOwns(cfg, w, i, io, owners);
          }
          hide BlobsOwned;
        }
    }
  }

  lemma StartsUnwritten(cfg: Config, request: PutRequest)
    ensures Unwritten(StartPut(cfg, request))
  {
  }

  lemma OwnersStay(cfg: Config, w: World, t: Task, owners: Owners)
    requires BlobsOwned(cfg, w, owners)
    ensures BlobsOwned(cfg, World(w.bucket, w.tasks + [t]), owners)
  {
    hide Owns, Stored;
    var w' := World(w.bucket, w.tasks + [t]);
    forall j, jd: nat | Stored(w.bucket, j, jd)
      ensures OwnedBy(cfg, w', j, jd, owners[(j, jd)])
    {
      assert OwnedBy(cfg, w, j, jd, owners[(j, jd)]);
    }
  }

  lemma EventKeepsIds(cfg: Config, w: World, e: Event)
    requires cfg.Valid() && OrderlyIds(w.bucket)
    ensures OrderlyIds(Apply(cfg, w, e).bucket)
  {
    RunKeepsIds(cfg, w, [e]);
    assert Run(cfg, w, [e]) == Run(cfg, Apply(cfg, w, e), []);
    hide OrderlyIds, Apply;
  }

  lemma {:induction false} RunOwns(cfg: Config, w: World, events: seq<Event>, owners: Owners) returns (owners': Owners)
    requires cfg.Valid() && OrderlyIds(w.bucket) && BlobsOwned(cfg, w, owners) && AllUnwritten(w) && Linked(cfg, w)
    requires DeleteFree(events)
    ensures BlobsOwned(cfg, Run(cfg, w, events), owners')
    decreases |events|
  {
    hide OrderlyIds, BlobsOwned, AllUnwritten, Linked, Apply;
    owners' := owners;
    if events != [] {
      var between := EventOwns(cfg, w, events[0], owners);
      EventKeepsIds(cfg, w, events[0]);
      EventKeepsLinks(cfg, w, events[0]);
      assert DeleteFree(events[1..]) by { assert forall i | 0 <= i < |events| - 1 :: events[1..][i] == events[i + 1]; }
      owners' := RunOwns(cfg, Apply(cfg, w, events[0]), events[1..], between);
    }
  }

  /**
   * In every delete-free run each stored blob version belongs to a put of its key, no two to the same: a put that
   * is on its way to the record, or whose record names the version, or that failed.
   */
  lemma {:induction false} EveryBlobIsAccountedFor(cfg: Config, versioned: bool, events: seq<Event>)
      returns (owners: Owners)
    requires cfg.Valid() && DeleteFree(events)
    ensures BlobsOwned(cfg, Run(cfg, Initial(versioned), events), owners)
  {
    hide Run;
    owners := RunOwns(cfg, Initial(versioned), events, map[]);
  }

  // ---------------------------------------------------------------- records that are gone

  /** The delete has removed its record and owes the evidence, or has failed in between. */
  predicate Owes(t: DeleteTask, k: Version) {
    && t.key == k
    && match t.stage
       case Repoint(_) => true
       case HeadLatest => true
       case DropLatest(_) => true
       case Evidence => true
       case DeleteEnded(DeleteFailed(NotFound)) => true
       case _ => false
  }

  /** The delete that event `m` of the run steps, when that is task `i`. */
  ghost function CallAt(cfg: Config, w: World, events: seq<Event>, m: nat, i: nat): Option<DeleteTask>
    requires cfg.Valid()
  {
    if m < |events| && events[m].Step? && events[m].index == i then
      var tasks := Run(cfg, w, events[..m]).tasks;
      if i < |tasks| && tasks[i].Deleting? then Some(tasks[i].delete) else None
    else None
  }

  lemma {:induction false} CallsStay(cfg: Config, w: World, front: seq<Event>, e: Event, m: nat, i: nat)
    requires cfg.Valid() && m < |front|
    ensures CallAt(cfg, w, front + [e], m, i) == CallAt(cfg, w, front, m, i)
  {
    assert (front + [e])[..m] == front[..m];
  }

  /** In event `m` delete `i` drops its record of `k`. */
  ghost predicate DropsAt(cfg: Config, w: World, events: seq<Event>, m: nat, i: nat, k: Version)
    requires cfg.Valid()
  {
    var t := CallAt(cfg, w, events, m, i);
    t.Some? && t.value.stage.DropReference? && t.value.key == k
  }

  ghost predicate OwedBy(w: World, i: nat, k: Version) {
    i < |w.tasks| && w.tasks[i].Deleting? && Owes(w.tasks[i].delete, k)
  }

  /** There is evidence of the deletion, or a delete that dropped its record in the run and owes it. */
  ghost predicate Evidenced(cfg: Config, w: World, events: seq<Event>, k: Version)
    requires cfg.Valid()
  {
    var w' := Run(cfg, w, events);
    || Current(w'.bucket.deletions, k).Some?
    || exists i: nat, m: nat :: OwedBy(w', i, k) && DropsAt(cfg, w, events, m, i, k)
  }

  lemma OwesOn(b: Bucket, t: DeleteTask, io: IO, k: Version)
    requires !t.stage.DeleteEnded? && t.key == k && (Owes(t, k) || t.stage.DropReference?)
    ensures var (b', t') := DeleteStep(b, t, io); Owes(t', k) || Current(b'.deletions, k).Some?
  {
    hide Without;
  }

  lemma PutKeepsDeletions(cfg: Config, b: Bucket, t: PutTask, io: IO)
    requires cfg.Valid() && !t.stage.PutEnded?
    ensures PutStep(cfg, b, t, io).0.deletions == b.deletions
  {
    if Checks(t.stage) {
      CheckingReads(cfg, b, t, io);
      hide PutStep;
    } else if Seeks(t.stage) {
      SeekingReads(cfg, b, t, io);
      hide PutStep;
    } else {
      hide Current, StackOf, Find, ReadExact, NewEnvelope;
    }
  }

  lemma DeleteKeepsDeletions(b: Bucket, t: DeleteTask, io: IO, k: Version)
    requires !t.stage.DeleteEnded? && Current(b.deletions, k).Some?
    ensures StackOf(DeleteStep(b, t, io).0.deletions, k) == StackOf(b.deletions, k)
  {
    if t.stage.Evidence? {
      EvidenceKeepsOthers(b, t, io, k);
    } else {
      OnlyEvidenceWrites(b, t, io);
      hide DeleteStep;
    }
  }

  lemma EvidenceKeepsOthers(b: Bucket, t: DeleteTask, io: IO, k: Version)
    requires t.stage.Evidence? && Current(b.deletions, k).Some?
    ensures StackOf(DeleteStep(b, t, io).0.deletions, k) == StackOf(b.deletions, k)
  {
  }

  lemma OnlyEvidenceWrites(b: Bucket, t: DeleteTask, io: IO)
    requires !t.stage.DeleteEnded? && !t.stage.Evidence?
    ensures DeleteStep(b, t, io).0.deletions == b.deletions
  {
    hide Current, StackOf, Without, ReadExact, Releases;
  }

  lemma EvidenceStays(cfg: Config, w: World, e: Event, k: Version)
    requires cfg.Valid() && Current(w.bucket.deletions, k).Some?
    ensures StackOf(Apply(cfg, w, e).bucket.deletions, k) == StackOf(w.bucket.deletions, k)
    ensures Current(Apply(cfg, w, e).bucket.deletions, k).Some?
  {
    hide PutStep, DeleteStep, FromRequest, StackOf;
    if e.Step? && e.index < |w.tasks| {
      match w.tasks[e.index] {
        case Putting(t) => if !t.stage.PutEnded? { PutKeepsDeletions(cfg, w.bucket, t, e.io); }
        case Deleting(t) => if !t.stage.DeleteEnded? { DeleteKeepsDeletions(w.bucket, t, e.io, k); }
      }
    }
  }

  /** Whoever owes the evidence goes on owing it, or leaves it. */
  lemma OwingGoesOn(cfg: Config, w: World, e: Event, k: Version, i: nat)
    requires cfg.Valid() && OwedBy(w, i, k)
    ensures OwedBy(Apply(cfg, w, e), i, k) || Current(Apply(cfg, w, e).bucket.deletions, k).Some?
  {
    hide PutStep, DeleteStep, Current, FromRequest, Owes;
    var t := w.tasks[i].delete;
    OwesIsOf(t, k);
    if e.Step? && e.index == i && !t.stage.DeleteEnded? {
      OwesOn(w.bucket, t, e.io, k);
    }
  }

  lemma OwesIsOf(t: DeleteTask, k: Version)
    requires Owes(t, k)
    ensures t.key == k
  {
  }

  /** A record only goes by the call of a delete, which then owes the evidence. */
  lemma GoingIsOwed(cfg: Config, w: World, e: Event, k: Version)
    requires cfg.Valid()
    requires Current(w.bucket.references, k).Some? && Current(Apply(cfg, w, e).bucket.references, k).None?
    ensures e.Step? && e.index < |w.tasks| && w.tasks[e.index].Deleting?
    ensures w.tasks[e.index].delete.stage.DropReference? && w.tasks[e.index].delete.key == k
    ensures OwedBy(Apply(cfg, w, e), e.index, k) || Current(Apply(cfg, w, e).bucket.deletions, k).Some?
  {
    hide PutStep, DeleteStep, FromRequest, Owes, StackOf;
    var b, w' := w.bucket, Apply(cfg, w, e);
    if e.Step? && e.index < |w.tasks| {
      match w.tasks[e.index] {
        case Putting(t) => if !t.stage.PutEnded? { PutRemovesNothing(cfg, b, t, e.io, k); }
        case Deleting(t) =>
          if !t.stage.DeleteEnded? {
            DeleteStepReferences(b, t, e.io);
            if t.stage.DropReference? && t.key == k {
              OwesOn(b, t, e.io, k);
            } else {
              OtherReferencesStay(b, t, k);
            }
          }
      }
    }
  }

  /** What is evidenced, or owed, stays so over one more event, which may be the one that removes the record. */
  lemma {:induction false} EvidencedOn(cfg: Config, w: World, front: seq<Event>, e: Event, k: Version)
    requires cfg.Valid()
    requires var w1 := Run(cfg, w, front);
             || Evidenced(cfg, w, front, k)
             || (Current(w1.bucket.references, k).Some? && Current(Apply(cfg, w1, e).bucket.references, k).None?)
    ensures Evidenced(cfg, w, front + [e], k)
  {
    hide Current, Apply, OwedBy;
    var events, w1 := front + [e], Run(cfg, w, front);
    RunSnoc(cfg, w, front, e);
    if Current(w1.bucket.deletions, k).Some? {
      EvidenceStays(cfg, w1, e, k);
    } else if Evidenced(cfg, w, front, k) {
      var i: nat, m: nat :| OwedBy(w1, i, k) && DropsAt(cfg, w, front, m, i, k);
      OwingGoesOn(cfg, w1, e, k, i);
      CallsStay(cfg, w, front, e, m, i);
      assert DropsAt(cfg, w, events, m, i, k);
    } else {
      GoingIsOwed(cfg, w1, e, k);
      assert events[..|front|] == front;
      assert DropsAt(cfg, w, events, |front|, e.index, k);
    }
  }

  lemma {:induction false} RunSnoc(cfg: Config, w: World, front: seq<Event>, e: Event)
    requires cfg.Valid()
    ensures Run(cfg, w, front + [e]) == Apply(cfg, Run(cfg, w, front), e)
  {
    var w1 := Run(cfg, w, front);
    RunAppend(cfg, w, front, [e]);
    assert Run(cfg, w1, [e]) == Run(cfg, Apply(cfg, w1, e), []);
    hide Apply;
  }

  lemma PutRemovesNothing(cfg: Config, b: Bucket, t: PutTask, io: IO, k: Version)
    requires cfg.Valid() && !t.stage.PutEnded? && Current(b.references, k).Some?
    ensures Current(PutStep(cfg, b, t, io).0.references, k).Some?
  {
    hide PutStep, Current;
    if t.stage.Refer? {
      ReferEffect(cfg, b, t, io);
    } else {
      PutStepKeepsReferences(cfg, b, t, io);
    }
  }

  lemma OtherReferencesStay(b: Bucket, t: DeleteTask, k: Version)
    requires t.stage.DropReference? ==> t.key != k
    ensures Current((if t.stage.DropReference? then b.RemoveReference(t.key, t.stage.version) else b).references, k)
            == Current(b.references, k)
  {
    hide Without;
  }

  /** At some moment of the run the version had a record. */
  ghost predicate WasThere(cfg: Config, w: World, events: seq<Event>, k: Version)
    requires cfg.Valid()
  {
    exists n | 0 <= n <= |events| :: ThereAfter(cfg, w, events, n, k)
  }

  ghost predicate ThereAfter(cfg: Config, w: World, events: seq<Event>, n: nat, k: Version)
    requires cfg.Valid() && n <= |events|
  {
    Current(Run(cfg, w, events[..n]).bucket.references, k).Some?
  }

  /**
   * In every run of puts and deletes, a record that was there and is gone has left evidence of its deletion, or
   * there is a delete that dropped it in the run and still owes the evidence or failed in between.
   */
  lemma {:induction false} EveryRemovalIsAccountedFor(cfg: Config, w: World, events: seq<Event>, k: Version)
    requires cfg.Valid() && WasThere(cfg, w, events, k)
    ensures Current(Run(cfg, w, events).bucket.references, k).Some? || Evidenced(cfg, w, events, k)
    decreases |events|
  {
    hide Current, Evidenced, Apply;
    var n :| 0 <= n <= |events| && ThereAfter(cfg, w, events, n, k);
    if n == |events| {
      assert events[..n] == events;
    } else {
      var m := |events| - 1;
      var front := events[..m];
      assert front[..n] == events[..n] && ThereAfter(cfg, w, front, n, k);
      EveryRemovalIsAccountedFor(cfg, w, front, k);
      assert events == front + [events[m]];
      RunSnoc(cfg, w, front, events[m]);
      if Current(Run(cfg, w, events).bucket.references, k).None? {
        EvidencedOn(cfg, w, front, events[m], k);
      }
    }
  }

  // ---------------------------------------------------------------- what is written once

  /** Only the call that marks an orphan touches orphan records, and only where there is none. */
  lemma MarksOwn(cfg: Config, b: Bucket, t: PutTask, io: IO, k: Version)
    requires cfg.Valid() && !t.stage.PutEnded?
    ensures StackOf(PutStep(cfg, b, t, io).0.orphans, k) != StackOf(b.orphans, k) ==>
              t.stage.MarkOrphan? && t.Key(cfg) == k && Current(b.orphans, k).None?
  {
    hide Find, NewEnvelope, ReadExact;
  }

  lemma OrphanStays(cfg: Config, w: World, e: Event, k: Version)
    requires cfg.Valid() && Current(w.bucket.orphans, k).Some?
    ensures StackOf(Apply(cfg, w, e).bucket.orphans, k) == StackOf(w.bucket.orphans, k)
  {
    hide PutStep, DeleteStep, FromRequest, StackOf;
    if e.Step? && e.index < |w.tasks| {
      match w.tasks[e.index] {
        case Putting(t) => if !t.stage.PutEnded? { MarksOwn(cfg, w.bucket, t, e.io, k); }
        case Deleting(t) => if !t.stage.DeleteEnded? { DeleteKeepsOrphans(w.bucket, t, e.io); }
      }
    }
  }

  /** Over any run of puts and deletes an orphan record and the evidence of a deletion stay as they are, once there. */
  lemma {:induction false} WrittenOnce(cfg: Config, w: World, events: seq<Event>, k: Version)
    requires cfg.Valid()
    ensures Current(w.bucket.orphans, k).Some? ==>
              Current(Run(cfg, w, events).bucket.orphans, k) == Current(w.bucket.orphans, k)
    ensures Current(w.bucket.deletions, k).Some? ==>
              Current(Run(cfg, w, events).bucket.deletions, k) == Current(w.bucket.deletions, k)
    decreases |events|
  {
    hide Apply;
    if events != [] {
      if Current(w.bucket.orphans, k).Some? {
        OrphanStays(cfg, w, events[0], k);
      }
      if Current(w.bucket.deletions, k).Some? {
        EvidenceStays(cfg, w, events[0], k);
      }
      WrittenOnce(cfg, Apply(cfg, w, events[0]), events[1..], k);
    }
  }
}
