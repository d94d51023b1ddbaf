/**
 * When a latest pointer is safe from deletes (adapter.py, _put, _delete and _newest_version): a delete decides from
 * one read of the pointer that it will rewrite or drop it, and does so whatever the pointer has become in the
 * meantime.
 */
module Pointers {
  import opened Wrappers
  import opened Retention
  import opened Integrity
  import opened Bucket
  import opened Publication
  import opened Deletion
  import opened Accounting
  import opened Holding

  /** This version of the object's pointer is the current one. */
  ghost predicate Leads(b: Bucket, o: ObjectRef, pointer: Entry<Digest>) {
    Current(b.latest, o) == Some(pointer)
  }

  /** Rewriting the pointer to `to`, or dropping it, leaves another version of it current. */
  predicate Displaces(b: Bucket, pointer: Entry<Digest>, to: Option<Digest>) {
    b.versioned || to != Some(pointer.value)
  }

  /**
   * A delete of the object that read the pointer when it named the delete's own version, and has not yet acted
   * on that; a scan that has already answered with what the pointer is now makes it harmless.
   */
  predicate Stale(b: Bucket, t: DeleteTask, o: ObjectRef, pointer: Entry<Digest>) {
    && t.key.objectRef == o
    && match t.stage
       case LatestReference(d) => d == t.key.digest
       case Scan(wasLatest) => wasLatest
       case HeadReference(wasLatest, previous) => wasLatest && Displaces(b, pointer, previous)
       case DropBlob(wasLatest, previous, _) => wasLatest && Displaces(b, pointer, previous)
       case DropReference(wasLatest, previous, _) => wasLatest && Displaces(b, pointer, previous)
       case Repoint(to) => Displaces(b, pointer, Some(to))
       case HeadLatest => true
       case DropLatest(version) => version == pointer.id
       case _ => false
  }

  // ---------------------------------------------------------------- runs

  /** No put of the object moves its pointer, and no delete of the pointed version reads the pointer. */
  ghost predicate LeavesPointer(w: World, e: Event, o: ObjectRef, pointer: Entry<Digest>) {
    e.Step? && e.index < |w.tasks| ==>
      match w.tasks[e.index]
      case Putting(t) => t.request.objectRef == o ==> !Moves(w.bucket, t)
      case Deleting(t) => t.key == Version(o, pointer.value) ==> !t.stage.LatestPointer?
  }

  ghost predicate RunLeavesPointer(cfg: Config, w: World, events: seq<Event>, o: ObjectRef, pointer: Entry<Digest>)
    requires cfg.Valid()
    decreases |events|
  {
    || events == []
    || (LeavesPointer(w, events[0], o, pointer)
        && RunLeavesPointer(cfg, Apply(cfg, w, events[0]), events[1..], o, pointer))
  }

  // ---------------------------------------------------------------- pointer ids

  /** Ids of pointer versions are handed out once; without versioning there is one, which stands for none. */
  ghost predicate PointerIds(b: Bucket) {
    forall o, e | e in StackOf(b.latest, o) :: if b.versioned then e.id < b.next else e.id == UNVERSIONED
  }

  lemma WriteLatestKeepsIds(b: Bucket, o: ObjectRef, d: Digest)
    requires PointerIds(b)
    ensures PointerIds(b.WriteLatest(o, d))
  {
    var b' := b.WriteLatest(o, d);
    forall p, e | e in StackOf(b'.latest, p)
      ensures if b'.versioned then e.id < b'.next else e.id == UNVERSIONED
    {
      assert e in StackOf(b.latest, p) || e == Entry(b.NewId(), d);
    }
  }

  lemma RemoveLatestKeepsIds(b: Bucket, o: ObjectRef, id: nat)
    requires PointerIds(b)
    ensures PointerIds(b.RemoveLatest(o, id))
  {
    WithoutSelects(StackOf(b.latest, o), id);
    hide Without;
    var b' := b.RemoveLatest(o, id);
    forall p, e | e in StackOf(b'.latest, p)
      ensures e in StackOf(b.latest, p)
    {
    }
  }

  lemma SameLatestKeepsIds(b: Bucket, b': Bucket)
    requires PointerIds(b) && b'.latest == b.latest && b'.versioned == b.versioned && b'.next >= b.next
    ensures PointerIds(b')
  {
  }

  /** What a put's call does to the pointers. */
  lemma PutLatestEffect(cfg: Config, b: Bucket, t: PutTask, io: IO)
    requires cfg.Valid() && !t.stage.PutEnded?
    ensures var b' := PutStep(cfg, b, t, io).0;
            if Moves(b, t) then b' == b.WriteLatest(t.request.objectRef, t.Digest(cfg))
            else b'.latest == b.latest && b'.versioned == b.versioned && b'.next >= b.next
  {
    hide PutStep, Moves;
    if Checks(t.stage) {
      CheckingReads(cfg, b, t, io);
      ChecksDoNotMove(b, t);
    } else if Seeks(t.stage) {
      SeekingReads(cfg, b, t, io);
      ChecksDoNotMove(b, t);
    } else {
      WritesLatestEffect(cfg, b, t, io);
    }
  }

  lemma ChecksDoNotMove(b: Bucket, t: PutTask)
    requires Checks(t.stage) || Seeks(t.stage)
    ensures !Moves(b, t)
  {
  }

  lemma WritesLatestEffect(cfg: Config, b: Bucket, t: PutTask, io: IO)
    requires cfg.Valid() && (t.stage.Upload? || t.stage.Refer? || t.stage.MoveLatest? || t.stage.MarkOrphan?)
    ensures var b' := PutStep(cfg, b, t, io).0;
            if Moves(b, t) then b' == b.WriteLatest(t.request.objectRef, t.Digest(cfg))
            else b'.latest == b.latest && b'.versioned == b.versioned && b'.next >= b.next
  {
    hide Current, StackOf, NewEnvelope, Bucket.Pushed;
  }

  /** What a delete's call does to the pointers. */
  lemma DeleteLatestEffect(b: Bucket, t: DeleteTask, io: IO)
    requires !t.stage.DeleteEnded?
    ensures var b' := DeleteStep(b, t, io).0;
            match t.stage
            case Repoint(to) => b' == b.WriteLatest(t.key.objectRef, to)
            case DropLatest(version) => b' == b.RemoveLatest(t.key.objectRef, version)
            case _ => b'.latest == b.latest && b'.versioned == b.versioned && b'.next >= b.next
  {
    if Looks(t.stage) {
      LookingReads(b, t, io);
      hide DeleteStep;
    } else {
      hide Current, StackOf, Without, Bucket.Pushed;
    }
  }

  lemma EventKeepsPointerIds(cfg: Config, w: World, e: Event)
    requires cfg.Valid() && PointerIds(w.bucket)
    ensures PointerIds(Apply(cfg, w, e).bucket)
  {
    hide PutStep, DeleteStep, PointerIds, FromRequest, Bucket.WriteLatest, Bucket.RemoveLatest, Moves;
    var b, b' := w.bucket, Apply(cfg, w, e).bucket;
    if e.Step? && e.index < |w.tasks| {
      match w.tasks[e.index] {
        case Putting(t) =>
          if !t.stage.PutEnded? {
            PutLatestEffect(cfg, b, t, e.io);
            WriteLatestKeepsIds(b, t.request.objectRef, t.Digest(cfg));
            if !Moves(b, t) {
              SameLatestKeepsIds(b, b');
            }
          }
        case Deleting(t) =>
          if !t.stage.DeleteEnded? {
            DeleteLatestEffect(b, t, e.io);
            match t.stage {
              case Repoint(to) => WriteLatestKeepsIds(b, t.key.objectRef, to);
              case DropLatest(version) => RemoveLatestKeepsIds(b, t.key.objectRef, version);
              case _ => SameLatestKeepsIds(b, b');
            }
          }
      }
    }
  }

  lemma {:induction false} RunKeepsPointerIds(cfg: Config, w: World, events: seq<Event>)
    requires cfg.Valid() && PointerIds(w.bucket)
    ensures PointerIds(Run(cfg, w, events).bucket)
    decreases |events|
  {
    hide PointerIds, Apply;
    if events != [] {
      EventKeepsPointerIds(cfg, w, events[0]);
      RunKeepsPointerIds(cfg, Apply(cfg, w, events[0]), events[1..]);
    }
  }

  // ---------------------------------------------------------------- where no delete is stale

  lemma UntouchedKeepsPointer(b: Bucket, b': Bucket, j: Version, o: ObjectRef, pointer: Entry<Digest>)
    requires OthersUntouched(b, b', j) && j.objectRef != o && Leads(b, o, pointer)
    ensures Leads(b', o, pointer) && b'.versioned == b.versioned
  {
  }

  lemma PutStepKeepsPointer(cfg: Config, b: Bucket, t: PutTask, io: IO, o: ObjectRef, pointer: Entry<Digest>)
    requires cfg.Valid() && !t.stage.PutEnded? && Leads(b, o, pointer)
    requires t.request.objectRef == o ==> !Moves(b, t)
    ensures var b' := PutStep(cfg, b, t, io).0; Leads(b', o, pointer) && b'.versioned == b.versioned
  {
    hide PutStep, OthersUntouched, Moves;
    if t.request.objectRef == o {
      PutLatestEffect(cfg, b, t, io);
      hide StackOf;
    } else {
      PutStepTouchesOwn(cfg, b, t, io);
      UntouchedKeepsPointer(b, PutStep(cfg, b, t, io).0, t.Key(cfg), o, pointer);
      hide Leads;
    }
  }

  /** What a delete reads makes it stale only if it was before. */
  lemma LookingStaysFresh(b: Bucket, t: DeleteTask, io: IO, o: ObjectRef, pointer: Entry<Digest>)
    requires Looks(t.stage) && Leads(b, o, pointer) && t.key.objectRef == o && !Stale(b, t, o, pointer)
    requires t.key == Version(o, pointer.value) ==> !t.stage.LatestPointer?
    ensures var (b', t') := DeleteStep(b, t, io); b' == b && !Stale(b, t', o, pointer)
  {
    hide StackOf, Releases;
  }

  lemma DroppingStaysFresh(b: Bucket, t: DeleteTask, io: IO, o: ObjectRef, pointer: Entry<Digest>)
    requires t.stage.DropBlob? || t.stage.DropReference?
    requires Leads(b, o, pointer) && t.key.objectRef == o && !Stale(b, t, o, pointer)
    ensures var (b', t') := DeleteStep(b, t, io);
            Leads(b', o, pointer) && b'.versioned == b.versioned && !Stale(b', t', o, pointer)
  {
    hide StackOf, Without;
  }

  lemma PointingStaysFresh(b: Bucket, t: DeleteTask, io: IO, o: ObjectRef, pointer: Entry<Digest>)
    requires t.stage.Repoint? || t.stage.DropLatest? || t.stage.Evidence?
    requires Leads(b, o, pointer) && PointerIds(b) && t.key.objectRef == o && !Stale(b, t, o, pointer)
    ensures var (b', t') := DeleteStep(b, t, io);
            Leads(b', o, pointer) && b'.versioned == b.versioned && !Stale(b', t', o, pointer)
  {
    var s := StackOf(b.latest, o);
    assert s[|s| - 1] in s;
    if t.stage.DropLatest? {
      WithoutKeepsLast(s, t.stage.version);
    }
    hide Without;
  }

  lemma DeleteStepKeepsPointer(b: Bucket, t: DeleteTask, io: IO, o: ObjectRef, pointer: Entry<Digest>)
    requires !t.stage.DeleteEnded? && Leads(b, o, pointer) && PointerIds(b) && !Stale(b, t, o, pointer)
    requires t.key == Version(o, pointer.value) ==> !t.stage.LatestPointer?
    ensures var (b', t') := DeleteStep(b, t, io);
            Leads(b', o, pointer) && b'.versioned == b.versioned && !Stale(b', t', o, pointer)
  {
    hide DeleteStep, OthersUntouched, PointerIds;
    if t.key.objectRef != o {
      DeleteStepTouchesOwn(b, t, io);
      DeleteStepKey(b, t, io);
      UntouchedKeepsPointer(b, DeleteStep(b, t, io).0, t.key, o, pointer);
      hide Leads;
    } else if Looks(t.stage) {
      LookingStaysFresh(b, t, io, o, pointer);
      hide Stale, Current;
    } else if t.stage.DropBlob? || t.stage.DropReference? {
      DroppingStaysFresh(b, t, io, o, pointer);
      hide Stale, Leads;
    } else {
      PointingStaysFresh(b, t, io, o, pointer);
      hide Stale, Leads;
    }
  }

  ghost predicate NoneStale(w: World, o: ObjectRef, pointer: Entry<Digest>) {
    forall i | 0 <= i < |w.tasks| && w.tasks[i].Deleting? :: !Stale(w.bucket, w.tasks[i].delete, o, pointer)
  }

  lemma EventKeepsPointer(cfg: Config, w: World, e: Event, o: ObjectRef, pointer: Entry<Digest>)
    requires cfg.Valid() && Leads(w.bucket, o, pointer) && PointerIds(w.bucket) && NoneStale(w, o, pointer)
    requires LeavesPointer(w, e, o, pointer)
    ensures Leads(Apply(cfg, w, e).bucket, o, pointer) && NoneStale(Apply(cfg, w, e), o, pointer)
  {
    hide PutStep, DeleteStep, Leads, PointerIds, Displaces, FromRequest, Moves;
    if e.Step? && e.index < |w.tasks| {
      match w.tasks[e.index] {
        case Putting(t) =>
          if !t.stage.PutEnded? {
            PutStepKeepsPointer(cfg, w.bucket, t, e.io, o, pointer);
            OthersStayFresh(w, Apply(cfg, w, e), e.index, o, pointer);
          }
        case Deleting(t) =>
          if !t.stage.DeleteEnded? {
            DeleteStepKeepsPointer(w.bucket, t, e.io, o, pointer);
            OthersStayFresh(w, Apply(cfg, w, e), e.index, o, pointer);
          }
      }
    }
  }

  lemma OthersStayFresh(w: World, w': World, i: nat, o: ObjectRef, pointer: Entry<Digest>)
    requires NoneStale(w, o, pointer) && i < |w.tasks| && |w'.tasks| == |w.tasks|
    requires w'.tasks == w.tasks[i := w'.tasks[i]] && w'.bucket.versioned == w.bucket.versioned
    requires w'.tasks[i].Deleting? ==> !Stale(w'.bucket, w'.tasks[i].delete, o, pointer)
    ensures NoneStale(w', o, pointer)
  {
    forall j | 0 <= j < |w'.tasks| && w'.tasks[j].Deleting?
      ensures !Stale(w'.bucket, w'.tasks[j].delete, o, pointer)
    {
      assert j != i ==> !Stale(w.bucket, w.tasks[j].delete, o, pointer);
    }
  }

  /**
   * A pointer that no delete is stale about stays current until a put of the object moves it or a delete of its
   * version reads it, whatever records are written meanwhile and whatever scans find.
   */
  lemma {:induction false} FreshPointerStays(cfg: Config, w: World, events: seq<Event>, o: ObjectRef,
                                             pointer: Entry<Digest>)
    requires cfg.Valid() && Leads(w.bucket, o, pointer) && PointerIds(w.bucket) && NoneStale(w, o, pointer)
    requires RunLeavesPointer(cfg, w, events, o, pointer)
    ensures Leads(Run(cfg, w, events).bucket, o, pointer)
    decreases |events|
  {
    hide Leads, PointerIds, NoneStale, LeavesPointer, Apply;
    if events != [] {
      EventKeepsPointer(cfg, w, events[0], o, pointer);
      EventKeepsPointerIds(cfg, w, events[0]);
      FreshPointerStays(cfg, Apply(cfg, w, events[0]), events[1..], o, pointer);
    }
  }
}
