/**
 * The bucket as it physically is (layout.py, transport.py): one store from key strings to stacks of versions.
 * The typed bucket of the protocol stands for such a store, and every call of a put or a delete is a change of
 * one string.
 */
module Keys {
  import opened Wrappers
  import opened Retention
  import opened Bucket
  import opened Publication
  import opened Deletion
  import opened Interleaving
  import opened Holding
  import Integrity
  import Layout

  datatype Content =
    | Blobs(blobs: seq<Entry<Blob>>)
    | Records(records: seq<Entry<Envelope>>)
    | Pointers(pointers: seq<Entry<Integrity.Digest>>)
    | Orphans(orphans: seq<Entry<string>>)
    | Deletions(deletions: seq<Entry<int>>)
    | Document(text: string)

  type Store = map<string, Content>

  function ContentAt(store: Store, s: string): Option<Content> {
    if s in store then Some(store[s]) else None
  }

  function Rewritten(store: Store, s: string, content: Option<Content>): Store {
    if content.Some? then store[s := content.value] else store - {s}
  }

  // ---------------------------------------------------------------- typed keys

  /** The key families that puts and deletes use. */
  predicate Protocol(key: Layout.Key) {
    key.Blob? || key.Reference? || key.Latest? || key.Orphan? || key.Deletion?
  }

  function ObjectAt(key: Layout.Key): ObjectRef
    requires Protocol(key)
  {
    ObjectRef(key.resource, key.objectId)
  }

  function VersionAt(key: Layout.Key): Version
    requires Protocol(key) && !key.Latest?
  {
    Version(ObjectAt(key), Layout.DIGEST_PREFIX + key.hex)
  }

  /** A key without versions is absent. */
  function Present(content: Content): Option<Content> {
    var empty := match content
                 case Blobs(s) => s == []
                 case Records(s) => s == []
                 case Pointers(s) => s == []
                 case Orphans(s) => s == []
                 case Deletions(s) => s == []
                 case Document(_) => false;
    if empty then None else Some(content)
  }

  /** What the typed bucket holds for a key. */
  function Contents(b: Bucket, key: Layout.Key): Option<Content> {
    match key
    case Blob(_, _, _) => Present(Blobs(StackOf(b.blobs, VersionAt(key))))
    case Reference(_, _, _) => Present(Records(StackOf(b.references, VersionAt(key))))
    case Latest(_, _) => Present(Pointers(StackOf(b.latest, ObjectAt(key))))
    case Orphan(_, _, _) => Present(Orphans(StackOf(b.orphans, VersionAt(key))))
    case Deletion(_, _, _) => Present(Deletions(StackOf(b.deletions, VersionAt(key))))
    case _ => None
  }

  /** The object's names are in use, and the digest is well formed. */
  ghost predicate Addressable(names: set<string>, k: Version) {
    k.objectRef.resource in names && k.objectRef.id in names && Layout.DigestHex(k.digest).Some?
  }

  /** The keys of one version, and the pointer of its object. */
  function OwnKeys(k: Version): (keys: set<Layout.Key>)
    requires Layout.DigestHex(k.digest).Some?
  {
    var o, hex := k.objectRef, Layout.DigestHex(k.digest).value;
    {Layout.Blob(o.resource, o.id, hex), Layout.Reference(o.resource, o.id, hex), Layout.Latest(o.resource, o.id),
     Layout.Orphan(o.resource, o.id, hex), Layout.Deletion(o.resource, o.id, hex)}
  }

  ghost predicate InUse(layout: Layout.Layout, names: set<string>, key: Layout.Key) {
    layout.WellFormed(key) && layout.Names(key) <= names
  }

  lemma OwnInUse(layout: Layout.Layout, names: set<string>, k: Version, key: Layout.Key)
    requires Addressable(names, k) && key in OwnKeys(k)
    ensures Protocol(key) && InUse(layout, names, key) && ObjectAt(key) == k.objectRef
    ensures !key.Latest? ==> VersionAt(key) == k
  {
    hide Layout.DigestHex;
  }

  // ---------------------------------------------------------------- what a typed bucket stands for

  /** Strings below the layout's root. The store may hold anything elsewhere. */
  predicate UnderRoot(layout: Layout.Layout, s: string) {
    layout.root + "/" <= s
  }

  /**
   * The strings of the layout hold exactly what the typed bucket holds for their keys, and whatever else is
   * stored below the layout's root is a key of the layout too.
   */
  ghost predicate Represents(layout: Layout.Layout, names: set<string>, store: Store, b: Bucket) {
    && (forall key | Protocol(key) && InUse(layout, names, key) ::
          ContentAt(store, layout.Render(key)) == Contents(b, key))
    && (forall s | s in store && UnderRoot(layout, s) ::
          exists key :: InUse(layout, names, key) && s == layout.Render(key))
    && (forall k | StackOf(b.references, k) != [] :: Addressable(names, k))
  }

  lemma KeysAreUnderRoot(layout: Layout.Layout, key: Layout.Key)
    ensures UnderRoot(layout, layout.Render(key))
  {
    hide Layout.Layout.Body;
    assert layout.Family(key)[..1] == "/";
    assert layout.root + "/" == (layout.root + layout.Family(key))[..|layout.root| + 1];
  }

  /** A store with nothing below the root stands for the empty bucket, whatever it holds elsewhere. */
  lemma EmptyIsRepresented(layout: Layout.Layout, names: set<string>, versioned: bool, store: Store)
    requires forall s | s in store :: !UnderRoot(layout, s)
    ensures Represents(layout, names, store, Empty(versioned))
  {
    hide Layout.Layout.Render, UnderRoot;
    forall key | Protocol(key)
      ensures layout.Render(key) !in store
    {
      KeysAreUnderRoot(layout, key);
    }
  }

  /** The two buckets hold the same, up to one key. */
  ghost predicate OnlyAt(b: Bucket, b': Bucket, key: Layout.Key) {
    && (forall other | Protocol(other) && other != key :: Contents(b', other) == Contents(b, other))
    && (forall k | key.Reference? ==> Protocol(key) && VersionAt(key) != k ::
          StackOf(b'.references, k) == StackOf(b.references, k))
  }

  /** A change of one typed key is a change of the one string that it renders to. */
  lemma ChangeIsOneString(layout: Layout.Layout, names: set<string>, store: Store, b: Bucket, b': Bucket,
                          key: Layout.Key)
    requires layout.Valid() && layout.Distinguishes(names) && Represents(layout, names, store, b)
    requires Protocol(key) && InUse(layout, names, key) && OnlyAt(b, b', key)
    ensures Represents(layout, names, Rewritten(store, layout.Render(key), Contents(b', key)), b')
  {
    hide Contents, Layout.Layout.Render, Layout.Layout.Valid, Layout.Layout.Distinguishes, Addressable;
    var store' := Rewritten(store, layout.Render(key), Contents(b', key));
    forall other | Protocol(other) && InUse(layout, names, other)
      ensures ContentAt(store', layout.Render(other)) == Contents(b', other)
    {
      if layout.Render(other) == layout.Render(key) {
        layout.RenderInjective(names, other, key);
      }
    }
    forall k | StackOf(b'.references, k) != []
      ensures Addressable(names, k)
    {
      if key.Reference? && VersionAt(key) == k {
        ReferenceAddressable(layout, names, key);
      } else {
        assert StackOf(b.references, k) != [];
      }
    }
  }

  lemma ReferenceAddressable(layout: Layout.Layout, names: set<string>, key: Layout.Key)
    requires key.Reference? && InUse(layout, names, key)
    ensures Addressable(names, VersionAt(key))
  {
    assert VersionAt(key).digest == Layout.DIGEST_PREFIX + key.hex;
  }

  // ---------------------------------------------------------------- one call, one string

  /** Every key family but that of `key` is as before. */
  ghost predicate SameFamilies(b: Bucket, b': Bucket, key: Layout.Key) {
    && (key.Blob? || b'.blobs == b.blobs) && (key.Reference? || b'.references == b.references)
    && (key.Latest? || b'.latest == b.latest) && (key.Orphan? || b'.orphans == b.orphans)
    && (key.Deletion? || b'.deletions == b.deletions)
  }

  lemma SameKey(key: Layout.Key, other: Layout.Key)
    requires Protocol(key) && Protocol(other)
    requires key.Blob? == other.Blob? && key.Reference? == other.Reference? && key.Latest? == other.Latest?
        && key.Orphan? == other.Orphan?
    requires if key.Latest? then ObjectAt(key) == ObjectAt(other) else VersionAt(key) == VersionAt(other)
    ensures key == other
  {
    if !key.Latest? {
      var n := |Layout.DIGEST_PREFIX|;
      assert key.hex == VersionAt(key).digest[n..] && other.hex == VersionAt(other).digest[n..];
    }
  }

  lemma OwnChange(b: Bucket, b': Bucket, names: set<string>, layout: Layout.Layout, k: Version, key: Layout.Key)
    requires Addressable(names, k) && key in OwnKeys(k) && OthersUntouched(b, b', k) && SameFamilies(b, b', key)
    ensures OnlyAt(b, b', key)
  {
    OwnInUse(layout, names, k, key);
    hide StackOf, Addressable, OwnKeys, InUse;
    forall other | Protocol(other) && other != key
      ensures Contents(b', other) == Contents(b, other)
    {
      SameStack(b, b', k, key, other);
    }
  }

  lemma SameStack(b: Bucket, b': Bucket, k: Version, key: Layout.Key, other: Layout.Key)
    requires Protocol(key) && Protocol(other) && other != key
    requires ObjectAt(key) == k.objectRef && (!key.Latest? ==> VersionAt(key) == k)
    requires OthersUntouched(b, b', k) && SameFamilies(b, b', key)
    ensures Contents(b', other) == Contents(b, other)
  {
    if key.Blob? == other.Blob? && key.Reference? == other.Reference? && key.Latest? == other.Latest?
       && key.Orphan? == other.Orphan? {
      if if key.Latest? then ObjectAt(key) == ObjectAt(other) else VersionAt(key) == VersionAt(other) {
        SameKey(key, other);
        assert false;
      }
    }
  }

  /** The key that a call of a put writes. */
  function PutKey(cfg: Config, t: PutTask): (key: Layout.Key)
    requires Layout.DigestHex(t.Digest(cfg)).Some?
    ensures key in OwnKeys(t.Key(cfg))
    ensures (key.Reference? <==> t.stage.Refer?) && (key.Latest? <==> t.stage.MoveLatest?)
            && (key.Orphan? <==> t.stage.MarkOrphan?) && !key.Deletion? && Protocol(key)
  {
    var o, hex := t.request.objectRef, Layout.DigestHex(t.Digest(cfg)).value;
    match t.stage
    case Refer(_) => Layout.Reference(o.resource, o.id, hex)
    case MoveLatest(_) => Layout.Latest(o.resource, o.id)
    case MarkOrphan(_) => Layout.Orphan(o.resource, o.id, hex)
    case _ => Layout.Blob(o.resource, o.id, hex)
  }

  /** The key that a call of a delete writes or removes. */
  function DeleteKey(t: DeleteTask): (key: Layout.Key)
    requires Layout.DigestHex(t.key.digest).Some?
    ensures key in OwnKeys(t.key)
    ensures (key.Reference? <==> t.stage.DropReference?) && (key.Latest? <==> t.stage.Repoint? || t.stage.DropLatest?)
            && (key.Deletion? <==> t.stage.Evidence?) && !key.Orphan? && Protocol(key)
  {
    var o, hex := t.key.objectRef, Layout.DigestHex(t.key.digest).value;
    match t.stage
    case DropReference(_, _, _) => Layout.Reference(o.resource, o.id, hex)
    case Repoint(_) => Layout.Latest(o.resource, o.id)
    case DropLatest(_) => Layout.Latest(o.resource, o.id)
    case Evidence => Layout.Deletion(o.resource, o.id, hex)
    case _ => Layout.Blob(o.resource, o.id, hex)
  }

  lemma PutStepFamilies(cfg: Config, b: Bucket, t: PutTask, io: IO)
    requires cfg.Valid() && !t.stage.PutEnded? && Layout.DigestHex(t.Digest(cfg)).Some?
    ensures SameFamilies(b, PutStep(cfg, b, t, io).0, PutKey(cfg, t))
  {
    hide PutStep, Layout.DigestHex, OwnKeys, PutKey;
    if Checks(t.stage) {
      CheckingReads(cfg, b, t, io);
    } else if Seeks(t.stage) {
      SeekingReads(cfg, b, t, io);
    } else {
      PutWritesOneFamily(cfg, b, t, io);
    }
  }

  lemma PutWritesOneFamily(cfg: Config, b: Bucket, t: PutTask, io: IO)
    requires cfg.Valid() && (t.stage.Upload? || t.stage.Refer? || t.stage.MoveLatest? || t.stage.MarkOrphan?)
    ensures var b' := PutStep(cfg, b, t, io).0;
            && (t.stage.Upload? || b'.blobs == b.blobs) && (t.stage.Refer? || b'.references == b.references)
            && (t.stage.MoveLatest? || b'.latest == b.latest) && (t.stage.MarkOrphan? || b'.orphans == b.orphans)
            && b'.deletions == b.deletions
  {
    hide Current, StackOf, NewEnvelope;
    hide Bucket.WriteBlob, Bucket.WriteReference, Bucket.WriteLatest, Bucket.WriteOrphan;
    var k := t.Key(cfg);
    match t.stage {
      case Upload => BlobFamily(b, k, Blob(io.landed, k.digest), 0);
      case Refer(version) => ReferenceFamily(b, k, NewEnvelope(cfg, t, version, io.now));
      case MoveLatest(_) => LatestFamily(b, k.objectRef, k.digest, 0);
      case MarkOrphan(_) => EvidenceFamily(b, k, "latest-conflict", 0);
    }
  }

  lemma BlobFamily(b: Bucket, k: Version, blob: Blob, id: nat)
    ensures var b' := b.WriteBlob(k, blob); SameButBlobs(b, b')
    ensures var b' := b.RemoveBlob(k, id); SameButBlobs(b, b')
  {
    hide StackOf;
  }

  predicate SameButBlobs(b: Bucket, b': Bucket) {
    b'.references == b.references && b'.latest == b.latest && b'.orphans == b.orphans && b'.deletions == b.deletions
  }

  lemma ReferenceFamily(b: Bucket, k: Version, envelope: Envelope)
    ensures var b' := b.WriteReference(k, envelope); SameButReferences(b, b')
  {
    hide StackOf;
  }

  lemma ReferenceDropFamily(b: Bucket, k: Version, id: nat)
    ensures var b' := b.RemoveReference(k, id); SameButReferences(b, b')
  {
    hide StackOf;
  }

  predicate SameButReferences(b: Bucket, b': Bucket) {
    b'.blobs == b.blobs && b'.latest == b.latest && b'.orphans == b.orphans && b'.deletions == b.deletions
  }

  lemma LatestFamily(b: Bucket, o: ObjectRef, d: Integrity.Digest, id: nat)
    ensures var b' := b.WriteLatest(o, d); SameButLatest(b, b')
    ensures var b' := b.RemoveLatest(o, id); SameButLatest(b, b')
  {
    hide StackOf;
  }

  predicate SameButLatest(b: Bucket, b': Bucket) {
    b'.blobs == b.blobs && b'.references == b.references && b'.orphans == b.orphans && b'.deletions == b.deletions
  }

  lemma EvidenceFamily(b: Bucket, k: Version, reason: string, now: int)
    ensures var b' := b.WriteOrphan(k, reason);
            b'.blobs == b.blobs && b'.references == b.references && b'.latest == b.latest && b'.deletions == b.deletions
    ensures var b' := b.WriteDeletion(k, now);
            b'.blobs == b.blobs && b'.references == b.references && b'.latest == b.latest && b'.orphans == b.orphans
  {
    hide StackOf;
  }

  lemma DeleteStepFamilies(b: Bucket, t: DeleteTask, io: IO)
    requires !t.stage.DeleteEnded? && Layout.DigestHex(t.key.digest).Some?
    ensures SameFamilies(b, DeleteStep(b, t, io).0, DeleteKey(t))
  {
    hide DeleteStep, Layout.DigestHex, OwnKeys, DeleteKey;
    if Looks(t.stage) {
      LookingReads(b, t, io);
    } else {
      DeleteWritesOneFamily(b, t, io);
    }
  }

  lemma DeleteWritesOneFamily(b: Bucket, t: DeleteTask, io: IO)
    requires !t.stage.DeleteEnded? && !Looks(t.stage)
    ensures var b' := DeleteStep(b, t, io).0;
            && (t.stage.DropBlob? || b'.blobs == b.blobs) && (t.stage.DropReference? || b'.references == b.references)
            && (t.stage.Repoint? || t.stage.DropLatest? || b'.latest == b.latest)
            && b'.orphans == b.orphans && (t.stage.Evidence? || b'.deletions == b.deletions)
  {
    hide Current, StackOf;
    hide Bucket.RemoveBlob, Bucket.RemoveReference, Bucket.WriteLatest, Bucket.RemoveLatest, Bucket.WriteDeletion;
    var k := t.key;
    match t.stage {
      case DropBlob(_, _, _) => if t.envelope.Some? { BlobFamily(b, k, Blob([], ""), t.envelope.value.blobVersion); }
      case DropReference(_, _, version) => ReferenceDropFamily(b, k, version);
      case Repoint(to) => LatestFamily(b, k.objectRef, to, 0);
      case DropLatest(version) => LatestFamily(b, k.objectRef, "", version);
      case Evidence => EvidenceFamily(b, k, "", io.now);
    }
  }

  // ---------------------------------------------------------------- runs

  function VersionOfTask(cfg: Config, t: Task): Version {
    match t
    case Putting(put) => put.Key(cfg)
    case Deleting(delete) => delete.key
  }

  ghost predicate TasksAddressable(cfg: Config, names: set<string>, w: World) {
    forall i | 0 <= i < |w.tasks| :: Addressable(names, VersionOfTask(cfg, w.tasks[i]))
  }

  ghost predicate EventAddressable(cfg: Config, names: set<string>, e: Event) {
    match e
    case BeginPut(request) => Addressable(names, Version(request.objectRef, cfg.hash(request.payload)))
    case BeginDelete(key) => Addressable(names, key)
    case Step(_, _) => true
  }

  /** The string of a key of the version, or of its object's pointer. */
  ghost predicate OwnString(layout: Layout.Layout, k: Version, s: string) {
    Layout.DigestHex(k.digest).Some? && exists key | key in OwnKeys(k) :: s == layout.Render(key)
  }

  /** Two versions share no string but the pointer of an object that both belong to. */
  lemma OwnStringsApart(layout: Layout.Layout, names: set<string>, j: Version, k: Version, s: string)
    requires layout.Valid() && layout.Distinguishes(names) && Addressable(names, j) && Addressable(names, k) && j != k
    ensures OwnString(layout, j, s) && OwnString(layout, k, s) <==>
            j.objectRef == k.objectRef && s == layout.Render(Layout.Latest(k.objectRef.resource, k.objectRef.id))
  {
    hide Layout.DigestHex, Layout.Layout.Render, Layout.Layout.Valid, Layout.Layout.Distinguishes;
    AddressableMeans(names, j);
    AddressableMeans(names, k);
    if OwnString(layout, j, s) && OwnString(layout, k, s) {
      var key :| key in OwnKeys(j) && s == layout.Render(key);
      var key' :| key' in OwnKeys(k) && s == layout.Render(key');
      OwnInUse(layout, names, j, key);
      OwnInUse(layout, names, k, key');
      layout.RenderInjective(names, key, key');
    }
    hide OwnKeys;
    if j.objectRef == k.objectRef && s == layout.Render(Layout.Latest(k.objectRef.resource, k.objectRef.id)) {
      PointerIsOwn(j);
      PointerIsOwn(k);
    }
  }

  lemma PointerIsOwn(k: Version)
    requires Layout.DigestHex(k.digest).Some?
    ensures Layout.Latest(k.objectRef.resource, k.objectRef.id) in OwnKeys(k)
  {
  }

  lemma StepKeepsVersion(cfg: Config, b: Bucket, t: PutTask, io: IO)
    requires cfg.Valid() && !t.stage.PutEnded?
    ensures PutStep(cfg, b, t, io).1.Key(cfg) == t.Key(cfg)
  {
    hide Current, StackOf, ReadExact, NewEnvelope, Find;
  }

  /** The call is the change of one string, a key of the task's own. */
  lemma TaskChangesOneString(layout: Layout.Layout, names: set<string>, cfg: Config, w: World, i: nat, io: IO,
                             store: Store)
    returns (store': Store, key: Layout.Key)
    requires cfg.Valid() && layout.Valid() && layout.Distinguishes(names) && Represents(layout, names, store, w.bucket)
    requires i < |w.tasks| && Addressable(names, VersionOfTask(cfg, w.tasks[i]))
    ensures key in OwnKeys(VersionOfTask(cfg, w.tasks[i]))
    ensures var b' := Apply(cfg, w, Step(i, io)).bucket;
            Represents(layout, names, store', b')
            && (store' == store || store' == Rewritten(store, layout.Render(key), Contents(b', key)))
    ensures var w' := Apply(cfg, w, Step(i, io));
            |w'.tasks| == |w.tasks| && (forall j | 0 <= j < |w.tasks| ::
                                          VersionOfTask(cfg, w'.tasks[j]) == VersionOfTask(cfg, w.tasks[j]))
  {
    hide PutStep, DeleteStep, Represents, OwnKeys, Addressable, OnlyAt, Contents, SameFamilies, OthersUntouched, PutKey,
        DeleteKey;
    hide Layout.Layout.Valid, Layout.Layout.Distinguishes, Layout.Layout.Render, Layout.DigestHex;
    var k, b' := VersionOfTask(cfg, w.tasks[i]), Apply(cfg, w, Step(i, io)).bucket;
    assert Layout.DigestHex(k.digest).Some? by { AddressableMeans(names, k); }
    store' := store;
    match w.tasks[i] {
      case Putting(t) =>
        key := PutKey(cfg, t);
        if t.stage.PutEnded? {
          return;
        }
        PutStepTouchesOwn(cfg, w.bucket, t, io);
        PutStepFamilies(cfg, w.bucket, t, io);
        StepKeepsVersion(cfg, w.bucket, t, io);
      case Deleting(t) =>
        key := DeleteKey(t);
        if t.stage.DeleteEnded? {
          return;
        }
        DeleteStepTouchesOwn(w.bucket, t, io);
        DeleteStepFamilies(w.bucket, t, io);
        DeleteStepKey(w.bucket, t, io);
    }
    OwnInUse(layout, names, k, key);
    OwnChange(w.bucket, b', names, layout, k, key);
    ChangeIsOneString(layout, names, store, w.bucket, b', key);
    store' := Rewritten(store, layout.Render(key), Contents(b', key));
  }

  lemma AddressableMeans(names: set<string>, k: Version)
    requires Addressable(names, k)
    ensures Layout.DigestHex(k.digest).Some?
  {
  }

  /** Tasks keep their versions, and new ones may have joined. */
  ghost predicate TasksGrow(cfg: Config, w: World, w': World) {
    |w.tasks| <= |w'.tasks|
    && forall i | 0 <= i < |w.tasks| :: VersionOfTask(cfg, w'.tasks[i]) == VersionOfTask(cfg, w.tasks[i])
  }

  /** The two stores hold the same outside the strings of the tasks' own versions. */
  ghost predicate OnlyOwnStrings(layout: Layout.Layout, cfg: Config, w: World, store: Store, store': Store) {
    forall s | !(exists i | 0 <= i < |w.tasks| :: OwnString(layout, VersionOfTask(cfg, w.tasks[i]), s)) ::
      ContentAt(store', s) == ContentAt(store, s)
  }

  lemma EventChangesOwnStrings(layout: Layout.Layout, names: set<string>, cfg: Config, w: World, e: Event, store: Store)
    returns (store': Store)
    requires cfg.Valid() && layout.Valid() && layout.Distinguishes(names) && Represents(layout, names, store, w.bucket)
    requires TasksAddressable(cfg, names, w) && EventAddressable(cfg, names, e)
    ensures var w' := Apply(cfg, w, e);
            && Represents(layout, names, store', w'.bucket) && TasksAddressable(cfg, names, w') && TasksGrow(cfg, w, w')
            && OnlyOwnStrings(layout, cfg, w', store, store')
  {
    hide PutStep, DeleteStep, Represents, OwnKeys, Addressable, Contents, FromRequest;
    hide Layout.Layout.Valid, Layout.Layout.Distinguishes, Layout.Layout.Render, Layout.DigestHex;
    store' := store;
    if e.Step? && e.index < |w.tasks| {
      var key;
      store', key := TaskChangesOneString(layout, names, cfg, w, e.index, e.io, store);
      var k := VersionOfTask(cfg, w.tasks[e.index]);
      AddressableMeans(names, k);
      assert OwnString(layout, k, layout.Render(key));
      assert VersionOfTask(cfg, Apply(cfg, w, e).tasks[e.index]) == k;
    }
  }

  /**
   * Whatever interleaved puts and deletes do, the store changes only at the strings of their own versions, and
   * goes on holding exactly what the typed bucket says.
   */
  lemma {:induction false} RunChangesOwnStrings(layout: Layout.Layout, names: set<string>, cfg: Config, w: World,
                                                events: seq<Event>, store: Store)
    returns (store': Store)
    requires cfg.Valid() && layout.Valid() && layout.Distinguishes(names) && Represents(layout, names, store, w.bucket)
    requires TasksAddressable(cfg, names, w) && forall e | e in events :: EventAddressable(cfg, names, e)
    ensures var w' := Run(cfg, w, events);
            && Represents(layout, names, store', w'.bucket) && TasksAddressable(cfg, names, w') && TasksGrow(cfg, w, w')
            && OnlyOwnStrings(layout, cfg, w', store, store')
    decreases |events|
  {
    hide Represents, OwnString, Addressable, Apply, EventAddressable, VersionOfTask;
    hide Layout.Layout.Valid, Layout.Layout.Distinguishes, Layout.Layout.Render, Layout.DigestHex;
    if events == [] {
      store' := store;
    } else {
      assert EventAddressable(cfg, names, events[0]);
      var between := EventChangesOwnStrings(layout, names, cfg, w, events[0], store);
      var w1 := Apply(cfg, w, events[0]);
      store' := RunChangesOwnStrings(layout, names, cfg, w1, events[1..], between);
      OwnStringsStay(layout, cfg, w1, Run(cfg, w1, events[1..]), store, between);
    }
  }

  lemma OwnStringsStay(layout: Layout.Layout, cfg: Config, w: World, w': World, store: Store, store': Store)
    requires TasksGrow(cfg, w, w') && OnlyOwnStrings(layout, cfg, w, store, store')
    ensures OnlyOwnStrings(layout, cfg, w', store, store')
  {
    hide OwnString, VersionOfTask;
    forall s | !(exists i | 0 <= i < |w'.tasks| :: OwnString(layout, VersionOfTask(cfg, w'.tasks[i]), s))
      ensures ContentAt(store', s) == ContentAt(store, s)
    {
      forall i | 0 <= i < |w.tasks|
        ensures !OwnString(layout, VersionOfTask(cfg, w.tasks[i]), s)
      {
        assert VersionOfTask(cfg, w'.tasks[i]) == VersionOfTask(cfg, w.tasks[i]);
      }
    }
  }

  /** Puts and deletes of other objects leave every string of an object alone. */
  lemma {:induction false} ObjectsKeepApart(layout: Layout.Layout, names: set<string>, cfg: Config, w: World,
                                            events: seq<Event>, store: Store, o: ObjectRef)
    returns (store': Store)
    requires cfg.Valid() && layout.Valid() && layout.Distinguishes(names) && Represents(layout, names, store, w.bucket)
    requires TasksAddressable(cfg, names, w) && forall e | e in events :: EventAddressable(cfg, names, e)
    requires Elsewhere(cfg, w, events, o)
    ensures Represents(layout, names, store', Run(cfg, w, events).bucket)
    ensures forall key | Protocol(key) && InUse(layout, names, key) && ObjectAt(key) == o ::
              ContentAt(store', layout.Render(key)) == ContentAt(store, layout.Render(key))
  {
    store' := RunChangesOwnStrings(layout, names, cfg, w, events, store);
    OthersDoNotDisturb(cfg, w, events, o, None);
    var b, b' := w.bucket, Run(cfg, w, events).bucket;
    hide Run, Elsewhere, Stat, StackOf, InUse, Layout.Layout.Render, OnlyOwnStrings, TasksAddressable, EventAddressable,
        Addressable;
    hide Contents, SameObject;
    forall key | Protocol(key) && InUse(layout, names, key) && ObjectAt(key) == o
      ensures ContentAt(store', layout.Render(key)) == ContentAt(store, layout.Render(key))
    {
      SameObjectContents(b, b', o, key);
      assert ContentAt(store, layout.Render(key)) == Contents(b, key);
    }
  }

  lemma SameObjectContents(b: Bucket, b': Bucket, o: ObjectRef, key: Layout.Key)
    requires SameObject(b, b', o) && Protocol(key) && ObjectAt(key) == o
    ensures Contents(b', key) == Contents(b, key)
  {
    hide StackOf;
  }

  /**
   * Whatever a run of puts and deletes makes of an empty bucket is the content of a flat store, in which every
   * string outside the root is as it was.
   */
  lemma {:induction false} ReachableIsRepresented(layout: Layout.Layout, names: set<string>, cfg: Config,
                                                  versioned: bool, events: seq<Event>, store: Store)
    returns (store': Store)
    requires cfg.Valid() && layout.Valid() && layout.Distinguishes(names)
    requires forall s | s in store :: !UnderRoot(layout, s)
    requires forall e | e in events :: EventAddressable(cfg, names, e)
    ensures var b := Run(cfg, Initial(versioned), events).bucket;
            Represents(layout, names, store', b) && RecordsNamed(b)
    ensures forall s | !UnderRoot(layout, s) :: ContentAt(store', s) == ContentAt(store, s)
  {
    EmptyIsRepresented(layout, names, versioned, store);
    store' := RunChangesOwnStrings(layout, names, cfg, Initial(versioned), events, store);
    RunIdentified(cfg, Initial(versioned), events);
    IdentifiedIsNamed(Run(cfg, Initial(versioned), events).bucket);
    hide Represents, Run, UnderRoot, ContentAt, VersionOfTask, OwnString;
    var w := Run(cfg, Initial(versioned), events);
    forall s | !UnderRoot(layout, s)
      ensures ContentAt(store', s) == ContentAt(store, s)
    {
      forall i | 0 <= i < |w.tasks|
        ensures !OwnString(layout, VersionOfTask(cfg, w.tasks[i]), s)
      {
        OwnIsUnderRoot(layout, VersionOfTask(cfg, w.tasks[i]), s);
      }
    }
  }

  lemma OwnIsUnderRoot(layout: Layout.Layout, k: Version, s: string)
    ensures OwnString(layout, k, s) ==> UnderRoot(layout, s)
  {
    hide Layout.Layout.Render, UnderRoot, Layout.DigestHex;
    if OwnString(layout, k, s) {
      var key :| key in OwnKeys(k) && s == layout.Render(key);
      KeysAreUnderRoot(layout, key);
    }
  }

  lemma IdentifiedIsNamed(b: Bucket)
    requires Identified(b)
    ensures RecordsNamed(b)
  {
  }
}
