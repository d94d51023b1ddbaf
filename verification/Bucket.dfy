/**
 * The bucket as the transport's steps see it (transport.py): per key a stack of versions, of which
 * the last one is current. An unversioned bucket keeps one version, whose id stands for
 * "no version id". Each key family of the layout has its own map.
 */
module Bucket {
  import opened Wrappers
  import opened Streams
  import opened Integrity
  import opened Retention

  datatype ObjectRef = ObjectRef(resource: string, id: string)

  datatype Version = Version(objectRef: ObjectRef, digest: Digest)

  datatype Attributes = Attributes(
    mediaType: string,
    userMetadata: map<string, string>,
    creationContext: map<string, string>,
    provenance: map<string, string>)

  datatype Metadata = Metadata(
    objectRef: ObjectRef,
    digest: Digest,
    length: nat,
    createdAt: int,
    immutable: bool,
    attributes: Attributes)

  datatype Envelope = Envelope(
    metadata: Metadata,
    blobVersion: nat,
    retention: Option<RetentionRecord>,
    chunkBytes: nat,
    chunkDigests: seq<Digest>)

  /** Stored bytes with the digest kept beside them as user metadata. */
  datatype Blob = Blob(content: bytes, tag: Digest)

  // ---------------------------------------------------------------- version stacks

  datatype Entry<T> = Entry(id: nat, value: T)

  const UNVERSIONED: nat := 0

  function StackOf<K, T>(m: map<K, seq<Entry<T>>>, k: K): seq<Entry<T>> {
    if k in m then m[k] else []
  }

  function Current<K, T>(m: map<K, seq<Entry<T>>>, k: K): Option<Entry<T>> {
    var s := StackOf(m, k);
    if s == [] then None else Some(s[|s| - 1])
  }

  function Find<T>(s: seq<Entry<T>>, id: nat): Option<T> {
    if s == [] then None
    else if s[0].id == id then Some(s[0].value)
    else Find(s[1..], id)
  }

  /** Deleting by version; an unknown version is no error. */
  function Without<T>(s: seq<Entry<T>>, id: nat): seq<Entry<T>> {
    if s == [] then []
    else if s[0].id == id then Without(s[1..], id)
    else [s[0]] + Without(s[1..], id)
  }

  lemma {:induction false} FindAppend<T>(s: seq<Entry<T>>, e: Entry<T>, id: nat)
    ensures Find(s + [e], id) == if Find(s, id).Some? then Find(s, id) else if e.id == id then Some(e.value) else None
  {
    if s == [] {
      assert [] + [e] == [e];
    } else {
      assert (s + [e])[1..] == s[1..] + [e];
      FindAppend(s[1..], e, id);
    }
  }

  ghost predicate IdsBelow<T>(s: seq<Entry<T>>, bound: nat) {
    forall i | 0 <= i < |s| :: s[i].id < bound
  }

  lemma {:induction false} FindOnlyStored<T>(s: seq<Entry<T>>, id: nat, bound: nat)
    requires IdsBelow(s, bound)
    ensures id >= bound ==> Find(s, id).None?
  {
    if s != [] {
      FindOnlyStored(s[1..], id, bound);
    }
  }

  lemma {:induction false} WithoutHas<T>(s: seq<Entry<T>>, id: nat, e: Entry<T>)
    ensures e in Without(s, id) <==> e in s && e.id != id
  {
    if s != [] {
      WithoutHas(s[1..], id, e);
      assert s == [s[0]] + s[1..];
    }
  }

  lemma {:induction false} FindWithout<T>(s: seq<Entry<T>>, gone: nat, id: nat)
    ensures Find(Without(s, gone), id) == if id == gone then None else Find(s, id)
  {
    if s != [] {
      FindWithout(s[1..], gone, id);
    }
  }

  datatype Bucket = Bucket(
    versioned: bool,
    next: nat,
    blobs: map<Version, seq<Entry<Blob>>>,
    references: map<Version, seq<Entry<Envelope>>>,
    latest: map<ObjectRef, seq<Entry<Digest>>>,
    orphans: map<Version, seq<Entry<string>>>,
    deletions: map<Version, seq<Entry<int>>>)
  {
    function NewId(): nat {
      if versioned then next else UNVERSIONED
    }

    function Pushed<T>(s: seq<Entry<T>>, value: T): seq<Entry<T>> {
      if versioned then s + [Entry(next, value)] else [Entry(UNVERSIONED, value)]
    }

    function WriteBlob(k: Version, blob: Blob): Bucket {
      this.(blobs := blobs[k := Pushed(StackOf(blobs, k), blob)], next := next + 1)
    }

    function WriteReference(k: Version, envelope: Envelope): Bucket {
      this.(references := references[k := Pushed(StackOf(references, k), envelope)], next := next + 1)
    }

    function WriteLatest(o: ObjectRef, digest: Digest): Bucket {
      this.(latest := latest[o := Pushed(StackOf(latest, o), digest)], next := next + 1)
    }

    function WriteOrphan(k: Version, reason: string): Bucket {
      this.(orphans := orphans[k := Pushed(StackOf(orphans, k), reason)], next := next + 1)
    }

    function WriteDeletion(k: Version, deletedAt: int): Bucket {
      this.(deletions := deletions[k := Pushed(StackOf(deletions, k), deletedAt)], next := next + 1)
    }

    function RemoveBlob(k: Version, id: nat): Bucket {
      this.(blobs := blobs[k := Without(StackOf(blobs, k), id)])
    }

    function RemoveReference(k: Version, id: nat): Bucket {
      this.(references := references[k := Without(StackOf(references, k), id)])
    }

    function RemoveLatest(o: ObjectRef, id: nat): Bucket {
      this.(latest := latest[o := Without(StackOf(latest, o), id)])
    }
  }

  function Empty(versioned: bool): Bucket {
    Bucket(versioned, UNVERSIONED + 1, map[], map[], map[], map[], map[])
  }
}
