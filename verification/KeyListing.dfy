/**
 * Listing the flat store (adapter.py, _list and _newest_version; layout.py): scans and walks under the layout's
 * prefixes read exactly the records that the typed bucket holds.
 */
module KeyListing {
  import opened Wrappers
  import opened Order
  import opened Bucket
  import opened Publication
  import opened Interleaving
  import opened Holding
  import opened Adapter
  import opened Keys
  import Integrity
  import Layout
  import Listing

  // ---------------------------------------------------------------- scanning

  /** The reference records of the store by key string, as a listing reads them. */
  function DocumentsOf(store: Store): Listing.Documents {
    map s | s in store && store[s].Records? && store[s].records != [] :: store[s].records[|store[s].records| - 1].value
  }

  /** `f` takes what one listing can list to what another can list, in the same order and with the same records. */
  ghost predicate Corresponds(docs: Listing.Documents, prefix: string, docs': Listing.Documents, prefix': string,
                              f: string -> string) {
    && (forall k | Listing.Listable(docs, prefix, None, k) ::
          Listing.Listable(docs', prefix', None, f(k)) && docs'[f(k)] == docs[k])
    && (forall k' | Listing.Listable(docs', prefix', None, k') ::
          exists k :: Listing.Listable(docs, prefix, None, k) && f(k) == k')
    && (forall k, l | Listing.Listable(docs, prefix, None, k) && Listing.Listable(docs, prefix, None, l) ::
          Less(k, l) ==> Less(f(k), f(l)))
  }

  /** The images of what was read. */
  ghost predicate Images(docs: Listing.Documents, seen: seq<string>, docs': Listing.Documents, seen': seq<string>,
                         f: string -> string) {
    && |seen'| == |seen|
    && forall i | 0 <= i < |seen| ::
         seen'[i] == f(seen[i]) && seen[i] in docs && seen'[i] in docs' && docs'[seen'[i]] == docs[seen[i]]
  }

  lemma {:induction false} InitialTransfers(docs: Listing.Documents, prefix: string, docs': Listing.Documents,
                                            prefix': string, f: string -> string, seen: seq<string>)
    returns (seen': seq<string>)
    requires Corresponds(docs, prefix, docs', prefix', f) && Listing.Initial(docs, prefix, None, seen)
    ensures Listing.Initial(docs', prefix', None, seen') && Images(docs, seen, docs', seen', f)
    ensures Listing.Complete(docs, prefix, None, seen) ==> Listing.Complete(docs', prefix', None, seen')
  {
    hide Less, Listing.Listable, Images;
    seen' := ImagesOf(docs, prefix, docs', prefix', f, seen);
    forall k' | Listing.Listable(docs', prefix', None, k')
      ensures k' in seen' || seen' == [] || Less(seen'[|seen'| - 1], k')
      ensures Listing.Complete(docs, prefix, None, seen) ==> k' in seen'
    {
      var k :| Listing.Listable(docs, prefix, None, k) && f(k) == k';
      if k in seen {
        var i :| 0 <= i < |seen| && seen[i] == k;
        assert seen'[i] == k';
      } else if seen != [] {
        assert seen[|seen| - 1] in seen;
      }
    }
  }

  lemma {:induction false} ImagesOf(docs: Listing.Documents, prefix: string, docs': Listing.Documents,
                                    prefix': string, f: string -> string, seen: seq<string>)
    returns (seen': seq<string>)
    requires Corresponds(docs, prefix, docs', prefix', f) && Listing.Initial(docs, prefix, None, seen)
    ensures Images(docs, seen, docs', seen', f) && |seen'| == |seen|
    ensures forall i | 0 <= i < |seen| :: seen'[i] == f(seen[i])
    ensures Sorted(seen') && forall k | k in seen' :: Listing.Listable(docs', prefix', None, k)
  {
    hide Less;
    seen' := seq(|seen|, i requires 0 <= i < |seen| => f(seen[i]));
    forall i | 0 <= i < |seen|
      ensures Listing.Listable(docs, prefix, None, seen[i]) && Listing.Listable(docs', prefix', None, seen'[i])
      ensures docs'[seen'[i]] == docs[seen[i]]
    {
      assert seen[i] in seen;
    }
  }

  /** Corresponding listings select the same record. */
  lemma {:induction false} ScanTransfers(docs: Listing.Documents, prefix: string, docs': Listing.Documents,
                                         prefix': string, f: string -> string, exclude: Option<Integrity.Digest>,
                                         selected: Option<Envelope>)
    requires Corresponds(docs, prefix, docs', prefix', f) && Listing.ScanSelects(docs, prefix, exclude, selected)
    ensures Listing.ScanSelects(docs', prefix', exclude, selected)
  {
    hide Corresponds, Listing.Initial, Listing.Complete, Listing.NewestOf;
    var seen: seq<string> :|
      && Listing.Initial(docs, prefix, None, seen)
      && (Listing.Complete(docs, prefix, None, seen)
          || |seen| == Listing.MAX_INTERNAL_LIST_PAGES * Listing.PAGE_SIZE)
      && (forall k | k in seen :: k in docs)
      && Listing.NewestOf(docs, seen, exclude, selected);
    var seen' := InitialTransfers(docs, prefix, docs', prefix', f, seen);
    SameNewest(docs, seen, docs', seen', exclude, selected);
    Listing.SeenSelects(docs', prefix', exclude, selected, seen');
  }

  lemma {:induction false} SameNewest(docs: Listing.Documents, seen: seq<string>, docs': Listing.Documents,
                                      seen': seq<string>, exclude: Option<Integrity.Digest>,
                                      selected: Option<Envelope>)
    requires |seen'| == |seen| && (forall k | k in seen :: k in docs)
    requires forall i | 0 <= i < |seen| :: seen'[i] in docs' && docs'[seen'[i]] == docs[seen[i]]
    requires Listing.NewestOf(docs, seen, exclude, selected)
    ensures (forall k | k in seen' :: k in docs') && Listing.NewestOf(docs', seen', exclude, selected)
  {
    if selected.Some? {
      var i :| 0 <= i < |seen| && docs[seen[i]] == selected.value && Some(selected.value.metadata.digest) != exclude
               && forall j | 0 <= j < |seen| && Some(docs[seen[j]].metadata.digest) != exclude ::
                    if j < i then docs[seen[j]].metadata.createdAt < selected.value.metadata.createdAt
                    else docs[seen[j]].metadata.createdAt <= selected.value.metadata.createdAt;
      assert docs'[seen'[i]] == selected.value;
    } else {
      forall k | k in seen'
        ensures k in docs' && Some(docs'[k].metadata.digest) == exclude
      {
        var i :| 0 <= i < |seen'| && seen'[i] == k;
        assert seen[i] in seen;
      }
    }
  }

  function KeyOfDigest(layout: Layout.Layout, o: ObjectRef, d: Integrity.Digest): string {
    var hex := Layout.DigestHex(d);
    if hex.Some? then layout.Render(Layout.Reference(o.resource, o.id, hex.value)) else ""
  }

  function DigestOfKey(layout: Layout.Layout, o: ObjectRef, s: string): Integrity.Digest {
    var n := |layout.ObjectPrefix(o.resource, o.id)|;
    if |s| < n + Layout.TOKEN_LENGTH then "" else Layout.DIGEST_PREFIX + s[n..n + Layout.TOKEN_LENGTH]
  }

  lemma HexOfDigest(hex: string)
    requires Layout.HexText(hex)
    ensures Layout.DigestHex(Layout.DIGEST_PREFIX + hex) == Some(hex)
  {
    hide Layout.HexText;
    var d := Layout.DIGEST_PREFIX + hex;
    assert d[..|Layout.DIGEST_PREFIX|] == Layout.DIGEST_PREFIX && d[|Layout.DIGEST_PREFIX|..] == hex;
  }

  lemma KeysAndDigests(layout: Layout.Layout, o: ObjectRef, hex: string)
    requires Layout.HexText(hex)
    ensures var d, s := Layout.DIGEST_PREFIX + hex, layout.Render(Layout.Reference(o.resource, o.id, hex));
            && KeyOfDigest(layout, o, d) == s && DigestOfKey(layout, o, s) == d
            && layout.ObjectPrefix(o.resource, o.id) <= s
  {
    HexOfDigest(hex);
    layout.ReferenceShape(Layout.Reference(o.resource, o.id, hex));
    hide Layout.DigestHex, Layout.Layout.Render, Layout.Layout.ObjectPrefix;
    var prefix, s := layout.ObjectPrefix(o.resource, o.id), layout.Render(Layout.Reference(o.resource, o.id, hex));
    assert s == prefix + hex + ".json";
    assert s[|prefix|..|prefix| + Layout.TOKEN_LENGTH] == hex;
  }

  /** A record of the object is listed under the string of its reference key. */
  lemma RecordAt(layout: Layout.Layout, names: set<string>, store: Store, b: Bucket, o: ObjectRef, hex: string)
    requires Represents(layout, names, store, b) && {o.resource, o.id} <= names && Layout.HexText(hex)
    ensures var d, s := Layout.DIGEST_PREFIX + hex, layout.Render(Layout.Reference(o.resource, o.id, hex));
            && (s in DocumentsOf(store) <==> d in RecordsOf(b, o))
            && (d in RecordsOf(b, o) ==> DocumentsOf(store)[s] == RecordsOf(b, o)[d])
  {
    hide Layout.Layout.Render, Addressable, Layout.HexText;
    var key := Layout.Reference(o.resource, o.id, hex);
    assert InUse(layout, names, key);
    assert ContentAt(store, layout.Render(key)) == Contents(b, key);
    RecordOfVersion(b, VersionAt(key));
    hide RecordsOf;
  }

  lemma RecordOfVersion(b: Bucket, k: Version)
    ensures k.digest in RecordsOf(b, k.objectRef) <==> Current(b.references, k).Some?
    ensures k.digest in RecordsOf(b, k.objectRef) ==>
              RecordsOf(b, k.objectRef)[k.digest] == Current(b.references, k).value.value
  {
    hide Current;
    if k.digest in RecordsOf(b, k.objectRef) {
      var j :| j in b.references && j.objectRef == k.objectRef && Current(b.references, j).Some?
               && j.digest == k.digest;
      assert j == k;
    }
    if Current(b.references, k).Some? {
      AbsentIsNone(b, k);
    }
  }

  lemma AbsentIsNone(b: Bucket, k: Version)
    ensures Current(b.references, k).Some? ==> k in b.references
  {
  }

  /** Every digest with a record is well formed. */
  lemma RecordDigest(layout: Layout.Layout, names: set<string>, store: Store, b: Bucket, o: ObjectRef,
                     d: Integrity.Digest)
    returns (hex: string)
    requires Represents(layout, names, store, b) && d in RecordsOf(b, o)
    ensures Layout.HexText(hex) && d == Layout.DIGEST_PREFIX + hex
  {
    RecordOfVersion(b, Version(o, d));
    hide RecordsOf;
    assert StackOf(b.references, Version(o, d)) != [];
    assert Addressable(names, Version(o, d));
    hide Layout.HexText, Represents;
    hex := Layout.DigestHex(d).value;
  }

  /** What a scan or a listing reads lies below the root. */
  lemma PrefixesUnderRoot(layout: Layout.Layout, resource: string, objectId: string, s: string)
    ensures layout.ObjectPrefix(resource, objectId) <= s || layout.ReferencePrefix(resource) <= s ==>
              UnderRoot(layout, s)
  {
    var prefix := layout.ReferencePrefix(resource);
    assert layout.root + "/" == prefix[..|layout.root| + 1];
    if layout.ObjectPrefix(resource, objectId) <= s {
      assert prefix <= s;
    }
  }

  /** Every document under the object's prefix is one of its records. */
  lemma DocumentKey(layout: Layout.Layout, names: set<string>, store: Store, b: Bucket, o: ObjectRef, s: string)
    returns (hex: string)
    requires layout.Valid() && layout.Distinguishes(names) && Represents(layout, names, store, b)
    requires {o.resource, o.id} <= names && s in store && layout.ObjectPrefix(o.resource, o.id) <= s
    ensures Layout.HexText(hex) && s == layout.Render(Layout.Reference(o.resource, o.id, hex))
  {
    hide Layout.Layout.Render, Layout.Layout.Valid, Layout.Layout.Distinguishes, Layout.Layout.ObjectPrefix;
    hide Contents, Addressable, Layout.HexText;
    PrefixesUnderRoot(layout, o.resource, o.id, s);
    var key :| InUse(layout, names, key) && s == layout.Render(key);
    layout.ObjectPrefixSelects(names, o.resource, o.id, key);
    hex := key.hex;
  }

  lemma DigestsToKeys(layout: Layout.Layout, names: set<string>, store: Store, b: Bucket, o: ObjectRef)
    requires layout.Valid() && layout.Distinguishes(names) && Represents(layout, names, store, b)
    requires {o.resource, o.id} <= names
    ensures Corresponds(RecordsOf(b, o), "", DocumentsOf(store), layout.ObjectPrefix(o.resource, o.id),
                        d => KeyOfDigest(layout, o, d))
  {
    hide Layout.Layout.Render, Layout.Layout.Valid, Layout.Layout.Distinguishes, Layout.Layout.ObjectPrefix;
    hide Represents, RecordsOf, KeyOfDigest, Less, Layout.HexText, DocumentsOf;
    forall d | d in RecordsOf(b, o)
      ensures var s := KeyOfDigest(layout, o, d);
              && layout.ObjectPrefix(o.resource, o.id) <= s && s in DocumentsOf(store)
              && DocumentsOf(store)[s] == RecordsOf(b, o)[d]
    {
      var hex := RecordDigest(layout, names, store, b, o, d);
      KeysAndDigests(layout, o, hex);
      RecordAt(layout, names, store, b, o, hex);
    }
    forall s | s in DocumentsOf(store) && layout.ObjectPrefix(o.resource, o.id) <= s
      ensures exists d :: d in RecordsOf(b, o) && KeyOfDigest(layout, o, d) == s
    {
      DocumentIsStored(store, s);
      var hex := DocumentKey(layout, names, store, b, o, s);
      KeysAndDigests(layout, o, hex);
      RecordAt(layout, names, store, b, o, hex);
      assert Layout.DIGEST_PREFIX + hex in RecordsOf(b, o);
    }
    forall d, d' | d in RecordsOf(b, o) && d' in RecordsOf(b, o)
      ensures Less(KeyOfDigest(layout, o, d), KeyOfDigest(layout, o, d')) == Less(d, d')
    {
      var hex := RecordDigest(layout, names, store, b, o, d);
      var hex' := RecordDigest(layout, names, store, b, o, d');
      KeysAndDigests(layout, o, hex);
      KeysAndDigests(layout, o, hex');
      layout.ListedInDigestOrder(o.resource, o.id, hex, hex');
    }
  }

  lemma DocumentIsStored(store: Store, s: string)
    ensures s in DocumentsOf(store) ==> s in store
  {
  }

  lemma KeysToDigests(layout: Layout.Layout, names: set<string>, store: Store, b: Bucket, o: ObjectRef)
    requires layout.Valid() && layout.Distinguishes(names) && Represents(layout, names, store, b)
    requires {o.resource, o.id} <= names
    ensures Corresponds(DocumentsOf(store), layout.ObjectPrefix(o.resource, o.id), RecordsOf(b, o), "",
                        s => DigestOfKey(layout, o, s))
  {
    hide Layout.Layout.Render, Layout.Layout.Valid, Layout.Layout.Distinguishes, Layout.Layout.ObjectPrefix;
    hide Represents, RecordsOf, DigestOfKey, KeyOfDigest, Less, Layout.HexText, DocumentsOf;
    forall s | s in DocumentsOf(store) && layout.ObjectPrefix(o.resource, o.id) <= s
      ensures var d := DigestOfKey(layout, o, s);
              d in RecordsOf(b, o) && RecordsOf(b, o)[d] == DocumentsOf(store)[s] && KeyOfDigest(layout, o, d) == s
    {
      DocumentIsStored(store, s);
      var hex := DocumentKey(layout, names, store, b, o, s);
      KeysAndDigests(layout, o, hex);
      RecordAt(layout, names, store, b, o, hex);
    }
    forall d | d in RecordsOf(b, o)
      ensures exists s :: s in DocumentsOf(store) && layout.ObjectPrefix(o.resource, o.id) <= s
                          && DigestOfKey(layout, o, s) == d
    {
      var hex := RecordDigest(layout, names, store, b, o, d);
      KeysAndDigests(layout, o, hex);
      RecordAt(layout, names, store, b, o, hex);
      assert DigestOfKey(layout, o, layout.Render(Layout.Reference(o.resource, o.id, hex))) == d;
    }
    forall s, s' | s in DocumentsOf(store) && layout.ObjectPrefix(o.resource, o.id) <= s && s' in DocumentsOf(store)
                   && layout.ObjectPrefix(o.resource, o.id) <= s'
      ensures Less(DigestOfKey(layout, o, s), DigestOfKey(layout, o, s')) == Less(s, s')
    {
      DocumentIsStored(store, s);
      DocumentIsStored(store, s');
      var hex := DocumentKey(layout, names, store, b, o, s);
      var hex' := DocumentKey(layout, names, store, b, o, s');
      KeysAndDigests(layout, o, hex);
      KeysAndDigests(layout, o, hex');
      layout.ListedInDigestOrder(o.resource, o.id, hex, hex');
    }
  }

  /**
   * Scanning the store under the object's key prefix selects exactly what scanning the object's typed records
   * by digest selects, bound of the scan included.
   */
  lemma ScanOfStrings(layout: Layout.Layout, names: set<string>, store: Store, b: Bucket, o: ObjectRef,
                      exclude: Option<Integrity.Digest>, selected: Option<Envelope>)
    requires layout.Valid() && layout.Distinguishes(names) && Represents(layout, names, store, b)
    requires {o.resource, o.id} <= names
    ensures Listing.ScanSelects(DocumentsOf(store), layout.ObjectPrefix(o.resource, o.id), exclude, selected) <==>
            Listing.ScanSelects(RecordsOf(b, o), "", exclude, selected)
  {
    hide *;
    DigestsToKeys(layout, names, store, b, o);
    KeysToDigests(layout, names, store, b, o);
    var docs, prefix, records := DocumentsOf(store), layout.ObjectPrefix(o.resource, o.id), RecordsOf(b, o);
    if Listing.ScanSelects(records, "", exclude, selected) {
      ScanTransfers(records, "", docs, prefix, d => KeyOfDigest(layout, o, d), exclude, selected);
    }
    if Listing.ScanSelects(docs, prefix, exclude, selected) {
      ScanTransfers(docs, prefix, records, "", s => DigestOfKey(layout, o, s), exclude, selected);
    }
  }

  // ---------------------------------------------------------------- walking a resource

  /** `k` has a record in the bucket, of this resource and an object id with the prefix. */
  ghost predicate InResource(b: Bucket, k: Version, resource: string, idPrefix: string) {
    && k.objectRef.resource == resource && Current(b.references, k).Some?
    && idPrefix <= Current(b.references, k).value.value.metadata.objectRef.id
  }

  /** The items are the metadata of exactly the matching records of the bucket, each record once. */
  ghost predicate ListsRecords(b: Bucket, resource: string, idPrefix: string, items: seq<Metadata>) {
    && (forall m :: m in items <==>
          exists k :: InResource(b, k, resource, idPrefix) && Current(b.references, k).value.value.metadata == m)
    && AllDifferent(items)
  }

  ghost predicate AllDifferent(items: seq<Metadata>) {
    forall i, j | 0 <= i < j < |items| :: items[i] != items[j]
  }

  /** A document of the store is the record of a version, under the string of its reference key. */
  lemma DocumentOfVersion(layout: Layout.Layout, names: set<string>, store: Store, b: Bucket, resource: string,
                          s: string)
    returns (k: Version, hex: string)
    requires layout.Valid() && layout.Distinguishes(names) && Represents(layout, names, store, b) && resource in names
    requires s in DocumentsOf(store) && layout.ReferencePrefix(resource) <= s
    ensures Layout.HexText(hex) && s == layout.Render(Layout.Reference(resource, k.objectRef.id, hex))
    ensures k.objectRef.resource == resource && k.digest == Layout.DIGEST_PREFIX + hex && k.objectRef.id in names
    ensures Current(b.references, k).Some? && Current(b.references, k).value.value == DocumentsOf(store)[s]
  {
    hide Layout.Layout.Render, Layout.Layout.Valid, Layout.Layout.Distinguishes, Layout.Layout.ReferencePrefix;
    hide Contents, Addressable, Layout.HexText, DocumentsOf, RecordsOf, Current;
    DocumentIsStored(store, s);
    PrefixesUnderRoot(layout, resource, "", s);
    var key :| InUse(layout, names, key) && s == layout.Render(key);
    layout.ReferencePrefixSelects(names, resource, key);
    hex := key.hex;
    k := VersionAt(key);
    RecordAt(layout, names, store, b, k.objectRef, hex);
    RecordOfVersion(b, k);
    hide Represents;
  }

  /** Every key that a listing of the resource can read can be named by a cursor. */
  lemma StoreIsResumable(layout: Layout.Layout, names: set<string>, store: Store, b: Bucket, resource: string)
    requires layout.Valid() && layout.Distinguishes(names) && Represents(layout, names, store, b) && resource in names
    ensures Listing.Resumable(layout, DocumentsOf(store), resource)
  {
    hide Layout.Layout.Render, Layout.Layout.Valid, Layout.Layout.Distinguishes, Layout.Layout.ReferencePrefix;
    hide Represents, Layout.HexText, DocumentsOf, Layout.Layout.UnderPrefix;
    forall s | s in DocumentsOf(store) && layout.ReferencePrefix(resource) <= s
      ensures layout.UnderPrefix(resource, s)
    {
      var k, hex := DocumentOfVersion(layout, names, store, b, resource, s);
      layout.ReferenceKeysAreCursorable(resource, k.objectRef.id, hex);
    }
  }

  /** A record of the resource is a document under the resource's prefix. */
  lemma VersionHasDocument(layout: Layout.Layout, names: set<string>, store: Store, b: Bucket, k: Version)
    returns (s: string, hex: string)
    requires layout.Valid() && layout.Distinguishes(names) && Represents(layout, names, store, b)
    requires Current(b.references, k).Some?
    ensures k.digest == Layout.DIGEST_PREFIX + hex
    ensures s == layout.Render(Layout.Reference(k.objectRef.resource, k.objectRef.id, hex))
    ensures s in DocumentsOf(store) && layout.ReferencePrefix(k.objectRef.resource) <= s
    ensures DocumentsOf(store)[s] == Current(b.references, k).value.value
  {
    var o := k.objectRef;
    assert Addressable(names, k) by { assert StackOf(b.references, k) != []; }
    hide Layout.Layout.Render, Layout.Layout.Valid, Layout.Layout.Distinguishes, Layout.Layout.ReferencePrefix;
    hide Represents, Layout.HexText, DocumentsOf, RecordsOf, Current;
    RecordOfVersion(b, k);
    hex := RecordDigest(layout, names, store, b, o, k.digest);
    RecordAt(layout, names, store, b, o, hex);
    s := layout.Render(Layout.Reference(o.resource, o.id, hex));
    layout.ReferenceShape(Layout.Reference(o.resource, o.id, hex));
  }

  /** An enumeration of the resource's documents lists exactly its records. */
  lemma {:induction false} EnumerationListsRecords(layout: Layout.Layout, names: set<string>, store: Store, b: Bucket,
                                                   resource: string, idPrefix: string, items: seq<Metadata>)
    requires layout.Valid() && layout.Distinguishes(names) && Represents(layout, names, store, b) && resource in names
    requires RecordsNamed(b)
    requires Listing.Enumerates(DocumentsOf(store), layout.ReferencePrefix(resource), idPrefix, items)
    ensures ListsRecords(b, resource, idPrefix, items)
  {
    hide Layout.Layout.Render, Layout.Layout.Valid, Layout.Layout.Distinguishes, Layout.Layout.ReferencePrefix;
    hide Represents, Layout.HexText, DocumentsOf, Current, RecordsNamed, Listing.ItemsOf, Less;
    var docs, prefix := DocumentsOf(store), layout.ReferencePrefix(resource);
    var all: seq<string> :| Sorted(all) && (forall s :: s in all <==> s in docs && prefix <= s)
                            && items == Listing.ItemsOf(docs, idPrefix, all);
    ItemsAreOf(docs, idPrefix, all);
    forall m
      ensures m in items <==>
              exists k :: InResource(b, k, resource, idPrefix) && Current(b.references, k).value.value.metadata == m
    {
      if m in items {
        var s :| s in all && idPrefix <= docs[s].metadata.objectRef.id && docs[s].metadata == m;
        var k, hex := DocumentOfVersion(layout, names, store, b, resource, s);
        assert InResource(b, k, resource, idPrefix);
      }
      if k :| InResource(b, k, resource, idPrefix) && Current(b.references, k).value.value.metadata == m {
        var s, hex := VersionHasDocument(layout, names, store, b, k);
        assert s in all;
      }
    }
    forall s, s' | s in all && s' in all && docs[s].metadata == docs[s'].metadata
      ensures s == s'
    {
      var k, hex := DocumentOfVersion(layout, names, store, b, resource, s);
      var k', hex' := DocumentOfVersion(layout, names, store, b, resource, s');
      RecordSaysVersion(b, k);
      RecordSaysVersion(b, k');
      SameSuffix(hex, hex');
    }
    ItemsAreDistinct(docs, idPrefix, all);
  }

  lemma SameSuffix(hex: string, hex': string)
    ensures Layout.DIGEST_PREFIX + hex == Layout.DIGEST_PREFIX + hex' ==> hex == hex'
  {
    assert (Layout.DIGEST_PREFIX + hex)[|Layout.DIGEST_PREFIX|..] == hex;
    assert (Layout.DIGEST_PREFIX + hex')[|Layout.DIGEST_PREFIX|..] == hex';
  }

  lemma RecordSaysVersion(b: Bucket, k: Version)
    requires RecordsNamed(b) && Current(b.references, k).Some?
    ensures var m := Current(b.references, k).value.value.metadata; k == Version(m.objectRef, m.digest)
  {
  }

  lemma {:induction false} ItemsAreOf(docs: Listing.Documents, idPrefix: string, seen: seq<string>)
    requires forall s | s in seen :: s in docs
    ensures forall m :: m in Listing.ItemsOf(docs, idPrefix, seen) <==>
                        exists s :: s in seen && idPrefix <= docs[s].metadata.objectRef.id && docs[s].metadata == m
    decreases |seen|
  {
    if seen != [] {
      var front, last := seen[..|seen| - 1], seen[|seen| - 1];
      assert seen == front + [last];
      ItemsAreOf(docs, idPrefix, front);
      Listing.ItemsOfAppend(docs, idPrefix, front, last);
      hide Listing.ItemsOf;
    }
  }

  lemma {:induction false} ItemsAreDistinct(docs: Listing.Documents, idPrefix: string, seen: seq<string>)
    requires (forall s | s in seen :: s in docs) && Sorted(seen)
    requires forall s, s' | s in seen && s' in seen && docs[s].metadata == docs[s'].metadata :: s == s'
    ensures AllDifferent(Listing.ItemsOf(docs, idPrefix, seen))
    decreases |seen|
  {
    if seen != [] {
      hide Less;
      var front, last := seen[..|seen| - 1], seen[|seen| - 1];
      assert seen == front + [last];
      ItemsAreDistinct(docs, idPrefix, front);
      Listing.ItemsOfAppend(docs, idPrefix, front, last);
      ItemsAreOf(docs, idPrefix, front);
      forall s | s in front
        ensures s != last
      {
        var i :| 0 <= i < |front| && front[i] == s;
        assert Less(seen[i], seen[|seen| - 1]);
        LessIrreflexive(last);
      }
      hide Listing.ItemsOf;
      var before := Listing.ItemsOf(docs, idPrefix, front);
      assert docs[last].metadata !in before;
      assert forall i | 0 <= i < |before| :: before[i] in before;
    }
  }

  /** Repeated list calls on the flat store answer with exactly the records of the resource, each once. */
  method WalkStore(layout: Layout.Layout, ghost names: set<string>, store: Store, ghost b: Bucket, resource: string,
                   idPrefix: string, limit: nat)
    returns (items: seq<Metadata>)
    requires layout.Valid() && layout.Distinguishes(names) && Represents(layout, names, store, b) && resource in names
    requires RecordsNamed(b) && limit >= 1
    ensures ListsRecords(b, resource, idPrefix, items)
  {
    hide *;
    StoreIsResumable(layout, names, store, b, resource);
    items := Listing.Walk(layout, DocumentsOf(store), resource, idPrefix, limit);
    EnumerationListsRecords(layout, names, store, b, resource, idPrefix, items);
  }

  // ---------------------------------------------------------------- walking while puts and deletes run

  /** The buckets at these moments of a run. */
  ghost function BucketsAt(cfg: Config, versioned: bool, events: seq<Event>, moments: seq<nat>): (buckets: seq<Bucket>)
    requires cfg.Valid() && forall i | 0 <= i < |moments| :: moments[i] <= |events|
    ensures |buckets| == |moments|
  {
    seq(|moments|, i requires 0 <= i < |moments| => Run(cfg, Initial(versioned), events[..moments[i]]).bucket)
  }

  /** The version that an item is about. */
  function VersionOf(m: Metadata): Version {
    Version(m.objectRef, m.digest)
  }

  /** Item `a` of answer `i` is the record of `k`. */
  ghost predicate ListedAt(answers: seq<seq<Metadata>>, i: nat, a: nat, k: Version) {
    i < |answers| && a < |answers[i]| && VersionOf(answers[i][a]) == k
  }

  /** The version has a matching record in each of the buckets. */
  ghost predicate AlwaysThere(buckets: seq<Bucket>, k: Version, resource: string, idPrefix: string) {
    forall i | 0 <= i < |buckets| :: InResource(buckets[i], k, resource, idPrefix)
  }

  /**
   * Each answer lists records that are there at its call, no version is listed twice in all the answers, and
   * once the walk has ended every version that was there at each call is listed.
   */
  ghost predicate ListedOnce(buckets: seq<Bucket>, resource: string, idPrefix: string, answers: seq<seq<Metadata>>,
                             ended: bool) {
    && |answers| <= |buckets|
    && (forall i | 0 <= i < |answers| :: forall m | m in answers[i] ::
          InResource(buckets[i], VersionOf(m), resource, idPrefix)
          && Current(buckets[i].references, VersionOf(m)).value.value.metadata == m)
    && (forall i: nat, a: nat, j: nat, c: nat, k | ListedAt(answers, i, a, k) && ListedAt(answers, j, c, k) ::
          i == j && a == c)
    && (ended ==> forall k | AlwaysThere(buckets[..|answers|], k, resource, idPrefix) ::
                    exists i: nat, a: nat :: ListedAt(answers, i, a, k))
  }

  lemma {:induction false} InConcat(scans: seq<seq<string>>, s: string)
    ensures s in Listing.Concat(scans) <==> exists i :: 0 <= i < |scans| && s in scans[i]
    decreases |scans|
  {
    if scans != [] {
      var m := |scans| - 1;
      InConcat(scans[..m], s);
      if s in scans[m] {
        assert s in Listing.Concat(scans);
      }
      if s in Listing.Concat(scans[..m]) {
        var i :| 0 <= i < m && s in scans[..m][i];
        assert s in scans[i];
      }
      if i :| 0 <= i < |scans| && s in scans[i] {
        if i < m {
          assert s in scans[..m][i];
        }
      }
    }
  }

  /** A sorted concatenation is sorted in every part, and no key is in two of them. */
  lemma {:induction false} PartsOfSorted(scans: seq<seq<string>>, i: nat, j: nat)
    requires Sorted(Listing.Concat(scans)) && i < |scans| && j < |scans|
    ensures Sorted(scans[i]) && (i != j ==> forall s | s in scans[i] :: s !in scans[j])
    decreases |scans|
  {
    hide Less;
    var m := |scans| - 1;
    var front, last := Listing.Concat(scans[..m]), scans[m];
    assert Listing.Concat(scans) == front + last;
    SortedParts(front, last);
    if i < m && j < m {
      PartsOfSorted(scans[..m], i, j);
      assert scans[..m][i] == scans[i] && scans[..m][j] == scans[j];
    } else if i < m {
      PartsOfSorted(scans[..m], i, i);
      assert scans[..m][i] == scans[i];
      ElsewhereInConcat(scans, i);
    } else if j < m {
      ElsewhereInConcat(scans, j);
    }
  }

  lemma {:induction false} ElsewhereInConcat(scans: seq<seq<string>>, i: nat)
    requires i < |scans| - 1
    ensures forall s | s in scans[i] :: s in Listing.Concat(scans[..|scans| - 1])
  {
    forall s | s in scans[i]
      ensures s in Listing.Concat(scans[..|scans| - 1])
    {
      assert s in scans[..|scans| - 1][i];
      InConcat(scans[..|scans| - 1], s);
    }
  }

  lemma {:induction false} SortedParts(front: seq<string>, last: seq<string>)
    requires Sorted(front + last)
    ensures Sorted(front) && Sorted(last) && forall s | s in front :: s !in last
  {
    hide Less;
    var all := front + last;
    assert forall i | 0 <= i < |front| :: front[i] == all[i];
    assert forall i | 0 <= i < |last| :: last[i] == all[|front| + i];
    forall s | s in front && s in last
      ensures false
    {
      var i :| 0 <= i < |front| && front[i] == s;
      var j :| 0 <= j < |last| && last[j] == s;
      assert Less(all[i], all[|front| + j]);
      LessIrreflexive(s);
    }
  }

  function SnapshotsOf(stores: seq<Store>): (snapshots: seq<Listing.Documents>)
    ensures |snapshots| == |stores| && forall i | 0 <= i < |stores| :: snapshots[i] == DocumentsOf(stores[i])
  {
    seq(|stores|, i requires 0 <= i < |stores| => DocumentsOf(stores[i]))
  }

  /** A key that a scan read is the key of the version that its item is about. */
  lemma KeyOfItem(layout: Layout.Layout, names: set<string>, store: Store, b: Bucket, resource: string, s: string)
    requires layout.Valid() && layout.Distinguishes(names) && Represents(layout, names, store, b) && resource in names
    requires RecordsNamed(b) && s in DocumentsOf(store) && layout.ReferencePrefix(resource) <= s
    ensures var m := DocumentsOf(store)[s].metadata;
            && s == KeyOfDigest(layout, m.objectRef, m.digest) && InResource(b, VersionOf(m), resource, "")
            && Current(b.references, VersionOf(m)).value.value.metadata == m
  {
    hide Layout.Layout.Render, Layout.Layout.Valid, Layout.Layout.Distinguishes, Layout.Layout.ReferencePrefix;
    hide Represents, Layout.HexText, DocumentsOf, Current, RecordsNamed, KeyOfDigest;
    var k, hex := DocumentOfVersion(layout, names, store, b, resource, s);
    RecordSaysVersion(b, k);
    KeysAndDigests(layout, k.objectRef, hex);
  }

  /** What one scan read, and its answer. */
  ghost predicate Reads(layout: Layout.Layout, docs: Listing.Documents, b: Bucket, resource: string, idPrefix: string,
                        seen: seq<string>, items: seq<Metadata>) {
    && (forall s | s in seen :: s in docs)
    && (forall m | m in items ::
          && InResource(b, VersionOf(m), resource, idPrefix)
          && Current(b.references, VersionOf(m)).value.value.metadata == m
          && KeyOfDigest(layout, m.objectRef, m.digest) in seen)
    && (forall s | s in seen && idPrefix <= docs[s].metadata.objectRef.id :: docs[s].metadata in items)
    && AllDifferent(items)
  }

  lemma {:induction false} ScanReads(layout: Layout.Layout, names: set<string>, store: Store, b: Bucket,
                                     resource: string, idPrefix: string, seen: seq<string>)
    requires layout.Valid() && layout.Distinguishes(names) && Represents(layout, names, store, b) && resource in names
    requires RecordsNamed(b) && Sorted(seen)
    requires forall s | s in seen :: s in DocumentsOf(store) && layout.ReferencePrefix(resource) <= s
    ensures Reads(layout, DocumentsOf(store), b, resource, idPrefix, seen,
                  Listing.ItemsOf(DocumentsOf(store), idPrefix, seen))
  {
    hide Layout.Layout.Valid, Layout.Layout.Distinguishes, Layout.Layout.ReferencePrefix, AllDifferent;
    hide Represents, DocumentsOf, Current, RecordsNamed, KeyOfDigest, Less;
    var docs := DocumentsOf(store);
    forall s | s in seen
      ensures var m := docs[s].metadata;
              && s == KeyOfDigest(layout, m.objectRef, m.digest) && InResource(b, VersionOf(m), resource, "")
              && Current(b.references, VersionOf(m)).value.value.metadata == m
    {
      KeyOfItem(layout, names, store, b, resource, s);
    }
    ItemsAreOf(docs, idPrefix, seen);
    ItemsAreDistinct(docs, idPrefix, seen);
    hide Listing.ItemsOf;
  }

  /** The key of a version that is there is among the documents. */
  lemma ThereIsKey(layout: Layout.Layout, names: set<string>, store: Store, b: Bucket, k: Version, resource: string,
                   idPrefix: string)
    requires layout.Valid() && layout.Distinguishes(names) && Represents(layout, names, store, b) && RecordsNamed(b)
    requires InResource(b, k, resource, idPrefix)
    ensures var s := KeyOfDigest(layout, k.objectRef, k.digest);
            && s in DocumentsOf(store) && layout.ReferencePrefix(resource) <= s
            && VersionOf(DocumentsOf(store)[s].metadata) == k && idPrefix <= DocumentsOf(store)[s].metadata.objectRef.id
  {
    hide Layout.Layout.Render, Layout.Layout.Valid, Layout.Layout.Distinguishes, Layout.Layout.ReferencePrefix;
    hide Represents, DocumentsOf, Current, RecordsNamed, KeyOfDigest, Layout.HexText;
    var s, hex := VersionHasDocument(layout, names, store, b, k);
    RecordSaysVersion(b, k);
    RecordHex(layout, names, store, b, k, hex);
    KeysAndDigests(layout, k.objectRef, hex);
  }

  lemma RecordHex(layout: Layout.Layout, names: set<string>, store: Store, b: Bucket, k: Version, hex: string)
    requires Represents(layout, names, store, b) && Current(b.references, k).Some?
    requires k.digest == Layout.DIGEST_PREFIX + hex
    ensures Layout.HexText(hex)
  {
    hide Layout.HexText, Represents;
    RecordOfVersion(b, k);
    var hex' := RecordDigest(layout, names, store, b, k.objectRef, k.digest);
    SameSuffix(hex, hex');
  }

  ghost predicate AllRepresented(layout: Layout.Layout, names: set<string>, stores: seq<Store>, buckets: seq<Bucket>) {
    && |stores| == |buckets|
    && forall i | 0 <= i < |stores| :: Represents(layout, names, stores[i], buckets[i]) && RecordsNamed(buckets[i])
  }

  lemma {:induction false} WalkedIsListedOnce(layout: Layout.Layout, names: set<string>, stores: seq<Store>,
                                              buckets: seq<Bucket>, resource: string, idPrefix: string,
                                              answers: seq<seq<Metadata>>, ended: bool)
    requires layout.Valid() && layout.Distinguishes(names) && AllRepresented(layout, names, stores, buckets)
    requires resource in names
    requires Listing.Walked(SnapshotsOf(stores), layout.ReferencePrefix(resource), idPrefix, answers, ended)
    ensures ListedOnce(buckets, resource, idPrefix, answers, ended)
  {
    hide Layout.Layout.Valid, Layout.Layout.Distinguishes, Layout.Layout.ReferencePrefix, Represents, DocumentsOf;
    hide RecordsNamed, KeyOfDigest, Less, Reads, Listing.ItemsOf, Listing.Concat, SnapshotsOf, InResource, Current;
    hide AlwaysThere;
    var snapshots, prefix := SnapshotsOf(stores), layout.ReferencePrefix(resource);
    var scans: seq<seq<string>> :|
      && Listing.Answered(snapshots, prefix, idPrefix, scans, answers)
      && Sorted(Listing.Concat(scans))
      && (ended ==> Listing.AllCovered(snapshots, prefix, scans));
    forall i | 0 <= i < |scans|
      ensures Reads(layout, DocumentsOf(stores[i]), buckets[i], resource, idPrefix, scans[i], answers[i])
    {
      PartsOfSorted(scans, i, i);
      ScanReads(layout, names, stores[i], buckets[i], resource, idPrefix, scans[i]);
    }
    ReadsListOnce(layout, stores, buckets, resource, idPrefix, scans, answers);
    if ended {
      forall k | AlwaysThere(buckets[..|answers|], k, resource, idPrefix)
        ensures exists i: nat, a: nat :: ListedAt(answers, i, a, k)
      {
        AlwaysListed(layout, names, stores, buckets, resource, idPrefix, scans, answers, k);
      }
    }
  }

  lemma {:induction false} ReadsListOnce(layout: Layout.Layout, stores: seq<Store>, buckets: seq<Bucket>,
                                         resource: string, idPrefix: string, scans: seq<seq<string>>,
                                         answers: seq<seq<Metadata>>)
    requires |scans| == |answers| <= |buckets| == |stores| && Sorted(Listing.Concat(scans))
    requires forall i | 0 <= i < |scans| ::
               Reads(layout, DocumentsOf(stores[i]), buckets[i], resource, idPrefix, scans[i], answers[i])
    ensures forall i | 0 <= i < |answers| :: forall m | m in answers[i] ::
              InResource(buckets[i], VersionOf(m), resource, idPrefix)
              && Current(buckets[i].references, VersionOf(m)).value.value.metadata == m
    ensures forall i: nat, a: nat, j: nat, c: nat, k | ListedAt(answers, i, a, k) && ListedAt(answers, j, c, k) ::
              i == j && a == c
  {
    hide DocumentsOf, KeyOfDigest, Less, Listing.Concat, InResource, Current;
    forall i: nat, a: nat, j: nat, c: nat, k | ListedAt(answers, i, a, k) && ListedAt(answers, j, c, k)
      ensures i == j && a == c
    {
      assert answers[i][a] in answers[i] && answers[j][c] in answers[j];
      assert Reads(layout, DocumentsOf(stores[i]), buckets[i], resource, idPrefix, scans[i], answers[i]);
      assert Reads(layout, DocumentsOf(stores[j]), buckets[j], resource, idPrefix, scans[j], answers[j]);
      PartsOfSorted(scans, i, j);
      var key := KeyOfDigest(layout, k.objectRef, k.digest);
      assert key in scans[i] && key in scans[j];
    }
  }

  lemma {:induction false} AlwaysListed(layout: Layout.Layout, names: set<string>, stores: seq<Store>,
                                        buckets: seq<Bucket>, resource: string, idPrefix: string,
                                        scans: seq<seq<string>>, answers: seq<seq<Metadata>>, k: Version)
    requires layout.Valid() && layout.Distinguishes(names) && AllRepresented(layout, names, stores, buckets)
    requires |scans| == |answers| <= |buckets| && resource in names
    requires forall i | 0 <= i < |scans| ::
               Reads(layout, DocumentsOf(stores[i]), buckets[i], resource, idPrefix, scans[i], answers[i])
    requires Listing.AllCovered(SnapshotsOf(stores), layout.ReferencePrefix(resource), scans)
    requires AlwaysThere(buckets[..|answers|], k, resource, idPrefix)
    ensures exists i: nat, a: nat :: ListedAt(answers, i, a, k)
  {
    hide Layout.Layout.Valid, Layout.Layout.Distinguishes, Layout.Layout.ReferencePrefix, Represents, DocumentsOf;
    hide RecordsNamed, KeyOfDigest, Less, Listing.Concat, InResource, Current, SnapshotsOf;
    var prefix, s := layout.ReferencePrefix(resource), KeyOfDigest(layout, k.objectRef, k.digest);
    InConcat(scans, prefix);
    assert scans != [] by { assert Listing.Throughout(SnapshotsOf(stores), 0, prefix); }
    forall i | 0 <= i < |scans|
      ensures s in DocumentsOf(stores[i]) && prefix <= s
      ensures VersionOf(DocumentsOf(stores[i])[s].metadata) == k
      ensures idPrefix <= DocumentsOf(stores[i])[s].metadata.objectRef.id
    {
      assert InResource(buckets[..|answers|][i], k, resource, idPrefix);
      ThereIsKey(layout, names, stores[i], buckets[i], k, resource, idPrefix);
    }
    assert prefix <= s;
    assert Listing.Throughout(SnapshotsOf(stores), |scans|, s);
    InConcat(scans, s);
    var i :| 0 <= i < |scans| && s in scans[i];
    assert Reads(layout, DocumentsOf(stores[i]), buckets[i], resource, idPrefix, scans[i], answers[i]);
    var a :| 0 <= a < |answers[i]| && answers[i][a] == DocumentsOf(stores[i])[s].metadata;
    assert ListedAt(answers, i, a, k);
  }

  /**
   * List calls on the flat store while a run of puts and deletes goes on: call `i` sees the store as it is at
   * `moments[i]`. No version is listed twice, each is listed as it then is, and once the walk has ended every
   * version that had a record at each call is listed exactly once.
   */
  method WalkDuringRun(layout: Layout.Layout, ghost names: set<string>, ghost cfg: Config, ghost versioned: bool,
                       ghost events: seq<Event>, ghost moments: seq<nat>, stores: seq<Store>, resource: string,
                       idPrefix: string, limit: nat)
    returns (answers: seq<seq<Metadata>>, ended: bool)
    requires cfg.Valid() && layout.Valid() && layout.Distinguishes(names) && resource in names && limit >= 1
    requires |moments| == |stores| && forall i | 0 <= i < |moments| :: moments[i] <= |events|
    requires forall i | 0 <= i < |stores| ::
               Represents(layout, names, stores[i], BucketsAt(cfg, versioned, events, moments)[i])
    ensures ListedOnce(BucketsAt(cfg, versioned, events, moments), resource, idPrefix, answers, ended)
    ensures !ended ==> |answers| == |stores|
  {
    hide *;
    ghost var buckets := BucketsAt(cfg, versioned, events, moments);
    BucketsNamed(layout, names, cfg, versioned, events, moments, stores);
    forall i | 0 <= i < |stores|
      ensures Listing.Resumable(layout, DocumentsOf(stores[i]), resource)
    {
      StoreIsResumable(layout, names, stores[i], buckets[i], resource);
    }
    answers, ended := Listing.WalkWhileChanging(layout, SnapshotsOf(stores), resource, idPrefix, limit);
    WalkedIsListedOnce(layout, names, stores, buckets, resource, idPrefix, answers, ended);
  }

  lemma {:induction false} BucketsNamed(layout: Layout.Layout, names: set<string>, cfg: Config, versioned: bool,
                                        events: seq<Event>, moments: seq<nat>, stores: seq<Store>)
    requires cfg.Valid() && |moments| == |stores| && forall i | 0 <= i < |moments| :: moments[i] <= |events|
    requires forall i | 0 <= i < |stores| ::
               Represents(layout, names, stores[i], BucketsAt(cfg, versioned, events, moments)[i])
    ensures AllRepresented(layout, names, stores, BucketsAt(cfg, versioned, events, moments))
  {
    hide Represents, Run;
    forall i | 0 <= i < |stores|
      ensures RecordsNamed(BucketsAt(cfg, versioned, events, moments)[i])
    {
      EmptyIsIdentified(versioned);
      RunIdentified(cfg, Initial(versioned), events[..moments[i]]);
      IdentifiedIsNamed(Run(cfg, Initial(versioned), events[..moments[i]]).bucket);
    }
  }
}
