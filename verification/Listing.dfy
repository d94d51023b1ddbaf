/**
 * Bounded listing (adapter.py, _list and _newest_version; transport.py, list_keys). `docs` holds the
 * reference records by key, as they stand during one call.
 */
module Listing {
  import opened Wrappers
  import opened Integrity
  import opened Bucket
  import opened Order
  import Layout

  type Documents = map<string, Envelope>

  // ---------------------------------------------------------------- one page of keys

  datatype KeyPage = KeyPage(keys: seq<string>, truncated: bool)

  /** A key with the prefix, after the start position. */
  predicate Listable(docs: Documents, prefix: string, after: Option<string>, k: string) {
    k in docs && prefix <= k && (after.None? || Less(after.value, k))
  }

  /** `seen` is an initial segment, in key order, of what is listable. */
  ghost predicate Initial(docs: Documents, prefix: string, after: Option<string>, seen: seq<string>) {
    && Sorted(seen)
    && (forall k | k in seen :: Listable(docs, prefix, after, k))
    && (forall k | Listable(docs, prefix, after, k) && k !in seen :: seen == [] || Less(seen[|seen| - 1], k))
  }

  ghost predicate Complete(docs: Documents, prefix: string, after: Option<string>, seen: seq<string>) {
    forall k | Listable(docs, prefix, after, k) :: k in seen
  }

  /** The provider's list call: the first `maxKeys` keys, and whether there are more. */
  method ListKeys(docs: Documents, prefix: string, maxKeys: nat, after: Option<string>) returns (page: KeyPage)
    requires maxKeys > 0
    ensures Initial(docs, prefix, after, page.keys)
    ensures page.truncated <==> !Complete(docs, prefix, after, page.keys)
    ensures |page.keys| <= maxKeys && (page.truncated ==> |page.keys| == maxKeys)
  {
    var rest := set k | k in docs && Listable(docs, prefix, after, k);
    var keys: seq<string> := [];
    while rest != {} && |keys| < maxKeys
      invariant Initial(docs, prefix, after, keys) && |keys| <= maxKeys
      invariant forall k | Listable(docs, prefix, after, k) :: k in rest <==> k !in keys
      invariant forall k | k in rest :: Listable(docs, prefix, after, k)
      decreases |rest|
    {
      var k := Least(rest);
      AppendSorted(keys, k);
      keys := keys + [k];
      rest := rest - {k};
    }
    page := KeyPage(keys, rest != {});
    if rest != {} {
      var k :| k in rest;
      assert Listable(docs, prefix, after, k) && k !in keys;
    }
  }

  /** Continuing after the last key of an initial segment extends it. */
  lemma {:induction false} InitialExtends(docs: Documents, prefix: string, after: Option<string>, seen: seq<string>,
                                          more: seq<string>)
    requires seen != [] && Initial(docs, prefix, after, seen)
    requires Initial(docs, prefix, Some(seen[|seen| - 1]), more)
    ensures Initial(docs, prefix, after, seen + more)
    ensures Complete(docs, prefix, Some(seen[|seen| - 1]), more) ==> Complete(docs, prefix, after, seen + more)
  {
    var last := seen[|seen| - 1];
    forall i, j | 0 <= i < j < |seen + more|
      ensures Less((seen + more)[i], (seen + more)[j])
    {
      if i < |seen| <= j {
        assert more[j - |seen|] in more;
        if i < |seen| - 1 {
          LessTransitive(seen[i], last, more[j - |seen|]);
        }
      }
    }
    forall k | k in more
      ensures Listable(docs, prefix, after, k)
    {
      assert last in seen;
      if after.Some? {
        LessTransitive(after.value, last, k);
      }
    }
    forall k | Listable(docs, prefix, after, k) && k !in seen
      ensures Listable(docs, prefix, Some(last), k)
    {
    }
  }

  lemma {:induction false} PrefixIsInitial(docs: Documents, prefix: string, after: Option<string>, seen: seq<string>,
                                           n: nat)
    requires Initial(docs, prefix, after, seen) && n <= |seen|
    ensures Initial(docs, prefix, after, seen[..n])
  {
    forall k | Listable(docs, prefix, after, k) && k !in seen[..n]
      ensures n == 0 || Less(seen[n - 1], k)
    {
      if n > 0 {
        if k in seen {
          assert seen == seen[..n] + seen[n..];
          var i :| 0 <= i < |seen[n..]| && seen[n..][i] == k;
          assert seen[n + i] == k;
        } else if n < |seen| {
          LessTransitive(seen[n - 1], seen[|seen| - 1], k);
        }
      }
    }
    forall k | k in seen[..n]
      ensures Listable(docs, prefix, after, k)
    {
      assert k in seen;
    }
  }

  // ---------------------------------------------------------------- the list operation

  const MAX_INTERNAL_LIST_PAGES: nat := 10
  const PAGE_SIZE: nat := 1000

  /** The metadata of those scanned records whose object id has the prefix, in scanning order. */
  function ItemsOf(docs: Documents, idPrefix: string, seen: seq<string>): seq<Metadata>
    requires forall k | k in seen :: k in docs
  {
    if seen == [] then []
    else
      var last := seen[|seen| - 1];
      assert last in seen && forall k | k in seen[..|seen| - 1] :: k in seen;
      ItemsOf(docs, idPrefix, seen[..|seen| - 1])
      + (if idPrefix <= docs[last].metadata.objectRef.id then [docs[last].metadata] else [])
  }

  lemma {:induction false} ItemsOfAppend(docs: Documents, idPrefix: string, seen: seq<string>, k: string)
    requires k in docs && forall x | x in seen :: x in docs
    ensures ItemsOf(docs, idPrefix, seen + [k]) ==
            ItemsOf(docs, idPrefix, seen) + (if idPrefix <= docs[k].metadata.objectRef.id then [docs[k].metadata]
                                             else [])
  {
    assert (seen + [k])[..|seen|] == seen;
  }

  lemma NoItems(docs: Documents, idPrefix: string)
    ensures ItemsOf(docs, idPrefix, []) == []
  {
  }

  lemma {:induction false} ItemsOfConcat(docs: Documents, idPrefix: string, seen: seq<string>, more: seq<string>)
    requires forall x | x in seen + more :: x in docs
    ensures (forall x | x in seen :: x in docs) && (forall x | x in more :: x in docs)
    ensures ItemsOf(docs, idPrefix, seen + more) == ItemsOf(docs, idPrefix, seen) + ItemsOf(docs, idPrefix, more)
    decreases |more|
  {
    assert forall x | x in seen || x in more :: x in seen + more;
    if more == [] {
      assert seen + more == seen;
    } else {
      var last := more[|more| - 1];
      var front := more[..|more| - 1];
      assert seen + more == seen + front + [last] && more == front + [last];
      ItemsOfConcat(docs, idPrefix, seen, front);
      ItemsOfAppend(docs, idPrefix, seen + front, last);
      ItemsOfAppend(docs, idPrefix, front, last);
    }
  }

  datatype ListResult = ListResult(items: seq<Metadata>, cursor: Option<string>)

  /** Every key under the resource's prefix can be named by a cursor, as the layout's keys can. */
  ghost predicate Resumable(layout: Layout.Layout, docs: Documents, resource: string) {
    forall k | k in docs && layout.ReferencePrefix(resource) <= k :: layout.UnderPrefix(resource, k)
  }

  /**
   * One bounded call. `seen` are the keys whose records were read. No cursor comes back exactly when
   * nothing is left and one page held it all; otherwise the cursor resumes right behind the last key read.
   * At most two pages are fetched.
   */
  method List(layout: Layout.Layout, docs: Documents, resource: string, idPrefix: string, limit: nat,
              cursor: Option<string>)
    returns (r: Result<ListResult, Layout.CursorError>, ghost seen: seq<string>, ghost pages: nat)
    requires limit >= 1 && Resumable(layout, docs, resource)
    ensures r.Err? <==> layout.StartAfter(resource, cursor).Err?
    ensures r.Ok? ==>
              var after := layout.StartAfter(resource, cursor).value;
              && Initial(docs, layout.ReferencePrefix(resource), after, seen)
              && r.value.items == ItemsOf(docs, idPrefix, seen) && |r.value.items| <= limit
              && (r.value.cursor.None? <==>
                    Complete(docs, layout.ReferencePrefix(resource), after, seen) && |seen| <= PAGE_SIZE)
              && (r.value.cursor.Some? ==>
                    seen != [] && layout.StartAfter(resource, r.value.cursor) == Ok(Some(seen[|seen| - 1])))
    ensures pages <= 2
  {
    hide Resumable, Initial, Complete, Listable, ItemsOf, Scanned, Less;
    hide Layout.Layout.StartAfter, Layout.Layout.CursorForKey, Layout.Layout.UnderPrefix, Layout.Layout.ReferencePrefix;
    seen, pages := [], 0;
    var started := layout.StartAfter(resource, cursor);
    if started.Err? {
      return Err(started.error), seen, pages;
    }
    var prefix := layout.ReferencePrefix(resource);
    var items, lastScanned, more;
    items, lastScanned, more, seen, pages := ScanPages(docs, prefix, started.value, idPrefix, limit);
    ScannedMeans(docs, prefix, started.value, seen, idPrefix, items);
    var next: Option<string> := None;
    if more && lastScanned.Some? {
      LastIsResumable(layout, docs, resource, started.value, seen);
      next := Some(layout.CursorForKey(resource, lastScanned.value));
    }
    r := Ok(ListResult(items, next));
  }

  /** The paging loop: what was read, and whether the call must end with a cursor. */
  method ScanPages(docs: Documents, prefix: string, after: Option<string>, idPrefix: string, limit: nat)
    returns (items: seq<Metadata>, lastScanned: Option<string>, more: bool, ghost seen: seq<string>, ghost pages: nat)
    requires limit >= 1
    ensures Scanned(docs, prefix, after, seen, idPrefix, items) && |items| <= limit
    ensures lastScanned == LastOf(seen)
    ensures more && lastScanned.Some? <==> !(Complete(docs, prefix, after, seen) && |seen| <= PAGE_SIZE)
    ensures pages <= 2
  {
    hide Initial, Complete, Listable, ItemsOf, Scanned, LastOf, Less;
    seen, pages := [], 0;
    LastOfAppend([], [], 0);
    NothingScanned(docs, prefix, after, idPrefix);
    var startAfter := after;
    items, lastScanned, more := [], None, false;
    var round := 0;
    while round < MAX_INTERNAL_LIST_PAGES
      invariant round == pages <= 1 && more == (round == 1)
      invariant Scanned(docs, prefix, after, seen, idPrefix, items) && |items| <= limit
      invariant lastScanned == LastOf(seen)
      invariant startAfter == if seen == [] then after else lastScanned
      invariant round == 0 <==> seen == []
      invariant round == 1 ==> |seen| == PAGE_SIZE && !Complete(docs, prefix, after, seen)
    {
      pages := pages + 1;
      var page := ListKeys(docs, prefix, PAGE_SIZE, startAfter);
      if page.keys == [] {
        EmptyPage(docs, prefix, after, startAfter, seen, idPrefix, items);
        more := false;
        break;
      }
      ghost var n;
      ghost var before, itemsBefore := seen, items;
      ScannedAreDocuments(docs, prefix, startAfter, page.keys);
      items, lastScanned, more, n := ScanPage(docs, idPrefix, limit, page.keys, items, lastScanned, more);
      ScannedSoFar(docs, prefix, after, startAfter, before, page.keys, n, idPrefix, itemsBefore);
      seen := before + page.keys[..n];
      LastOfAppend(before, page.keys, n);
      PageLeaves(docs, prefix, after, before, page, n);
      if more {
        break;
      }
      if !page.truncated {
        more := false;
        break;
      }
      startAfter := Some(page.keys[|page.keys| - 1]);
      more := true;
      round := round + 1;
    }
    LastOfAppend(seen, [], 0);
  }

  /** Behind what was read there is nothing; behind a truncated page that cannot be. */
  lemma {:induction false} EmptyPage(docs: Documents, prefix: string, after: Option<string>, startAfter: Option<string>,
                                     seen: seq<string>, idPrefix: string, items: seq<Metadata>)
    requires Scanned(docs, prefix, after, seen, idPrefix, items)
    requires Complete(docs, prefix, startAfter, []) && startAfter == if seen == [] then after else LastOf(seen)
    ensures Complete(docs, prefix, after, seen)
  {
    hide Less, ItemsOf;
    if seen != [] {
      forall k | Listable(docs, prefix, after, k)
        ensures k in seen
      {
        assert k !in seen ==> Listable(docs, prefix, startAfter, k);
      }
    }
  }

  /** What the keys read so far leave behind, on the first page and on the one after it. */
  lemma {:induction false} PageLeaves(docs: Documents, prefix: string, after: Option<string>,
                                      before: seq<string>, page: KeyPage, n: nat)
    requires Initial(docs, prefix, if before == [] then after else LastOf(before), page.keys)
    requires before == [] ==> (page.truncated <==> !Complete(docs, prefix, after, page.keys))
    requires |page.keys| <= PAGE_SIZE && (page.truncated ==> |page.keys| == PAGE_SIZE) && n <= |page.keys|
    requires before != [] ==> |before| == PAGE_SIZE && !Complete(docs, prefix, after, before)
    ensures var seen := before + page.keys[..n];
            if before != [] then !(Complete(docs, prefix, after, seen) && |seen| <= PAGE_SIZE)
            else
              && |seen| == n <= PAGE_SIZE
              && (Complete(docs, prefix, after, seen) <==> n == |page.keys| && !page.truncated)
  {
    hide Less;
    if before == [] {
      assert before + page.keys[..n] == page.keys[..n];
      if n < |page.keys| {
        PartIsIncomplete(docs, prefix, after, page.keys, n);
      } else {
        assert page.keys[..n] == page.keys;
      }
    } else if n == 0 {
      assert before + page.keys[..n] == before;
    }
  }

  lemma {:induction false} PartIsIncomplete(docs: Documents, prefix: string, after: Option<string>,
                                            keys: seq<string>, n: nat)
    requires Initial(docs, prefix, after, keys) && n < |keys|
    ensures !Complete(docs, prefix, after, keys[..n])
  {
    hide Less;
    assert keys[n] in keys && Listable(docs, prefix, after, keys[n]);
    if keys[n] in keys[..n] {
      var i :| 0 <= i < n && keys[..n][i] == keys[n];
      SortedIsDistinct(keys, i, n);
    }
  }

  /** Reads the records of one page until the limit is reached; `n` of them were read. */
  method ScanPage(docs: Documents, idPrefix: string, limit: nat, keys: seq<string>,
                  items0: seq<Metadata>, last0: Option<string>, more0: bool)
    returns (items: seq<Metadata>, last: Option<string>, more: bool, ghost n: nat)
    requires |items0| <= limit && forall k | k in keys :: k in docs
    ensures n <= |keys| && |items| <= limit
    ensures forall k | k in keys[..n] :: k in docs
    ensures items == items0 + ItemsOf(docs, idPrefix, keys[..n])
    ensures last == if n == 0 then last0 else Some(keys[n - 1])
    ensures if n < |keys| then more && |items| == limit else more == more0
  {
    hide ItemsOf;
    items, last, more := items0, last0, more0;
    var i := 0;
    NoItems(docs, idPrefix);
    assert keys[..0] == [];
    while i < |keys|
      invariant 0 <= i <= |keys| && |items| <= limit && more == more0
      invariant items == items0 + ItemsOf(docs, idPrefix, keys[..i])
      invariant last == if i == 0 then last0 else Some(keys[i - 1])
    {
      if |items| == limit {
        more := true;
        break;
      }
      var key := keys[i];
      assert keys[..i + 1] == keys[..i] + [key];
      ItemsOfAppend(docs, idPrefix, keys[..i], key);
      var envelope := docs[key];
      last := Some(key);
      if idPrefix <= envelope.metadata.objectRef.id {
        items := items + [envelope.metadata];
      }
      i := i + 1;
    }
    n := i;
    assert i == |keys| ==> keys[..i] == keys;
  }

  function LastOf(seen: seq<string>): Option<string> {
    if seen == [] then None else Some(seen[|seen| - 1])
  }

  /** The keys read so far, in order from the start, and the items they gave. */
  ghost predicate Scanned(docs: Documents, prefix: string, after: Option<string>, seen: seq<string>,
                          idPrefix: string, items: seq<Metadata>) {
    Initial(docs, prefix, after, seen) && items == ItemsOf(docs, idPrefix, seen)
  }

  lemma {:induction false} ScannedMeans(docs: Documents, prefix: string, after: Option<string>, seen: seq<string>,
                                        idPrefix: string, items: seq<Metadata>)
    requires Scanned(docs, prefix, after, seen, idPrefix, items)
    ensures Initial(docs, prefix, after, seen) && items == ItemsOf(docs, idPrefix, seen)
  {
  }

  lemma {:induction false} LastOfAppend(before: seq<string>, keys: seq<string>, n: nat)
    requires n <= |keys|
    ensures LastOf(before + keys[..n]) == if n == 0 then LastOf(before) else Some(keys[n - 1])
    ensures LastOf(before) == if before == [] then None else Some(before[|before| - 1])
  {
    assert n == 0 ==> before + keys[..n] == before;
  }

  lemma NothingScanned(docs: Documents, prefix: string, after: Option<string>, idPrefix: string)
    ensures Scanned(docs, prefix, after, [], idPrefix, [])
  {
  }

  lemma {:induction false} ScannedAreDocuments(docs: Documents, prefix: string, after: Option<string>,
                                               seen: seq<string>)
    requires Initial(docs, prefix, after, seen)
    ensures forall k | k in seen :: k in docs
  {
  }

  lemma {:induction false} LastIsResumable(layout: Layout.Layout, docs: Documents, resource: string,
                                           after: Option<string>, seen: seq<string>)
    requires Resumable(layout, docs, resource) && seen != []
    requires Initial(docs, layout.ReferencePrefix(resource), after, seen)
    ensures layout.UnderPrefix(resource, seen[|seen| - 1])
    ensures layout.StartAfter(resource, Some(layout.CursorForKey(resource, seen[|seen| - 1]))) ==
        Ok(Some(seen[|seen| - 1]))
  {
    var last := seen[|seen| - 1];
    assert last in seen && Listable(docs, layout.ReferencePrefix(resource), after, last);
    layout.ResumeAtKey(resource, last);
  }

  /** The keys of earlier pages and the first `n` of the current page. */
  lemma {:induction false} ScannedSoFar(docs: Documents, prefix: string, after: Option<string>,
                                        startAfter: Option<string>,
                     before: seq<string>, keys: seq<string>, n: nat, idPrefix: string, items: seq<Metadata>)
    requires Scanned(docs, prefix, after, before, idPrefix, items)
    requires Initial(docs, prefix, startAfter, keys) && n <= |keys|
    requires startAfter == if before == [] then after else LastOf(before)
    ensures forall k | k in keys[..n] :: k in docs
    ensures Scanned(docs, prefix, after, before + keys[..n], idPrefix, items + ItemsOf(docs, idPrefix, keys[..n]))
    ensures n == |keys| && Complete(docs, prefix, startAfter, keys) ==>
        Complete(docs, prefix, after, before + keys[..n])
    ensures n == 0 ==> before + keys[..n] == before && items + ItemsOf(docs, idPrefix, keys[..n]) == items
  {
    PrefixIsInitial(docs, prefix, startAfter, keys, n);
    ScannedAreDocuments(docs, prefix, after, before);
    ScannedAreDocuments(docs, prefix, startAfter, keys[..n]);
    assert n == |keys| ==> keys[..n] == keys;
    ItemsOfConcat(docs, idPrefix, before, keys[..n]);
    if before != [] {
      InitialExtends(docs, prefix, after, before, keys[..n]);
    } else {
      assert before + keys[..n] == keys[..n];
    }
  }

  // ---------------------------------------------------------------- walking to the end

  ghost function Remaining(docs: Documents, prefix: string, after: Option<string>): set<string> {
    set k | k in docs && Listable(docs, prefix, after, k)
  }

  /** Behind a scanned key less remains. */
  lemma {:induction false} RemainingShrinks(docs: Documents, prefix: string, after: Option<string>, seen: seq<string>)
    requires seen != [] && Initial(docs, prefix, after, seen)
    ensures |Remaining(docs, prefix, LastOf(seen))| < |Remaining(docs, prefix, after)|
  {
    var last := seen[|seen| - 1];
    assert last in seen;
    LessIrreflexive(last);
    forall k | k in Remaining(docs, prefix, Some(last))
      ensures k in Remaining(docs, prefix, after) - {last}
    {
      if after.Some? {
        LessTransitive(after.value, last, k);
      }
    }
    assert Remaining(docs, prefix, Some(last)) <= Remaining(docs, prefix, after) - {last};
    SubsetSize(Remaining(docs, prefix, Some(last)), Remaining(docs, prefix, after) - {last});
  }

  lemma {:induction false} SubsetSize<T>(a: set<T>, b: set<T>)
    requires a <= b
    ensures |a| <= |b|
  {
    if a != {} {
      var x :| x in a;
      SubsetSize(a - {x}, b - {x});
    }
  }

  /** The items of exactly the keys with the prefix, in key order. */
  ghost predicate Enumerates(docs: Documents, prefix: string, idPrefix: string, items: seq<Metadata>) {
    exists all: seq<string> ::
      Sorted(all) && (forall k :: k in all <==> k in docs && prefix <= k) && items == ItemsOf(docs, idPrefix, all)
  }

  /** There is only one such enumeration. */
  lemma {:induction false} EnumerationIsUnique(docs: Documents, prefix: string, idPrefix: string,
                                               a: seq<Metadata>, b: seq<Metadata>)
    requires Enumerates(docs, prefix, idPrefix, a) && Enumerates(docs, prefix, idPrefix, b)
    ensures a == b
  {
    var x: seq<string> :|
      Sorted(x) && (forall k :: k in x <==> k in docs && prefix <= k) && a == ItemsOf(docs, idPrefix, x);
    var y: seq<string> :|
      Sorted(y) && (forall k :: k in y <==> k in docs && prefix <= k) && b == ItemsOf(docs, idPrefix, y);
    SortedIsCanonical(x, y);
  }

  /**
   * Calls repeated until no cursor comes back enumerate exactly the references of the resource whose
   * object id has the prefix, in key order and each once, for every limit.
   */
  method Walk(layout: Layout.Layout, docs: Documents, resource: string, idPrefix: string, limit: nat)
    returns (items: seq<Metadata>)
    requires limit >= 1 && Resumable(layout, docs, resource)
    ensures Enumerates(docs, layout.ReferencePrefix(resource), idPrefix, items)
  {
    assert layout.StartAfter(resource, None) == Ok(None);
    hide Enumerates, Initial, Complete, ItemsOf, Scanned, Listable, Less, Remaining, LastOf;
    hide Layout.Layout.StartAfter, Layout.Layout.ReferencePrefix;
    ghost var prefix := layout.ReferencePrefix(resource);
    LastOfAppend([], [], 0);
    items := [];
    ghost var all: seq<string> := [];
    var cursor: Option<string> := None;
    ghost var after: Option<string> := None;
    NothingScanned(docs, prefix, None, idPrefix);
    while true
      invariant layout.StartAfter(resource, cursor) == Ok(after)
      invariant after == LastOf(all)
      invariant Scanned(docs, prefix, None, all, idPrefix, items)
      decreases |Remaining(docs, prefix, after)|
    {
      var r;
      ghost var seen, pages;
      r, seen, pages := List(layout, docs, resource, idPrefix, limit, cursor);
      ScannedSoFar(docs, prefix, None, after, all, seen, |seen|, idPrefix, items);
      LastOfAppend(all, seen, |seen|);
      LastOfAppend(seen, [], 0);
      assert seen[..|seen|] == seen;
      all := all + seen;
      items := items + r.value.items;
      cursor := r.value.cursor;
      if cursor.None? {
        CompleteEnumerates(docs, prefix, all, idPrefix, items);
        break;
      }
      RemainingShrinks(docs, prefix, after, seen);
      after := LastOf(seen);
    }
  }

  lemma {:induction false} CompleteEnumerates(docs: Documents, prefix: string, all: seq<string>, idPrefix: string,
                                              items: seq<Metadata>)
    requires Scanned(docs, prefix, None, all, idPrefix, items) && Complete(docs, prefix, None, all)
    ensures Enumerates(docs, prefix, idPrefix, items)
  {
    hide ItemsOf, Less;
    assert forall k :: Listable(docs, prefix, None, k) <==> k in docs && prefix <= k;
  }

  ghost function Concat(scans: seq<seq<string>>): seq<string> {
    if scans == [] then [] else Concat(scans[..|scans| - 1]) + scans[|scans| - 1]
  }

  /** The record was there at each of the first `n` calls. */
  ghost predicate Throughout(snapshots: seq<Documents>, n: nat, k: string)
    requires n <= |snapshots|
  {
    forall i | 0 <= i < n :: k in snapshots[i]
  }

  /** Call `i` scanned keys that its snapshot holds and answered with their items. */
  ghost predicate Answered(snapshots: seq<Documents>, prefix: string, idPrefix: string,
                           scans: seq<seq<string>>, answers: seq<seq<Metadata>>) {
    && |answers| == |scans| <= |snapshots|
    && forall i | 0 <= i < |scans| ::
         && (forall k | k in scans[i] :: k in snapshots[i] && prefix <= k)
         && answers[i] == ItemsOf(snapshots[i], idPrefix, scans[i])
  }

  /** What was there throughout is scanned already or lies beyond the position `after`. */
  ghost predicate Covered(snapshots: seq<Documents>, prefix: string, scans: seq<seq<string>>, after: Option<string>)
    requires |scans| <= |snapshots|
  {
    forall k | prefix <= k && Throughout(snapshots, |scans|, k) && k !in Concat(scans) ::
      after.None? || Less(after.value, k)
  }

  ghost predicate AllCovered(snapshots: seq<Documents>, prefix: string, scans: seq<seq<string>>)
    requires |scans| <= |snapshots|
  {
    forall k | prefix <= k && Throughout(snapshots, |scans|, k) :: k in Concat(scans)
  }

  /** `answers` come from scans that cover, without repetition, what was there throughout. */
  ghost predicate Walked(snapshots: seq<Documents>, prefix: string, idPrefix: string,
                         answers: seq<seq<Metadata>>, ended: bool) {
    exists scans: seq<seq<string>> ::
      && Answered(snapshots, prefix, idPrefix, scans, answers)
      && Sorted(Concat(scans))
      && (ended ==> AllCovered(snapshots, prefix, scans))
  }

  /**
   * The same walk over records that change between calls: call `i` sees `snapshots[i]`. No key is
   * scanned twice, each is scanned where it then was, and once the walk has ended every key that was
   * there throughout has been scanned.
   */
  method WalkWhileChanging(layout: Layout.Layout, snapshots: seq<Documents>, resource: string, idPrefix: string,
                           limit: nat)
    returns (answers: seq<seq<Metadata>>, ended: bool)
    requires limit >= 1 && forall i | 0 <= i < |snapshots| :: Resumable(layout, snapshots[i], resource)
    ensures Walked(snapshots, layout.ReferencePrefix(resource), idPrefix, answers, ended)
    ensures !ended ==> |answers| == |snapshots|
  {
    hide Initial, Complete, Answered, Covered, AllCovered, Walked;
    ghost var prefix := layout.ReferencePrefix(resource);
    answers, ended := [], false;
    ghost var scans: seq<seq<string>> := [];
    var cursor: Option<string> := None;
    ghost var after: Option<string> := None;
    NothingWalked(snapshots, prefix, idPrefix);
    while |answers| < |snapshots|
      invariant |answers| == |scans| <= |snapshots|
      invariant layout.StartAfter(resource, cursor) == Ok(after)
      invariant after == LastOf(Concat(scans)) && Sorted(Concat(scans))
      invariant Answered(snapshots, prefix, idPrefix, scans, answers)
      invariant Covered(snapshots, prefix, scans, after)
    {
      var docs := snapshots[|answers|];
      var r;
      ghost var seen, pages;
      r, seen, pages := List(layout, docs, resource, idPrefix, limit, cursor);
      ConcatSorted(docs, prefix, Concat(scans), seen);
      WalkStep(snapshots, prefix, idPrefix, scans, answers, seen, r.value.items);
      scans := scans + [seen];
      answers := answers + [r.value.items];
      cursor := r.value.cursor;
      if cursor.None? {
        ended := true;
        ScansWalk(snapshots, prefix, idPrefix, scans, answers, ended);
        return;
      }
      after := LastOf(seen);
    }
    ScansWalk(snapshots, prefix, idPrefix, scans, answers, ended);
  }

  lemma {:induction false} ScansWalk(snapshots: seq<Documents>, prefix: string, idPrefix: string,
                                     scans: seq<seq<string>>, answers: seq<seq<Metadata>>, ended: bool)
    requires Answered(snapshots, prefix, idPrefix, scans, answers) && Sorted(Concat(scans))
    requires ended ==> AllCovered(snapshots, prefix, scans)
    ensures Walked(snapshots, prefix, idPrefix, answers, ended)
  {
    hide Answered, Sorted, Concat, AllCovered;
  }

  lemma {:induction false} NothingWalked(snapshots: seq<Documents>, prefix: string, idPrefix: string)
    ensures Answered(snapshots, prefix, idPrefix, [], []) && Covered(snapshots, prefix, [], None)
  {
  }

  lemma {:induction false} WalkStep(snapshots: seq<Documents>, prefix: string, idPrefix: string,
                 scans: seq<seq<string>>, answers: seq<seq<Metadata>>, seen: seq<string>, items: seq<Metadata>)
    requires |scans| < |snapshots| && Answered(snapshots, prefix, idPrefix, scans, answers)
    requires Covered(snapshots, prefix, scans, LastOf(Concat(scans)))
    requires Initial(snapshots[|scans|], prefix, LastOf(Concat(scans)), seen)
    requires items == ItemsOf(snapshots[|scans|], idPrefix, seen)
    ensures Concat(scans + [seen]) == Concat(scans) + seen
    ensures Answered(snapshots, prefix, idPrefix, scans + [seen], answers + [items])
    ensures seen != [] ==> Covered(snapshots, prefix, scans + [seen], LastOf(seen))
    ensures Complete(snapshots[|scans|], prefix, LastOf(Concat(scans)), seen) ==>
        AllCovered(snapshots, prefix, scans + [seen])
  {
    assert (scans + [seen])[..|scans|] == scans;
    forall k | prefix <= k && Throughout(snapshots, |scans| + 1, k) && k !in Concat(scans) + seen
      ensures Listable(snapshots[|scans|], prefix, LastOf(Concat(scans)), k) && k !in seen
    {
      assert Throughout(snapshots, |scans|, k);
    }
  }

  lemma {:induction false} ConcatSorted(docs: Documents, prefix: string, before: seq<string>, seen: seq<string>)
    requires Sorted(before) && Initial(docs, prefix, LastOf(before), seen)
    ensures Sorted(before + seen)
  {
    forall i, j | 0 <= i < |before| && 0 <= j < |seen|
      ensures Less(before[i], seen[j])
    {
      assert seen[j] in seen;
      if i < |before| - 1 {
        LessTransitive(before[i], before[|before| - 1], seen[j]);
      }
    }
  }

  // ---------------------------------------------------------------- the newest version

  /** The newest record of another digest among the scanned ones; the first of equals. */
  ghost predicate NewestOf(docs: Documents, seen: seq<string>, exclude: Option<Digest>, selected: Option<Envelope>)
    requires forall k | k in seen :: k in docs
  {
    match selected
    case None => forall k | k in seen :: Some(docs[k].metadata.digest) == exclude
    case Some(envelope) =>
      exists i | 0 <= i < |seen| ::
        && docs[seen[i]] == envelope && Some(envelope.metadata.digest) != exclude
        && forall j | 0 <= j < |seen| && Some(docs[seen[j]].metadata.digest) != exclude ::
             if j < i then docs[seen[j]].metadata.createdAt < envelope.metadata.createdAt
             else docs[seen[j]].metadata.createdAt <= envelope.metadata.createdAt
  }

  lemma {:induction false} NewestMeans(docs: Documents, seen: seq<string>, exclude: Option<Digest>,
                                       selected: Option<Envelope>)
    returns (key: string)
    requires (forall k | k in seen :: k in docs) && NewestOf(docs, seen, exclude, selected)
    ensures selected.None? ==> forall k | k in seen :: Some(docs[k].metadata.digest) == exclude
    ensures selected.Some? ==>
              && key in seen && docs[key] == selected.value && Some(docs[key].metadata.digest) != exclude
              && forall k | k in seen && Some(docs[k].metadata.digest) != exclude ::
                   docs[k].metadata.createdAt <= docs[key].metadata.createdAt
  {
    key := "";
    if selected.Some? {
      var i :| 0 <= i < |seen| && docs[seen[i]] == selected.value && Some(selected.value.metadata.digest) != exclude
               && forall j | 0 <= j < |seen| && Some(docs[seen[j]].metadata.digest) != exclude ::
                    if j < i then docs[seen[j]].metadata.createdAt < selected.value.metadata.createdAt
                    else docs[seen[j]].metadata.createdAt <= selected.value.metadata.createdAt;
      key := seen[i];
    }
  }

  /** Some initial segment, the whole or the first 10,000 records, was read and its newest record selected. */
  ghost predicate ScanSelects(docs: Documents, prefix: string, exclude: Option<Digest>, selected: Option<Envelope>) {
    exists seen: seq<string> ::
      && Initial(docs, prefix, None, seen)
      && (Complete(docs, prefix, None, seen) || |seen| == MAX_INTERNAL_LIST_PAGES * PAGE_SIZE)
      && (forall k | k in seen :: k in docs)
      && NewestOf(docs, seen, exclude, selected)
  }

  /** The scan stops after ten full pages; with at most 10,000 records it has seen them all. */
  method NewestVersion(docs: Documents, prefix: string, exclude: Option<Digest>) returns (selected: Option<Envelope>)
    ensures ScanSelects(docs, prefix, exclude, selected)
  {
    hide ScanSelects, Initial, Complete, NewestOf, ItemsOf, Listable, Less;
    selected := None;
    ghost var seen: seq<string> := [];
    var startAfter: Option<string> := None;
    NothingScanned(docs, prefix, None, "");
    NothingSelected(docs, exclude);
    var round := 0;
    while round < MAX_INTERNAL_LIST_PAGES
      invariant 0 <= round <= MAX_INTERNAL_LIST_PAGES && |seen| == round * PAGE_SIZE
      invariant Initial(docs, prefix, None, seen) && startAfter == LastOf(seen)
      invariant forall k | k in seen :: k in docs
      invariant NewestOf(docs, seen, exclude, selected)
    {
      var page := ListKeys(docs, prefix, PAGE_SIZE, startAfter);
      ScannedAreDocuments(docs, prefix, startAfter, page.keys);
      ghost var before := seen;
      var i := 0;
      while i < |page.keys|
        invariant 0 <= i <= |page.keys| && seen == before + page.keys[..i]
        invariant forall k | k in seen :: k in docs
        invariant NewestOf(docs, seen, exclude, selected)
      {
        var envelope := docs[page.keys[i]];
        ghost var was := selected;
        if Some(envelope.metadata.digest) != exclude
           && (selected.None? || envelope.metadata.createdAt > selected.value.metadata.createdAt) {
          selected := Some(envelope);
        }
        NewestStep(docs, seen, exclude, was, page.keys[i]);
        assert page.keys[..i + 1] == page.keys[..i] + [page.keys[i]];
        seen := seen + [page.keys[i]];
        i := i + 1;
      }
      ScannedSoFar(docs, prefix, None, startAfter, before, page.keys, i, "", ItemsOf(docs, "", before));
      if !page.truncated || page.keys == [] {
        break;
      }
      startAfter := Some(page.keys[|page.keys| - 1]);
      round := round + 1;
    }
    SeenSelects(docs, prefix, exclude, selected, seen);
  }

  lemma NothingSelected(docs: Documents, exclude: Option<Digest>)
    ensures NewestOf(docs, [], exclude, None)
  {
  }

  lemma {:induction false} SeenSelects(docs: Documents, prefix: string, exclude: Option<Digest>,
                                       selected: Option<Envelope>, seen: seq<string>)
    requires Initial(docs, prefix, None, seen)
    requires Complete(docs, prefix, None, seen) || |seen| == MAX_INTERNAL_LIST_PAGES * PAGE_SIZE
    requires (forall k | k in seen :: k in docs) && NewestOf(docs, seen, exclude, selected)
    ensures ScanSelects(docs, prefix, exclude, selected)
  {
    hide Initial, Complete, NewestOf;
  }

  lemma {:induction false} NewestStep(docs: Documents, seen: seq<string>, exclude: Option<Digest>,
                                      selected: Option<Envelope>, k: string)
    requires k in docs && (forall x | x in seen :: x in docs) && NewestOf(docs, seen, exclude, selected)
    ensures var envelope := docs[k];
            NewestOf(docs, seen + [k], exclude,
                     if Some(envelope.metadata.digest) != exclude
                        && (selected.None? || envelope.metadata.createdAt > selected.value.metadata.createdAt)
                     then Some(envelope) else selected)
  {
    var all := seen + [k];
    var envelope := docs[k];
    if Some(envelope.metadata.digest) != exclude
       && (selected.None? || envelope.metadata.createdAt > selected.value.metadata.createdAt) {
      assert docs[all[|seen|]] == envelope;
      assert selected.None? ==> forall j | 0 <= j < |seen| :: seen[j] in seen;
    } else if selected.Some? {
      var i :| 0 <= i < |seen| && docs[seen[i]] == selected.value && Some(selected.value.metadata.digest) != exclude
               && forall j | 0 <= j < |seen| && Some(docs[seen[j]].metadata.digest) != exclude ::
                    if j < i then docs[seen[j]].metadata.createdAt < selected.value.metadata.createdAt
                    else docs[seen[j]].metadata.createdAt <= selected.value.metadata.createdAt;
      assert docs[all[i]] == selected.value;
    }
  }

  /** Digest that the scan for a successor can answer with. */
  ghost predicate ScanGives(docs: Documents, prefix: string, exclude: Digest, previous: Option<Digest>) {
    exists selected :: ScanSelects(docs, prefix, Some(exclude), selected)
                       && previous == if selected.Some? then Some(selected.value.metadata.digest) else None
  }

  /** There is an initial segment of every length that the documents reach. */
  lemma InitialExists(docs: Documents, prefix: string, n: nat) returns (seen: seq<string>)
    ensures Initial(docs, prefix, None, seen) && |seen| <= n
    ensures Complete(docs, prefix, None, seen) || |seen| == n
    ensures forall k | k in seen :: k in docs
  {
    hide Less;
    seen := [];
    if n > 0 {
      seen := InitialExists(docs, prefix, n - 1);
      if !Complete(docs, prefix, None, seen) {
        var rest := set k | k in docs && Listable(docs, prefix, None, k) && k !in seen;
        var k :| Listable(docs, prefix, None, k) && k !in seen;
        assert k in rest;
        var least := LeastExists(rest);
        hide Listable;
        AppendSorted(seen, least);
        LeastExtends(docs, prefix, seen, least);
        seen := seen + [least];
      }
    }
  }

  lemma {:induction false} LeastExtends(docs: Documents, prefix: string, seen: seq<string>, least: string)
    requires Initial(docs, prefix, None, seen) && Listable(docs, prefix, None, least) && least !in seen
    requires forall k | Listable(docs, prefix, None, k) && k !in seen && k != least :: Less(least, k)
    ensures Initial(docs, prefix, None, seen + [least])
  {
    hide Less, Listable;
    AppendSorted(seen, least);
  }

  lemma {:induction false} NewestExists(docs: Documents, seen: seq<string>, exclude: Option<Digest>)
    returns (selected: Option<Envelope>)
    requires forall k | k in seen :: k in docs
    ensures NewestOf(docs, seen, exclude, selected)
    decreases |seen|
  {
    hide NewestOf;
    if seen == [] {
      NothingSelected(docs, exclude);
      selected := None;
    } else {
      var front, last := seen[..|seen| - 1], seen[|seen| - 1];
      assert seen == front + [last] && last in seen && forall k | k in front :: k in seen;
      selected := NewestExists(docs, front, exclude);
      NewestStep(docs, front, exclude, selected, last);
      if Some(docs[last].metadata.digest) != exclude
         && (selected.None? || docs[last].metadata.createdAt > selected.value.metadata.createdAt) {
        selected := Some(docs[last]);
      }
    }
  }

  /** A scan always has an answer. */
  lemma AnswerExists(docs: Documents, prefix: string, exclude: Digest) returns (previous: Option<Digest>)
    ensures ScanGives(docs, prefix, exclude, previous)
  {
    hide Initial, Complete, NewestOf, ScanSelects;
    var seen := InitialExists(docs, prefix, MAX_INTERNAL_LIST_PAGES * PAGE_SIZE);
    var selected := NewestExists(docs, seen, Some(exclude));
    SeenSelects(docs, prefix, Some(exclude), selected, seen);
    previous := if selected.Some? then Some(selected.value.metadata.digest) else None;
  }

  lemma {:induction false} SortedSize(seen: seq<string>)
    requires Sorted(seen)
    ensures |set k | k in seen| == |seen|
  {
    if seen != [] {
      hide Less;
      var front, last := seen[..|seen| - 1], seen[|seen| - 1];
      SortedSize(front);
      assert seen == front + [last];
      var also := FrontMembers(seen);
      assert (set k | k in seen) == (set k | k in front) + {last};
    }
  }

  /** A scan that stops at its bound has missed nothing when there is no more than that. */
  lemma {:induction false} FullScanIsComplete(docs: Documents, seen: seq<string>)
    requires Initial(docs, "", None, seen)
    requires Complete(docs, "", None, seen) || |seen| == MAX_INTERNAL_LIST_PAGES * PAGE_SIZE
    requires |docs| <= MAX_INTERNAL_LIST_PAGES * PAGE_SIZE
    ensures Complete(docs, "", None, seen)
  {
    if |seen| == MAX_INTERNAL_LIST_PAGES * PAGE_SIZE {
      SortedSize(seen);
      var scanned := set k | k in seen;
      assert scanned <= docs.Keys;
      assert |docs.Keys| == |docs|;
      SubsetSize(docs.Keys - scanned, docs.Keys);
      assert |docs.Keys - scanned| == |docs.Keys| - |scanned|;
    }
  }
}
