/**
 * Write-once documents (adapter.py, _publish_schema and _create_resource; migration.py): each is
 * written with If-None-Match, and a caller that meets an existing document compares it with its own.
 */
module Registers {
  import opened Wrappers

  datatype Failure = ConditionalConflict | BucketUnavailable

  // ---------------------------------------------------------------- one caller

  /** What a caller that runs alone does to the documents, and its answer: whether it created one. */
  function Registered<D(==)>(store: map<string, D>, key: string, document: D): (map<string, D>, Result<bool, Failure>) {
    if key !in store then (store[key := document], Ok(true))
    else if store[key] == document then (store, Ok(false))
    else (store, Err(ConditionalConflict))
  }

  class Documents<D(==)> {
    var store: map<string, D>

    constructor ()
      ensures store == map[]
    {
      store := map[];
    }

    /** A conditional write: false when the key already has a document. */
    method PutIfAbsent(key: string, document: D) returns (written: bool)
      modifies this
      ensures written <==> key !in old(store)
      ensures store == if written then old(store)[key := document] else old(store)
    {
      written := key !in store;
      if written {
        store := store[key := document];
      }
    }

    method Read(key: string) returns (document: Option<D>)
      ensures document == if key in store then Some(store[key]) else None
    {
      document := if key in store then Some(store[key]) else None;
    }

    method Register(key: string, document: D) returns (r: Result<bool, Failure>)
      modifies this
      ensures (store, r) == Registered(old(store), key, document)
    {
      var created := PutIfAbsent(key, document);
      if !created {
        var existing := Read(key);
        if existing != Some(document) {
          return Err(ConditionalConflict);
        }
      }
      return Ok(created);
    }
  }

  // ---------------------------------------------------------------- callers interleaved

  datatype CallStage = Writing | Comparing | Answered(answer: Result<bool, Failure>)

  datatype Call<D> = Call(key: string, document: D, stage: CallStage)

  function CallStep<D(==)>(store: map<string, D>, c: Call<D>): (map<string, D>, Call<D>) {
    match c.stage
    case Writing =>
      if c.key in store then (store, c.(stage := Comparing))
      else (store[c.key := c.document], c.(stage := Answered(Ok(true))))
    case Comparing =>
      if c.key in store && store[c.key] == c.document then (store, c.(stage := Answered(Ok(false))))
      else (store, c.(stage := Answered(Err(ConditionalConflict))))
    case Answered(_) => (store, c)
  }

  datatype Hub<D> = Hub(store: map<string, D>, calls: seq<Call<D>>)

  /** A call that no event names any more has stopped where it stands. */
  datatype HubEvent<D> = Begin(key: string, document: D) | Proceed(index: nat)

  function Apply<D(==)>(h: Hub<D>, e: HubEvent<D>): Hub<D> {
    match e
    case Begin(key, document) => h.(calls := h.calls + [Call(key, document, Writing)])
    case Proceed(i) =>
      if i >= |h.calls| then h
      else var (store, c) := CallStep(h.store, h.calls[i]); Hub(store, h.calls[i := c])
  }

  function Run<D(==)>(h: Hub<D>, events: seq<HubEvent<D>>): Hub<D>
    decreases |events|
  {
    if events == [] then h else Run(Apply(h, events[0]), events[1..])
  }

  /** Alone, the steps of a call end as `Registered` says. */
  lemma CallIsRegistered<D>(store: map<string, D>, key: string, document: D)
    ensures var (store1, c1) := CallStep(store, Call(key, document, Writing));
            var (store2, c2) := CallStep(store1, c1);
            c2.stage.Answered? && (store2, c2.stage.answer) == Registered(store, key, document)
  {
  }

  ghost predicate Created<D(!new)>(h: Hub<D>, i: nat) {
    i < |h.calls| && h.calls[i].stage == Answered(Ok(true))
  }

  /** A finished call succeeded just when it submitted the stored document, and otherwise reports a conflict. */
  ghost predicate Consistent<D(!new)>(store: map<string, D>, c: Call<D>) {
    && (c.stage.Comparing? ==> c.key in store)
    && (c.stage.Answered? ==>
          && c.key in store && (c.stage.answer.Ok? <==> store[c.key] == c.document)
          && (c.stage.answer.Err? ==> c.stage.answer == Err(ConditionalConflict)))
  }

  ghost predicate OneCreator<D(!new)>(first: map<string, D>, h: Hub<D>) {
    && (forall i: nat | Created(h, i) :: h.calls[i].key !in first)
    && (forall i: nat, j: nat | Created(h, i) && Created(h, j) && h.calls[i].key == h.calls[j].key :: i == j)
  }

  ghost predicate HasCreator<D(!new)>(h: Hub<D>, key: string) {
    exists i: nat :: Created(h, i) && h.calls[i].key == key
  }

  ghost predicate Agreed<D(!new)>(first: map<string, D>, h: Hub<D>) {
    && (forall key | key in first :: key in h.store && h.store[key] == first[key])
    && (forall i | 0 <= i < |h.calls| :: Consistent(h.store, h.calls[i]))
    && OneCreator(first, h)
    && (forall key | key in h.store && key !in first :: HasCreator(h, key))
  }

  /** One step of a call: it writes only where nothing was, and then it has created the document. */
  lemma CallEffect<D>(store: map<string, D>, c: Call<D>)
    ensures var (store', c') := CallStep(store, c);
            && c'.key == c.key && c'.document == c.document
            && (forall key | key in store :: key in store' && store'[key] == store[key])
            && (forall key | key in store' && key !in store :: key == c.key && c'.stage == Answered(Ok(true)))
            && (c'.stage == Answered(Ok(true)) ==>
                  c.stage == c'.stage || (c.key !in store && store' == store[c.key := c.document]))
            && (c.stage == Answered(Ok(true)) ==> c' == c)
            && (c'.stage.Comparing? && !c.stage.Answered? ==> c.key in store)
            && (c'.stage.Answered? && !c.stage.Answered? && (c.stage.Comparing? ==> c.key in store) ==>
                  && c.key in store' && (c'.stage.answer.Ok? <==> store'[c.key] == c.document)
                  && (c'.stage.answer.Err? ==> c'.stage.answer == Err(ConditionalConflict)))
            && (c.stage.Answered? ==> c' == c && store' == store)
  {
  }

  lemma StepAgrees<D(!new)>(first: map<string, D>, h: Hub<D>, e: HubEvent<D>)
    requires Agreed(first, h)
    ensures Agreed(first, Apply(h, e))
  {
    match e {
      case Begin(key, document) => BeginAgrees(first, h, Call(key, document, Writing));
      case Proceed(i) => if i < |h.calls| { ProceedAgrees(first, h, i); }
    }
    hide Agreed;
  }

  lemma BeginAgrees<D(!new)>(first: map<string, D>, h: Hub<D>, c: Call<D>)
    requires Agreed(first, h) && c.stage.Writing?
    ensures Agreed(first, h.(calls := h.calls + [c]))
  {
    var h' := h.(calls := h.calls + [c]);
    assert OneCreator(first, h') by {
      assert forall i: nat | Created(h', i) :: Created(h, i) && h'.calls[i] == h.calls[i];
    }
    forall key | HasCreator(h, key)
      ensures HasCreator(h', key)
    {
      var i: nat :| Created(h, i) && h.calls[i].key == key;
      assert Created(h', i);
    }
    hide Created, OneCreator, HasCreator;
  }

  lemma ProceedAgrees<D(!new)>(first: map<string, D>, h: Hub<D>, i: nat)
    requires Agreed(first, h) && i < |h.calls|
    ensures Agreed(first, Apply(h, Proceed(i)))
  {
    var c := h.calls[i];
    var (store', c') := CallStep(h.store, c);
    var h' := Hub(store', h.calls[i := c']);
    assert Apply(h, Proceed(i)) == h';
    CallEffect(h.store, c);
    hide CallStep, Apply;
    assert Consistent(h.store, c);
    assert Stepped(h, i, h');
    CreatorsKept(first, h, i, h');
    CreatorsOfAll(first, h, i, h');
    hide Stepped, OneCreator, HasCreator;
    forall j | 0 <= j < |h'.calls|
      ensures Consistent(h'.store, h'.calls[j])
    {
      assert Consistent(h.store, h.calls[j]);
    }
  }

  ghost predicate Stepped<D(!new)>(h: Hub<D>, i: nat, h': Hub<D>) {
    && i < |h.calls| == |h'.calls| && h'.calls == h.calls[i := h'.calls[i]]
    && h'.calls[i].key == h.calls[i].key
    && (forall key | key in h'.store && key !in h.store :: key == h.calls[i].key && Created(h', i))
    && (Created(h', i) ==> Created(h, i) || h.calls[i].key !in h.store)
    && (Created(h, i) ==> Created(h', i))
  }

  lemma CreatorsKept<D(!new)>(first: map<string, D>, h: Hub<D>, i: nat, h': Hub<D>)
    requires Agreed(first, h) && Stepped(h, i, h')
    ensures OneCreator(first, h')
  {
    forall j: nat | Created(h', j)
      ensures h'.calls[j].key == h.calls[j].key && (Created(h, j) || (j == i && h.calls[i].key !in h.store))
    {
    }
    forall j: nat | Created(h, j)
      ensures h.calls[j].key in h.store
    {
      assert Consistent(h.store, h.calls[j]);
    }
    hide HasCreator, Consistent;
  }

  lemma CreatorsOfAll<D(!new)>(first: map<string, D>, h: Hub<D>, i: nat, h': Hub<D>)
    requires Agreed(first, h) && Stepped(h, i, h')
    ensures forall key | key in h'.store && key !in first :: HasCreator(h', key)
  {
    hide Consistent, OneCreator;
    forall key | key in h'.store && key !in first
      ensures HasCreator(h', key)
    {
      if key in h.store {
        var j: nat :| Created(h, j) && h.calls[j].key == key;
        assert Created(h', j) && h'.calls[j].key == key;
      } else {
        assert Created(h', i) && h'.calls[i].key == key;
      }
    }
  }

  lemma {:induction false} RunAgrees<D(!new)>(first: map<string, D>, h: Hub<D>, events: seq<HubEvent<D>>)
    requires Agreed(first, h)
    ensures Agreed(first, Run(h, events))
    decreases |events|
  {
    if events != [] {
      StepAgrees(first, h, events[0]);
      RunAgrees(first, Apply(h, events[0]), events[1..]);
    }
  }

  /**
   * Agreement under any interleaving: documents never change; a finished call succeeded just when it
   * submitted the stored document; a key that was free is written by exactly one call, and only that
   * call reports that it created the document.
   */
  lemma {:induction false} RegistersAgree<D(!new)>(first: map<string, D>, earlier: seq<HubEvent<D>>,
                                                   later: seq<HubEvent<D>>)
    ensures var middle := Run(Hub(first, []), earlier);
            var h := Run(middle, later);
            && (forall key | key in middle.store :: key in h.store && h.store[key] == middle.store[key])
            && (forall i | 0 <= i < |h.calls| :: Consistent(h.store, h.calls[i]))
            && (forall i: nat, j: nat | Created(h, i) && Created(h, j) && h.calls[i].key == h.calls[j].key :: i == j)
            && (forall key :: key in h.store && key !in first <==> HasCreator(h, key))
  {
    RunAgrees(first, Hub(first, []), earlier);
    var middle := Run(Hub(first, []), earlier);
    RunAgrees(first, middle, later);
    StoreGrows(middle, later);
    var h := Run(middle, later);
    forall i: nat | Created(h, i)
      ensures h.calls[i].key in h.store && h.calls[i].key !in first
    {
      assert Consistent(h.store, h.calls[i]);
    }
  }

  lemma {:induction false} StoreGrows<D>(h: Hub<D>, events: seq<HubEvent<D>>)
    ensures forall key | key in h.store :: key in Run(h, events).store && Run(h, events).store[key] == h.store[key]
    decreases |events|
  {
    if events != [] {
      StoreGrows(Apply(h, events[0]), events[1..]);
    }
  }
}
