/** Migration plans and their write-once record (migration.py). */
module Migration {
  import opened Wrappers
  import opened Order
  import opened Registers
  import Layout

  const S3_METADATA_REVISION := 1

  const OBJECT_CATALOG := "object"

  /** Ordered by catalog, then namespace, then name. */
  datatype ResourceRef = ResourceRef(catalog: string, namespace: string, name: string)

  predicate Before(r: ResourceRef, s: ResourceRef) {
    Less(r.catalog, s.catalog)
    || (r.catalog == s.catalog && (Less(r.namespace, s.namespace)
                                   || (r.namespace == s.namespace && Less(r.name, s.name))))
  }

  lemma BeforeIsStrict(r: ResourceRef)
    ensures !Before(r, r)
  {
    LessIrreflexive(r.catalog);
    LessIrreflexive(r.namespace);
    LessIrreflexive(r.name);
  }

  lemma BeforeTransitive(r: ResourceRef, s: ResourceRef, t: ResourceRef)
    requires Before(r, s) && Before(s, t)
    ensures Before(r, t)
  {
    if Less(r.catalog, s.catalog) && Less(s.catalog, t.catalog) {
      LessTransitive(r.catalog, s.catalog, t.catalog);
    }
    if Less(r.namespace, s.namespace) && Less(s.namespace, t.namespace) {
      LessTransitive(r.namespace, s.namespace, t.namespace);
    }
    if Less(r.name, s.name) && Less(s.name, t.name) {
      LessTransitive(r.name, s.name, t.name);
    }
  }

  lemma BeforeTotal(r: ResourceRef, s: ResourceRef)
    ensures Before(r, s) || Before(s, r) || r == s
  {
    LessTotal(r.catalog, s.catalog);
    LessTotal(r.namespace, s.namespace);
    LessTotal(r.name, s.name);
  }

  // ---------------------------------------------------------------- plans

  datatype Plan = Plan(currentRevision: int, targetRevision: int, resources: seq<ResourceRef>, actions: seq<string>)

  datatype PlanError = InvalidPlan

  function Insert(r: ResourceRef, sorted: seq<ResourceRef>): seq<ResourceRef> {
    if sorted == [] || !Before(sorted[0], r) then [r] + sorted else [sorted[0]] + Insert(r, sorted[1..])
  }

  function Sort(resources: seq<ResourceRef>): seq<ResourceRef> {
    if resources == [] then [] else Insert(resources[0], Sort(resources[1..]))
  }

  function Elements(resources: seq<ResourceRef>): set<ResourceRef> {
    set r | r in resources
  }

  predicate Distinct(resources: seq<ResourceRef>) {
    |Elements(resources)| == |resources|
  }

  /** Forward-only, to the one known revision, over distinct Object Resources in canonical order. */
  function MakePlan(current: int, target: int, resources: seq<ResourceRef>, actions: seq<string>)
    : Result<Plan, PlanError>
  {
    if current < 0 || target <= current then Err(InvalidPlan)
    else if target != S3_METADATA_REVISION then Err(InvalidPlan)
    else
      var normalized := Sort(resources);
      if normalized == [] || !Distinct(normalized) then Err(InvalidPlan)
      else if exists r :: r in normalized && r.catalog != OBJECT_CATALOG then Err(InvalidPlan)
      else Ok(Plan(current, target, normalized, actions))
  }

  ghost predicate StrictlyOrdered(resources: seq<ResourceRef>) {
    forall i, j | 0 <= i < j < |resources| :: Before(resources[i], resources[j])
  }

  /** Ordered, where equal elements may stand side by side. */
  ghost predicate Ordered(resources: seq<ResourceRef>) {
    forall i, j | 0 <= i < j < |resources| :: !Before(resources[j], resources[i])
  }

  lemma {:induction false} InsertOrders(r: ResourceRef, sorted: seq<ResourceRef>)
    requires Ordered(sorted)
    ensures Ordered(Insert(r, sorted)) && multiset(Insert(r, sorted)) == multiset(sorted) + multiset{r}
  {
    hide Before;
    var all := Insert(r, sorted);
    if sorted == [] {
    } else if !Before(sorted[0], r) {
      forall j | 0 < j < |all|
        ensures !Before(all[j], r)
      {
        if Before(all[j], r) && j > 1 {
          BeforeTotal(sorted[0], all[j]);
          BeforeTotal(sorted[0], r);
          if Before(sorted[0], all[j]) {
            BeforeTransitive(sorted[0], all[j], r);
          }
        }
      }
    } else {
      InsertOrders(r, sorted[1..]);
      assert sorted == [sorted[0]] + sorted[1..];
      var rest := Insert(r, sorted[1..]);
      forall j | 0 <= j < |rest|
        ensures !Before(rest[j], sorted[0])
      {
        assert rest[j] in multiset(rest);
        assert rest[j] == r || rest[j] in sorted[1..];
        if Before(rest[j], sorted[0]) && rest[j] == r {
          BeforeTransitive(sorted[0], r, sorted[0]);
          BeforeIsStrict(sorted[0]);
        }
      }
    }
  }

  lemma {:induction false} SortOrders(resources: seq<ResourceRef>)
    ensures Ordered(Sort(resources)) && multiset(Sort(resources)) == multiset(resources)
  {
    if resources != [] {
      SortOrders(resources[1..]);
      InsertOrders(resources[0], Sort(resources[1..]));
      assert resources == [resources[0]] + resources[1..];
    }
  }

  lemma {:induction false} ElementsUnfold(resources: seq<ResourceRef>)
    ensures |Elements(resources)| <= |resources|
    ensures resources != [] ==> Elements(resources) == {resources[0]} + Elements(resources[1..])
  {
    if resources != [] {
      assert resources == [resources[0]] + resources[1..];
      assert Elements(resources) == {resources[0]} + Elements(resources[1..]);
      ElementsUnfold(resources[1..]);
    }
  }

  ghost predicate Pairwise(resources: seq<ResourceRef>) {
    forall i, j | 0 <= i < j < |resources| :: resources[i] != resources[j]
  }

  lemma {:induction false} PairwiseUnfold(resources: seq<ResourceRef>)
    requires resources != []
    ensures Pairwise(resources) <==> resources[0] !in resources[1..] && Pairwise(resources[1..])
  {
    var rest := resources[1..];
    assert forall j | 0 < j < |resources| :: resources[j] == rest[j - 1];
    if resources[0] !in rest && Pairwise(rest) {
      forall i, j | 0 <= i < j < |resources|
        ensures resources[i] != resources[j]
      {
        if i == 0 {
          assert rest[j - 1] in rest;
        } else {
          assert rest[i - 1] != rest[j - 1];
        }
      }
    }
  }

  lemma {:induction false} DistinctMeans(resources: seq<ResourceRef>)
    ensures Distinct(resources) <==> Pairwise(resources)
  {
    ElementsUnfold(resources);
    if resources != [] {
      var rest := resources[1..];
      ElementsUnfold(rest);
      DistinctMeans(rest);
      PairwiseUnfold(resources);
      hide Pairwise;
      assert resources[0] in Elements(rest) <==> resources[0] in rest;
      hide Elements;
      if resources[0] in rest {
        assert Elements(resources) == Elements(rest);
      }
    }
  }

  lemma {:induction false} DistinctIsOrderly(resources: seq<ResourceRef>)
    requires Ordered(resources) && Distinct(resources)
    ensures StrictlyOrdered(resources)
  {
    DistinctMeans(resources);
    forall i, j | 0 <= i < j < |resources|
      ensures Before(resources[i], resources[j])
    {
      BeforeTotal(resources[i], resources[j]);
    }
  }

  /** A strictly ordered sequence is determined by its elements. */
  lemma {:induction false} OrderIsCanonical(a: seq<ResourceRef>, b: seq<ResourceRef>)
    requires StrictlyOrdered(a) && StrictlyOrdered(b) && multiset(a) == multiset(b)
    ensures a == b
  {
    assert |multiset(a)| == |a| && |multiset(b)| == |b|;
    if a != [] {
      SameLeast(a, b);
      assert a == [a[0]] + a[1..] && b == [b[0]] + b[1..];
      assert multiset(a[1..]) == multiset(a) - multiset{a[0]};
      hide Before;
      OrderIsCanonical(a[1..], b[1..]);
    }
  }

  lemma {:induction false} SameLeast(a: seq<ResourceRef>, b: seq<ResourceRef>)
    requires StrictlyOrdered(a) && StrictlyOrdered(b) && multiset(a) == multiset(b) && a != [] && b != []
    ensures a[0] == b[0]
  {
    hide Before;
    assert a[0] in multiset(b) && b[0] in multiset(a);
    var i :| 0 <= i < |b| && b[i] == a[0];
    var j :| 0 <= j < |a| && a[j] == b[0];
    if i > 0 && j > 0 {
      BeforeTransitive(a[0], b[0], a[0]);
      BeforeIsStrict(a[0]);
    }
  }

  lemma {:induction false} SameMultisetDistinct(a: seq<ResourceRef>, b: seq<ResourceRef>)
    requires multiset(a) == multiset(b)
    ensures Distinct(a) <==> Distinct(b)
    ensures forall r :: r in a <==> r in b
  {
    forall r
      ensures r in a <==> r in b
    {
      assert r in multiset(a) <==> r in multiset(b);
    }
    assert Elements(a) == Elements(b);
    assert |a| == |multiset(a)| == |b|;
  }

  /** Exactly which plans are accepted, and that they keep what was asked for, with the resources in canonical order. */
  lemma {:induction false} PlanAccepted(current: int, target: int, resources: seq<ResourceRef>, actions: seq<string>)
    ensures var r := MakePlan(current, target, resources, actions);
            && (r.Ok? <==> current == 0 && target == 1 && resources != []
                           && Pairwise(resources)
                           && (forall x | x in resources :: x.catalog == OBJECT_CATALOG))
            && (r.Ok? ==>
                  && r.value.currentRevision == current && r.value.targetRevision == target
                  && r.value.actions == actions
                  && StrictlyOrdered(r.value.resources) && multiset(r.value.resources) == multiset(resources))
  {
    SortOrders(resources);
    SameMultisetDistinct(Sort(resources), resources);
    DistinctMeans(resources);
    assert resources == [] <==> Sort(resources) == [] by { assert |multiset(Sort(resources))| ==
                                                          |multiset(resources)|; }
    hide Sort, Distinct, Ordered, StrictlyOrdered, Before;
    if Distinct(Sort(resources)) {
      DistinctIsOrderly(Sort(resources));
    }
  }

  // ---------------------------------------------------------------- the record

  /**
   * Records the plan under the key of its revision, the one that plans can have, once the bucket was seen to be
   * there; true when this call applied it.
   */
  method ApplyPlan(documents: Documents<Plan>, layout: Layout.Layout, bucketThere: bool, plan: Plan)
    returns (r: Result<bool, Failure>)
    requires plan.targetRevision == S3_METADATA_REVISION
    modifies documents
    ensures !bucketThere ==> r == Err(BucketUnavailable) && documents.store == old(documents.store)
    ensures bucketThere ==>
              (documents.store, r) == Registered(old(documents.store), layout.Render(Layout.Migration), plan)
  {
    if !bucketThere {
      return Err(BucketUnavailable);
    }
    r := documents.Register(layout.Render(Layout.Migration), plan);
  }

  /**
   * What an accepted plan leaves under a free key: the step from revision 0 to 1, all its actions, and its
   * resources in canonical order; no other document changes.
   */
  lemma {:induction false} PlannedIsStored(store: map<string, Plan>, key: string, current: int, target: int,
                                           resources: seq<ResourceRef>, actions: seq<string>)
    requires MakePlan(current, target, resources, actions).Ok? && key !in store
    ensures var plan := MakePlan(current, target, resources, actions).value;
            var (applied, r) := Registered(store, key, plan);
            && plan.targetRevision == S3_METADATA_REVISION && r == Ok(true) && key in applied
            && applied[key].currentRevision == 0 && applied[key].targetRevision == 1
            && applied[key].actions == actions
            && StrictlyOrdered(applied[key].resources) && multiset(applied[key].resources) == multiset(resources)
            && applied - {key} == store
  {
    PlanAccepted(current, target, resources, actions);
    hide MakePlan, StrictlyOrdered;
  }

  /** A plan over the same resources in another order is the same plan, so applying it again is no conflict. */
  lemma {:induction false} ReorderedPlanIsApplied(store: map<string, Plan>, key: string, current: int, target: int,
                               resources: seq<ResourceRef>, reordered: seq<ResourceRef>, actions: seq<string>)
    requires multiset(resources) == multiset(reordered) && MakePlan(current, target, resources, actions).Ok?
        && key !in store
    ensures MakePlan(current, target, reordered, actions) == MakePlan(current, target, resources, actions)
    ensures var (applied, first) := Registered(store, key, MakePlan(current, target, resources, actions).value);
            && first == Ok(true)
            && Registered(applied, key, MakePlan(current, target, reordered, actions).value) == (applied, Ok(false))
  {
    PlanAccepted(current, target, resources, actions);
    PlanAccepted(current, target, reordered, actions);
    SameMultisetDistinct(resources, reordered);
    DistinctMeans(resources);
    DistinctMeans(reordered);
    assert resources == [] <==> reordered == [] by { assert |multiset(resources)| == |multiset(reordered)|; }
    hide Distinct, Sort;
    OrderIsCanonical(MakePlan(current, target, resources, actions).value.resources,
                     MakePlan(current, target, reordered, actions).value.resources);
  }
}
