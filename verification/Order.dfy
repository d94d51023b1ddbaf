/** The order in which the bucket lists keys. */
module Order {
  predicate Less(a: string, b: string) {
    b != "" && (a == "" || a[0] < b[0] || (a[0] == b[0] && Less(a[1..], b[1..])))
  }

  lemma {:induction false} LessIrreflexive(a: string)
    ensures !Less(a, a)
  {
    if a != "" {
      LessIrreflexive(a[1..]);
    }
  }

  lemma {:induction false} LessTransitive(a: string, b: string, c: string)
    requires Less(a, b) && Less(b, c)
    ensures Less(a, c)
  {
    if a != "" && a[0] == b[0] == c[0] {
      LessTransitive(a[1..], b[1..], c[1..]);
    }
  }

  lemma {:induction false} LessTotal(a: string, b: string)
    ensures Less(a, b) || Less(b, a) || a == b
  {
    if a != "" && b != "" && a[0] == b[0] {
      LessTotal(a[1..], b[1..]);
      if a[1..] == b[1..] {
        assert a == [a[0]] + a[1..] == b;
      }
    }
  }

  /** A common front does not matter. */
  lemma {:induction false} LessAfterPrefix(front: string, a: string, b: string)
    ensures Less(front + a, front + b) == Less(a, b)
  {
    if front == "" {
      assert front + a == a && front + b == b;
    } else {
      assert (front + a)[1..] == front[1..] + a && (front + b)[1..] == front[1..] + b;
      LessAfterPrefix(front[1..], a, b);
    }
  }

  /** Nor does a common end behind texts of one length. */
  lemma {:induction false} LessBeforeSuffix(a: string, b: string, end: string)
    requires |a| == |b|
    ensures Less(a + end, b + end) == Less(a, b)
  {
    if a == "" {
      assert a + end == end == b + end;
      LessIrreflexive(end);
    } else {
      assert (a + end)[1..] == a[1..] + end && (b + end)[1..] == b[1..] + end;
      LessBeforeSuffix(a[1..], b[1..], end);
    }
  }

  ghost predicate Sorted(keys: seq<string>) {
    forall i, j | 0 <= i < j < |keys| :: Less(keys[i], keys[j])
  }

  lemma {:induction false} AppendSorted(keys: seq<string>, k: string)
    requires Sorted(keys) && (keys == [] || Less(keys[|keys| - 1], k))
    ensures Sorted(keys + [k])
  {
    forall i | 0 <= i < |keys|
      ensures Less(keys[i], k)
    {
      if i < |keys| - 1 {
        LessTransitive(keys[i], keys[|keys| - 1], k);
      }
    }
  }

  lemma {:induction false} SortedIsDistinct(keys: seq<string>, i: nat, j: nat)
    requires Sorted(keys) && i < |keys| && j < |keys| && keys[i] == keys[j]
    ensures i == j
  {
    LessIrreflexive(keys[i]);
  }

  lemma {:induction false} HasMember(a: seq<string>)
    ensures a != [] <==> exists k :: k in a
  {
    if a != [] {
      assert a[0] in a;
    }
  }

  /** A sorted sequence is determined by its elements. */
  lemma {:induction false} SortedIsCanonical(a: seq<string>, b: seq<string>)
    requires Sorted(a) && Sorted(b) && forall k :: k in a <==> k in b
    ensures a == b
  {
    HasMember(a);
    HasMember(b);
    if a != [] {
      SameLast(a, b);
      hide Less;
      var front := FrontMembers(a);
      var front' := FrontMembers(b);
      forall k: string
        ensures k in front <==> k in front'
      {
        assert k in a <==> k in b;
      }
      SortedIsCanonical(front, front');
      assert a == front + [a[|a| - 1]] && b == front' + [b[|b| - 1]];
    }
  }

  lemma {:induction false} SameLast(a: seq<string>, b: seq<string>)
    requires Sorted(a) && Sorted(b) && a != [] && b != [] && forall k :: k in a <==> k in b
    ensures a[|a| - 1] == b[|b| - 1]
  {
    hide Less;
    var x, y := a[|a| - 1], b[|b| - 1];
    assert x in b && y in a;
    if x != y {
      assert Less(x, y) && Less(y, x);
      LessTransitive(x, y, x);
      LessIrreflexive(x);
    }
  }

  lemma {:induction false} FrontMembers(a: seq<string>) returns (front: seq<string>)
    requires Sorted(a) && a != []
    ensures front == a[..|a| - 1] && Sorted(front)
    ensures forall k :: k in front <==> k in a && k != a[|a| - 1]
  {
    hide Less;
    front := a[..|a| - 1];
    var last := a[|a| - 1];
    assert a == front + [last];
    if last in front {
      var i :| 0 <= i < |front| && front[i] == last;
      LessIrreflexive(last);
    }
  }

  lemma LeastExists(keys: set<string>) returns (least: string)
    requires keys != {}
    ensures least in keys && forall k | k in keys && k != least :: Less(least, k)
    decreases |keys|
  {
    hide Less;
    least :| least in keys;
    var rest := keys - {least};
    if rest != {} {
      var other := LeastExists(rest);
      LessTotal(least, other);
      if Less(least, other) {
        forall k | k in keys && k != least
          ensures Less(least, k)
        {
          if k != other {
            LessTransitive(least, other, k);
          }
        }
      } else {
        least := other;
      }
    }
  }

  method Least(keys: set<string>) returns (least: string)
    requires keys != {}
    ensures least in keys && forall k | k in keys && k != least :: Less(least, k)
  {
    least :| least in keys;
    var rest := keys - {least};
    while rest != {}
      invariant rest <= keys && least in keys
      invariant forall k | k in keys && k !in rest && k != least :: Less(least, k)
      decreases |rest|
    {
      var k :| k in rest;
      rest := rest - {k};
      LessTotal(least, k);
      if Less(k, least) {
        forall x | x in keys && x !in rest && x != k
          ensures Less(k, x)
        {
          if x != least {
            LessTransitive(k, least, x);
          }
        }
        least := k;
      }
    }
  }
}
