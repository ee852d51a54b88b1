/** The order in which the writer's recursions visit the keys of a tree: every key once
    (`winreg-testutil/src/lib.rs`). */
module Preorders {
  import opened Sequences
  import opened Text
  import opened KeyTrees

  /** Names that the builder can write, on paths no longer than `bound`. */
  ghost predicate Bounded(t: KeyTree, bound: nat) {
    forall p, i {:trigger t.Kids(p)[i]} | 0 <= i < |t.Kids(p)| ::
      GoodChild(p, t.Kids(p)[i]) && |Child(p, t.Kids(p)[i])| <= bound
  }

  /** `p`, then what is below it, key by key. */
  function Preorder(t: KeyTree, p: string, bound: nat): seq<string>
    requires |p| <= bound
    decreases bound - |p|, |t.Kids(p)| + 1
  {
    [p] + PreorderBelow(t, p, t.Kids(p), bound)
  }

  /** The children of `path` with these names, each followed by what is below it. */
  function PreorderBelow(t: KeyTree, path: string, names: seq<string>, bound: nat): seq<string>
    requires |path| <= bound
    decreases bound - |path|, |names|
  {
    if names == [] then []
    else
      var p := Child(path, names[|names| - 1]);
      PreorderBelow(t, path, names[..|names| - 1], bound) + if |path| < |p| <= bound then Preorder(t, p, bound) else []
  }

  lemma {:induction false} LongerThanParent(t: KeyTree, path: string, i: nat, bound: nat)
    requires Bounded(t, bound) && i < |t.Kids(path)|
    ensures |path| < |Child(path, t.Kids(path)[i])| <= bound && GoodChild(path, t.Kids(path)[i])
  {
  }

  lemma PreorderSplit(t: KeyTree, path: string, names: seq<string>, bound: nat, p: string)
    requires |path| < |p| <= bound && names != [] && p == Child(path, names[|names| - 1])
    ensures PreorderBelow(t, path, names, bound)
         == PreorderBelow(t, path, names[..|names| - 1], bound) + Preorder(t, p, bound)
  {
  }

  /** The children visited first, then one more with all that is below it. */
  lemma {:induction false} PreorderNext(t: KeyTree, path: string, i: nat, bound: nat)
    requires Bounded(t, bound) && i < |t.Kids(path)| && |path| <= bound
    ensures |Child(path, t.Kids(path)[i])| <= bound
    ensures PreorderBelow(t, path, t.Kids(path)[..i + 1], bound)
         == PreorderBelow(t, path, t.Kids(path)[..i], bound) + Preorder(t, Child(path, t.Kids(path)[i]), bound)
  {
    LongerThanParent(t, path, i, bound);
    var names := t.Kids(path)[..i + 1];
    assert names[..i] == t.Kids(path)[..i] && names[i] == t.Kids(path)[i];
    PreorderSplit(t, path, names, bound, Child(path, names[i]));
  }

  // ----- what is visited -----

  ghost predicate IsBelow(p: string, top: string) {
    top != [] && (p == top || top + [SEP] <= p)
  }

  ghost predicate BelowOne(p: string, path: string, names: seq<string>) {
    names != [] && (IsBelow(p, Child(path, names[|names| - 1])) || BelowOne(p, path, names[..|names| - 1]))
  }

  lemma {:induction false} BelowWhich(p: string, path: string, names: seq<string>) returns (j: nat)
    requires BelowOne(p, path, names)
    ensures j < |names| && IsBelow(p, Child(path, names[j]))
  {
    j := |names| - 1;
    if !IsBelow(p, Child(path, names[j])) {
      j := BelowWhich(p, path, names[..j]);
    }
  }

  lemma BelowParent(p: string, path: string, n: string)
    requires IsBelow(p, Child(path, n)) && path != []
    ensures IsBelow(p, path) && p != path
  {
    assert path + [SEP] <= Child(path, n) <= p;
  }

  lemma BelowOneMore(p: string, path: string, names: seq<string>, i: nat)
    requires i < |names| && (BelowOne(p, path, names[..i]) || IsBelow(p, Child(path, names[i])))
    ensures BelowOne(p, path, names[..i + 1])
  {
    assert names[..i + 1][..i] == names[..i];
  }

  lemma {:induction false} VisitedBelow(t: KeyTree, path: string, i: nat, bound: nat, p: string)
    requires Bounded(t, bound) && |path| <= bound && i <= |t.Kids(path)|
    requires p in PreorderBelow(t, path, t.Kids(path)[..i], bound)
    ensures BelowOne(p, path, t.Kids(path)[..i])
    decreases bound - |path|, i
  {
    if i > 0 {
      PreorderNext(t, path, i - 1, bound);
      LongerThanParent(t, path, i - 1, bound);
      if p in Preorder(t, Child(path, t.Kids(path)[i - 1]), bound) {
        VisitedIn(t, Child(path, t.Kids(path)[i - 1]), bound, p);
      } else {
        VisitedBelow(t, path, i - 1, bound, p);
      }
      BelowOneMore(p, path, t.Kids(path), i - 1);
    }
  }

  lemma {:induction false} VisitedIn(t: KeyTree, q: string, bound: nat, p: string)
    requires Bounded(t, bound) && q != [] && |q| <= bound && p in Preorder(t, q, bound)
    ensures IsBelow(p, q)
    decreases bound - |q|, |t.Kids(q)| + 1
  {
    var n := |t.Kids(q)|;
    assert t.Kids(q)[..n] == t.Kids(q);
    if p != q {
      VisitedBelow(t, q, n, bound, p);
      var j := BelowWhich(p, q, t.Kids(q)[..n]);
      BelowParent(p, q, t.Kids(q)[j]);
    }
  }

  // ----- nothing is visited twice -----

  /** The children of each key have different names. */
  ghost predicate KidsApart(t: KeyTree) {
    forall p {:trigger t.Kids(p)} :: Distinct(t.Kids(p))
  }

  /** A component ends at the first separator. */
  lemma SameComponent(a: string, b: string, rest: string)
    requires SEP !in a && SEP !in b && a + [SEP] <= rest && b + [SEP] <= rest
    ensures a == b
  {
    SplitFirst(a, rest[|a| + 1..]);
    SplitFirst(b, rest[|b| + 1..]);
    assert rest == a + [SEP] + rest[|a| + 1..] && rest == b + [SEP] + rest[|b| + 1..];
    assert ([a] + Split(rest[|a| + 1..]))[0] == a && ([b] + Split(rest[|b| + 1..]))[0] == b;
  }

  lemma StartOfPath(p: string, path: string, n: string)
    requires IsBelow(p, Child(path, n))
    ensures var from := if path == [] then 0 else |path| + 1;
            from <= |p| && n + [SEP] <= p[from..] + [SEP]
  {
    var from := if path == [] then 0 else |path| + 1;
    var top := Child(path, n);
    assert top[from..] == n;
    if p != top {
      assert p[from..][..|n| + 1] == p[..|top| + 1][from..] == (top + [SEP])[from..] == n + [SEP];
      assert (p[from..] + [SEP])[..|n| + 1] == p[from..][..|n| + 1];
    }
  }

  lemma SubtreesApart(p: string, path: string, a: string, b: string)
    requires SEP !in a && SEP !in b && IsBelow(p, Child(path, a)) && IsBelow(p, Child(path, b))
    ensures a == b
  {
    var from := if path == [] then 0 else |path| + 1;
    StartOfPath(p, path, a);
    StartOfPath(p, path, b);
    SameComponent(a, b, p[from..] + [SEP]);
  }

  lemma DistinctConcat<T>(a: seq<T>, b: seq<T>)
    requires Distinct(a) && Distinct(b) && forall x | x in b :: x !in a
    ensures Distinct(a + b)
  {
    forall i, j | 0 <= i < j < |a + b| ensures (a + b)[i] != (a + b)[j] {
      if i < |a| && j >= |a| {
        assert b[j - |a|] in b && a[i] in a;
      }
    }
  }

  /** What was visited below earlier children is not below the next one. */
  lemma {:induction false} NextApart(t: KeyTree, path: string, i: nat, bound: nat, p: string)
    requires Bounded(t, bound) && KidsApart(t) && |path| <= bound && i < |t.Kids(path)|
    requires p in PreorderBelow(t, path, t.Kids(path)[..i], bound)
    ensures !IsBelow(p, Child(path, t.Kids(path)[i]))
  {
    var names := t.Kids(path);
    VisitedBelow(t, path, i, bound, p);
    var j := BelowWhich(p, path, names[..i]);
    LongerThanParent(t, path, i, bound);
    LongerThanParent(t, path, j, bound);
    if IsBelow(p, Child(path, names[i])) {
      SubtreesApart(p, path, names[j], names[i]);
    }
  }

  lemma {:induction false} BelowDistinct(t: KeyTree, path: string, i: nat, bound: nat)
    requires Bounded(t, bound) && KidsApart(t) && |path| <= bound && i <= |t.Kids(path)|
    ensures Distinct(PreorderBelow(t, path, t.Kids(path)[..i], bound))
    decreases bound - |path|, i
  {
    if i > 0 {
      var q := Child(path, t.Kids(path)[i - 1]);
      PreorderNext(t, path, i - 1, bound);
      LongerThanParent(t, path, i - 1, bound);
      BelowDistinct(t, path, i - 1, bound);
      PreorderDistinct(t, q, bound);
      var before := PreorderBelow(t, path, t.Kids(path)[..i - 1], bound);
      forall p | p in Preorder(t, q, bound) ensures p !in before {
        VisitedIn(t, q, bound, p);
        if p in before {
          NextApart(t, path, i - 1, bound, p);
        }
      }
      DistinctConcat(before, Preorder(t, q, bound));
    }
  }

  lemma {:induction false} PreorderDistinct(t: KeyTree, q: string, bound: nat)
    requires Bounded(t, bound) && KidsApart(t) && q != [] && |q| <= bound
    ensures Distinct(Preorder(t, q, bound))
    decreases bound - |q|, |t.Kids(q)| + 1
  {
    var n := |t.Kids(q)|;
    assert t.Kids(q)[..n] == t.Kids(q);
    BelowDistinct(t, q, n, bound);
    forall p | p in PreorderBelow(t, q, t.Kids(q), bound) ensures p !in [q] {
      VisitedBelow(t, q, n, bound, p);
      var j := BelowWhich(p, q, t.Kids(q)[..n]);
      BelowParent(p, q, t.Kids(q)[j]);
    }
    DistinctConcat([q], PreorderBelow(t, q, t.Kids(q), bound));
  }

  // ----- exactly the keys of the tree are visited -----

  lemma {:induction false} BelowClosed(t: KeyTree, path: string, i: nat, bound: nat, p: string, k: nat)
    requires Bounded(t, bound) && |path| <= bound && i <= |t.Kids(path)|
    requires p in PreorderBelow(t, path, t.Kids(path)[..i], bound) && k < |t.Kids(p)|
    ensures Child(p, t.Kids(p)[k]) in PreorderBelow(t, path, t.Kids(path)[..i], bound)
    decreases bound - |path|, i
  {
    if i > 0 {
      var q := Child(path, t.Kids(path)[i - 1]);
      PreorderNext(t, path, i - 1, bound);
      LongerThanParent(t, path, i - 1, bound);
      if p in Preorder(t, q, bound) {
        PreorderClosed(t, q, bound, p, k);
      } else {
        BelowClosed(t, path, i - 1, bound, p, k);
      }
    }
  }

  lemma {:induction false} PreorderClosed(t: KeyTree, q: string, bound: nat, p: string, k: nat)
    requires Bounded(t, bound) && |q| <= bound && p in Preorder(t, q, bound) && k < |t.Kids(p)|
    ensures Child(p, t.Kids(p)[k]) in Preorder(t, q, bound)
    decreases bound - |q|, |t.Kids(q)| + 1
  {
    var n := |t.Kids(q)|;
    assert t.Kids(q)[..n] == t.Kids(q);
    if p == q {
      ChildVisited(t, q, n, bound, k);
    } else {
      BelowClosed(t, q, n, bound, p, k);
    }
  }

  lemma {:induction false} ChildVisited(t: KeyTree, path: string, i: nat, bound: nat, k: nat)
    requires Bounded(t, bound) && |path| <= bound && k < i <= |t.Kids(path)|
    ensures Child(path, t.Kids(path)[k]) in PreorderBelow(t, path, t.Kids(path)[..i], bound)
    decreases i
  {
    PreorderNext(t, path, i - 1, bound);
    if k < i - 1 {
      ChildVisited(t, path, i - 1, bound, k);
    } else {
      var q := Child(path, t.Kids(path)[k]);
      assert q in Preorder(t, q, bound);
    }
  }

  lemma {:induction false} VisitedCollected(t: KeyTree, keys: seq<string>, values: seq<TestValue>, path: string, i: nat,
                                            bound: nat, p: string)
    requires GoodInput(keys, values) && IsTreeOf(t, keys, values)
    requires Bounded(t, bound) && |path| <= bound && i <= |t.Kids(path)|
    requires p in PreorderBelow(t, path, t.Kids(path)[..i], bound)
    ensures p in AllPaths(keys, values)
    decreases bound - |path|, i
  {
    if i > 0 {
      PreorderNext(t, path, i - 1, bound);
      LongerThanParent(t, path, i - 1, bound);
      if p in Preorder(t, Child(path, t.Kids(path)[i - 1]), bound) {
        KidsOf(t, keys, values, path, t.Kids(path)[i - 1]);
        CollectedIn(t, keys, values, Child(path, t.Kids(path)[i - 1]), bound, p);
      } else {
        VisitedCollected(t, keys, values, path, i - 1, bound, p);
      }
    }
  }

  lemma {:induction false} CollectedIn(t: KeyTree, keys: seq<string>, values: seq<TestValue>, q: string, bound: nat,
                                       p: string)
    requires GoodInput(keys, values) && IsTreeOf(t, keys, values) && q in AllPaths(keys, values)
    requires Bounded(t, bound) && |q| <= bound && p in Preorder(t, q, bound)
    ensures p in AllPaths(keys, values)
    decreases bound - |q|, |t.Kids(q)| + 1
  {
    if p != q {
      assert t.Kids(q)[..|t.Kids(q)|] == t.Kids(q);
      VisitedCollected(t, keys, values, q, |t.Kids(q)|, bound, p);
    }
  }

  lemma {:induction false} CollectedVisited(t: KeyTree, keys: seq<string>, values: seq<TestValue>, bound: nat,
                                            p: string)
    requires GoodInput(keys, values) && IsTreeOf(t, keys, values) && Bounded(t, bound) && p in AllPaths(keys, values)
    ensures p in PreorderBelow(t, [], t.rootChildren, bound)
    decreases |p|
  {
    var n := |t.rootChildren|;
    assert t.rootChildren[..n] == t.rootChildren == t.Kids([]);
    PathPlace(t, keys, values, p);
    var parent, name := ParentPath(p), NameOf(p);
    var k :| 0 <= k < |t.Kids(parent)| && t.Kids(parent)[k] == name;
    if parent == [] {
      ChildVisited(t, [], n, bound, k);
    } else {
      CollectedVisited(t, keys, values, bound, parent);
      BelowClosed(t, [], n, bound, parent, k);
    }
  }

  /** A path is that of a child of its parent. */
  lemma {:induction false} PathPlace(t: KeyTree, keys: seq<string>, values: seq<TestValue>, p: string)
    requires GoodInput(keys, values) && IsTreeOf(t, keys, values) && p in AllPaths(keys, values)
    ensures p == Child(ParentPath(p), NameOf(p)) && NameOf(p) in t.Kids(ParentPath(p)) && |ParentPath(p)| < |p|
    ensures ParentPath(p) != [] ==> ParentPath(p) in AllPaths(keys, values)
  {
    AllPathsParented(keys, values);
    assert HasParent(AllPaths(keys, values), p);
    AllPathsNotEmpty(keys, values);
    WholePath(p);
    NameHasNoSep(p);
    KidsOf(t, keys, values, ParentPath(p), NameOf(p));
  }

  /** The recursions visit every collected path, and each once. */
  lemma {:induction false} VisitsExact(t: KeyTree, keys: seq<string>, values: seq<TestValue>, bound: nat)
    requires GoodInput(keys, values) && IsTreeOf(t, keys, values) && Bounded(t, bound)
    ensures var visited := PreorderBelow(t, [], t.rootChildren, bound);
            Distinct(visited) && forall p :: p in visited <==> p in AllPaths(keys, values)
  {
    var visited, n := PreorderBelow(t, [], t.rootChildren, bound), |t.rootChildren|;
    assert t.rootChildren[..n] == t.rootChildren == t.Kids([]);
    forall p ensures Distinct(t.Kids(p)) {
      KidsDistinct(t, keys, values, p);
    }
    BelowDistinct(t, [], n, bound);
    forall p ensures p in visited <==> p in AllPaths(keys, values) {
      if p in visited {
        VisitedCollected(t, keys, values, [], n, bound, p);
      }
      if p in AllPaths(keys, values) {
        CollectedVisited(t, keys, values, bound, p);
      }
    }
  }
}
