/** A built hive unfolds to a finite tree, so that iterating and comparing it end; comparing two builds of the
    same paths and values finds nothing (`winreg-testutil/src/lib.rs` against `winreg-core/src/iter.rs`,
    `winreg-diff/src/engine.rs`). */
module BuiltDiffs {
  import opened Wrappers
  import opened Bytes
  import opened Text
  import opened Hives
  import opened KeyGraphs
  import opened Keys
  import opened Footprints
  import opened KeyTrees
  import opened RoundTrip
  import opened BuiltTrees
  import opened BuiltPaths
  import Diff
  import DiffEmpty
  import DiffLaws

  function ShownAt(values: seq<TestValue>, p: string): seq<ValueData> {
    Shown(if p == [] then [] else ValuesAt(values, p))
  }

  /** The tree of a build from path `p` down. */
  ghost predicate TreeAt(t: Tree<Key>, keyOf: string -> Key, keys: seq<string>, values: seq<TestValue>, p: string,
                         name: string)
    decreases t
  {
    && t.Node? && t.key == keyOf(p) && t.name == name && t.values == Ok(ShownAt(values, p))
    && KidsAt(t.kids, keyOf, keys, values, p, ChildNames(keys, values, p))
  }

  ghost predicate KidsAt(kids: seq<Tree<Key>>, keyOf: string -> Key, keys: seq<string>, values: seq<TestValue>,
                         p: string, names: seq<string>)
    decreases kids
  {
    |kids| == |names| && forall i | 0 <= i < |kids| ::
                           TreeAt(kids[i], keyOf, keys, values, Child(p, names[i]), AsRead(names[i]))
  }

  /** Deep enough to reach every path. */
  function FullDepth(keys: seq<string>, values: seq<TestValue>): nat {
    MaxLength(AllPaths(keys, values)) + 1
  }

  lemma {:induction false} PathsShort(keys: seq<string>, values: seq<TestValue>, p: string)
    requires IsKeyPath(keys, values, p)
    ensures |p| < FullDepth(keys, values)
  {
    if p != [] {
      MaxLengthBounds(AllPaths(keys, values), p);
    }
  }

  /** A child's path is longer, and its key has the child's name. */
  lemma {:induction false} LongerChild(g: KeyGraph<Key>, keyOf: string -> Key, keys: seq<string>,
                                       values: seq<TestValue>, lastWritten: u64, p: string, n: string)
    requires GoodInput(keys, values) && Represents(g, keyOf, keys, values, lastWritten)
             && n in ChildNames(keys, values, p)
    ensures IsKeyPath(keys, values, Child(p, n)) && g.name(keyOf(Child(p, n))) == AsRead(n) && |p| < |Child(p, n)|
  {
    ChildPath(keys, values, p, n);
    assert KeyShown(g, keyOf, keys, values, lastWritten, Child(p, n));
  }

  ghost predicate KidMade(g: KeyGraph<Key>, t: Tree<Key>, keyOf: string -> Key, keys: seq<string>,
                          values: seq<TestValue>, p: string, n: string)
  {
    Unfolds(g, t) && TreeAt(t, keyOf, keys, values, Child(p, n), AsRead(n))
  }

  /** The first `j` of the keys below `p`. */
  ghost predicate KidsMade(g: KeyGraph<Key>, kids: seq<Tree<Key>>, keyOf: string -> Key, keys: seq<string>,
                           values: seq<TestValue>, p: string, names: seq<string>, j: nat)
  {
    |kids| == j <= |names| && forall i | 0 <= i < j :: KidMade(g, kids[i], keyOf, keys, values, p, names[i])
  }

  lemma {:induction false} OneMore<T(!new)>(xs: seq<T>, x: T, names: seq<string>, made: (T, string) -> bool)
    requires |xs| < |names| && (forall i | 0 <= i < |xs| :: made(xs[i], names[i])) && made(x, names[|xs|])
    ensures forall i | 0 <= i < |xs + [x]| :: made((xs + [x])[i], names[i])
  {
  }

  lemma {:induction false} OneMoreKid(g: KeyGraph<Key>, kids: seq<Tree<Key>>, last: Tree<Key>, keyOf: string -> Key,
                                      keys: seq<string>, values: seq<TestValue>, p: string, names: seq<string>, j: nat)
    requires 0 < j <= |names| && KidsMade(g, kids, keyOf, keys, values, p, names, j - 1)
    requires KidMade(g, last, keyOf, keys, values, p, names[j - 1])
    ensures KidsMade(g, kids + [last], keyOf, keys, values, p, names, j)
  {
    OneMore(kids, last, names, (t: Tree<Key>, n: string) => KidMade(g, t, keyOf, keys, values, p, n));
  }

  lemma {:induction false} ShownHere(g: KeyGraph<Key>, keyOf: string -> Key, keys: seq<string>, values: seq<TestValue>,
                                     lastWritten: u64, p: string)
    requires Represents(g, keyOf, keys, values, lastWritten) && IsKeyPath(keys, values, p)
    ensures g.subkeys(keyOf(p)) == Ok(KeysBelow(keyOf, p, ChildNames(keys, values, p)))
            && g.values(keyOf(p)) == Ok(ShownAt(values, p))
  {
    assert KeyShown(g, keyOf, keys, values, lastWritten, p);
  }

  lemma {:induction false} KidsKeys(g: KeyGraph<Key>, kids: seq<Tree<Key>>, keyOf: string -> Key, keys: seq<string>,
                                    values: seq<TestValue>, p: string, names: seq<string>)
    requires KidsMade(g, kids, keyOf, keys, values, p, names, |names|)
    ensures KeysOf(kids) == KeysBelow(keyOf, p, names) && forall i | 0 <= i < |kids| :: Unfolds(g, kids[i])
    ensures forall i | 0 <= i < |kids| :: TreeAt(kids[i], keyOf, keys, values, Child(p, names[i]), AsRead(names[i]))
  {
    forall i | 0 <= i < |kids|
      ensures kids[i].key == keyOf(Child(p, names[i])) && Unfolds(g, kids[i])
           && TreeAt(kids[i], keyOf, keys, values, Child(p, names[i]), AsRead(names[i]))
    {
      assert KidMade(g, kids[i], keyOf, keys, values, p, names[i]);
    }
  }

  lemma {:induction false} NodeMade(g: KeyGraph<Key>, t: Tree<Key>, kids: seq<Tree<Key>>, keyOf: string -> Key,
                                    keys: seq<string>, values: seq<TestValue>, p: string, names: seq<string>)
    requires names == ChildNames(keys, values, p) && KidsMade(g, kids, keyOf, keys, values, p, names, |names|)
    requires g.subkeys(keyOf(p)) == Ok(KeysBelow(keyOf, p, names)) && g.values(keyOf(p)) == Ok(ShownAt(values, p))
    requires t == Node(keyOf(p), g.name(keyOf(p)), Ok(ShownAt(values, p)), kids)
    ensures Unfolds(g, t) && TreeAt(t, keyOf, keys, values, p, g.name(keyOf(p)))
  {
    KidsKeys(g, kids, keyOf, keys, values, p, names);
  }

  /** Navigation from a key of the build ends, and meets this tree. */
  lemma {:induction false} BuiltUnfolds(g: KeyGraph<Key>, keyOf: string -> Key, keys: seq<string>,
                                        values: seq<TestValue>, lastWritten: u64, p: string,
                                        depth: nat) returns (t: Tree<Key>)
    requires GoodInput(keys, values) && Represents(g, keyOf, keys, values, lastWritten) && IsKeyPath(keys, values, p)
    requires FullDepth(keys, values) <= |p| + depth
    ensures Unfolds(g, t) && TreeAt(t, keyOf, keys, values, p, g.name(keyOf(p)))
    decreases depth, 1, 0
  {
    PathsShort(keys, values, p);
    var names := ChildNames(keys, values, p);
    var kids := KidsUnfold(g, keyOf, keys, values, lastWritten, p, names, |names|, depth - 1);
    t := Node(keyOf(p), g.name(keyOf(p)), Ok(ShownAt(values, p)), kids);
    ShownHere(g, keyOf, keys, values, lastWritten, p);
    NodeMade(g, t, kids, keyOf, keys, values, p, names);
  }

  lemma {:induction false} KidsUnfold(g: KeyGraph<Key>, keyOf: string -> Key, keys: seq<string>, values: seq<TestValue>,
                                      lastWritten: u64, p: string, names: seq<string>, j: nat,
                                      depth: nat) returns (kids: seq<Tree<Key>>)
    requires GoodInput(keys, values) && Represents(g, keyOf, keys, values, lastWritten)
    requires names == ChildNames(keys, values, p) && j <= |names| && FullDepth(keys, values) <= |p| + depth + 1
    ensures KidsMade(g, kids, keyOf, keys, values, p, names, j)
    decreases depth + 1, 0, j
  {
    if j == 0 {
      kids := [];
    } else {
      var before := KidsUnfold(g, keyOf, keys, values, lastWritten, p, names, j - 1, depth);
      assert names[j - 1] in names;
      LongerChild(g, keyOf, keys, values, lastWritten, p, names[j - 1]);
      var last := BuiltUnfolds(g, keyOf, keys, values, lastWritten, Child(p, names[j - 1]), depth);
      kids := before + [last];
      assert KidMade(g, last, keyOf, keys, values, p, names[j - 1]);
      OneMoreKid(g, before, last, keyOf, keys, values, p, names, j);
    }
  }

  // ----- comparing two builds -----

  /** Two trees of one input are alike in names and values, name by name and in the same order. */
  lemma {:induction false} BuildsAlike(l: Tree<Key>, r: Tree<Key>, k1: string -> Key, k2: string -> Key,
                                       keys: seq<string>, values: seq<TestValue>, p: string, name: string)
    requires TreeAt(l, k1, keys, values, p, name) && TreeAt(r, k2, keys, values, p, name)
    ensures DiffEmpty.Alike(l, r)
    decreases l
  {
    var names := ChildNames(keys, values, p);
    forall i | 0 <= i < |names| ensures DiffEmpty.Alike(l.kids[i], r.kids[i]) {
      BuildsAlike(l.kids[i], r.kids[i], k1, k2, keys, values, Child(p, names[i]), AsRead(names[i]));
    }
  }

  lemma BuildsEquivalent(l: Tree<Key>, r: Tree<Key>, k1: string -> Key, k2: string -> Key, keys: seq<string>,
                         values: seq<TestValue>, p: string, name: string)
    requires TreeAt(l, k1, keys, values, p, name) && TreeAt(r, k2, keys, values, p, name)
    ensures DiffLaws.Equivalent(l, r)
  {
    BuildsAlike(l, r, k1, k2, keys, values, p, name);
    DiffEmpty.AlikeEquivalent(l, r);
  }

  lemma {:induction false} SameBuilds(l: Tree<Key>, r: Tree<Key>, k1: string -> Key, k2: string -> Key,
                                      keys: seq<string>, values: seq<TestValue>, p: string, name: string)
    requires TreeAt(l, k1, keys, values, p, name) && TreeAt(r, k2, keys, values, p, name)
    ensures Diff.TreeDiff(l, r, []) == Ok([])
  {
    BuildsAlike(l, r, k1, k2, keys, values, p, name);
    DiffEmpty.AlikeMatch(l, r);
    DiffEmpty.MatchIffEmpty(l, r, []);
  }

  lemma {:induction false} RootTree(g: KeyGraph<Key>, keyOf: string -> Key, keys: seq<string>, values: seq<TestValue>,
                                    lastWritten: u64)
    returns (t: Tree<Key>)
    requires GoodInput(keys, values) && Represents(g, keyOf, keys, values, lastWritten)
    ensures Unfolds(g, t) && t.key == keyOf([]) && TreeAt(t, keyOf, keys, values, [], AsRead(ROOT_NAME))
  {
    assert KeyShown(g, keyOf, keys, values, lastWritten, []);
    t := BuiltUnfolds(g, keyOf, keys, values, lastWritten, [], FullDepth(keys, values));
  }

  lemma {:induction false} RootRead(bytes: Buf, keyOf: string -> Key, keys: seq<string>, values: seq<TestValue>,
                                    lastWritten: u64)
    requires ReadsBackAs(bytes, keyOf, keys, values, lastWritten)
    ensures FromBytes(bytes).Ok? && RootKey(FromBytes(bytes).value) == Ok(keyOf([]))
    ensures Represents(HiveGraph(FlatFile(bytes)), keyOf, keys, values, lastWritten)
  {
  }

  method DiffGraphs(g1: KeyGraph<Key>, g2: KeyGraph<Key>, root1: Result<Key>, root2: Result<Key>,
                    ghost k1: string -> Key, ghost k2: string -> Key, ghost keys: seq<string>,
                    ghost values: seq<TestValue>, ghost time1: u64, ghost time2: u64)
    returns (res: Result<(seq<Diff.Entry<string>>, Diff.Stats)>)
    requires GoodInput(keys, values)
    requires Represents(g1, k1, keys, values, time1) && Represents(g2, k2, keys, values, time2)
    requires root1 == Ok(k1([])) && root2 == Ok(k2([]))
    ensures res == Ok(([], Diff.NO_CHANGES))
  {
    ghost var l := RootTree(g1, k1, keys, values, time1);
    ghost var r := RootTree(g2, k2, keys, values, time2);
    SameBuilds(l, r, k1, k2, keys, values, [], AsRead(ROOT_NAME));
    res := Diff.DiffHives(g1, root1, g2, root2, l, r);
  }

  /** Two hives built from the same paths and values, whatever their timestamps, compare as equal. */
  method DiffBuilds(left: Buf, right: Buf, ghost k1: string -> Key, ghost k2: string -> Key, ghost keys: seq<string>,
                    ghost values: seq<TestValue>, ghost time1: u64, ghost time2: u64)
    returns (res: Result<(seq<Diff.Entry<string>>, Diff.Stats)>)
    requires GoodInput(keys, values) && ReadsBackAs(left, k1, keys, values, time1)
             && ReadsBackAs(right, k2, keys, values, time2)
    ensures res == Ok(([], Diff.NO_CHANGES))
  {
    RootRead(left, k1, keys, values, time1);
    RootRead(right, k2, keys, values, time2);
    res := DiffGraphs(HiveGraph(FlatFile(left)), HiveGraph(FlatFile(right)), RootKey(FromBytes(left).value),
                      RootKey(FromBytes(right).value),
                      k1, k2, keys, values, time1, time2);
  }
}
