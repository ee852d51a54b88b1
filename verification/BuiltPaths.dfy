/** In a built hive, opening by path finds the key built for that path, and path reconstruction gives the path
    back (`winreg-testutil/src/lib.rs` against `winreg-core/src/key.rs`, `path.rs`). */
module BuiltPaths {
  import opened Wrappers
  import opened Bytes
  import opened Text
  import opened Footprints
  import opened Hives
  import opened KeyGraphs
  import opened Keys
  import opened Paths
  import opened KeyTrees
  import opened BuiltTrees

  /** The first of the names that is this one up to case. */
  function FirstFolded(names: seq<string>, n: string): Option<string> {
    if names == [] then None
    else if Upper(names[0]) == Upper(n) then Some(names[0])
    else FirstFolded(names[1..], n)
  }

  /** A lookup below `parent` can find the name `n`: it is not empty, and no name listed before it is the same up to
      case. */
  predicate NamedFirst(keys: seq<string>, values: seq<TestValue>, parent: string, n: string) {
    n != [] && FirstFolded(ChildNames(keys, values, parent), n) == Some(n)
  }

  /** Lookups can find every key on the way to `p`. */
  predicate Openable(keys: seq<string>, values: seq<TestValue>, p: string)
    decreases |p|
  {
    p == [] || (NamedFirst(keys, values, ParentPath(p), NameOf(p)) && Openable(keys, values, ParentPath(p)))
  }

  function KeySet(keyOf: string -> Key, keys: seq<string>, values: seq<TestValue>): set<Key> {
    (set p | p in AllPaths(keys, values) :: keyOf(p)) + {keyOf([])}
  }

  /** A listed child is that of a child path. */
  lemma {:induction false} ChildPath(keys: seq<string>, values: seq<TestValue>, p: string, n: string)
    requires GoodInput(keys, values) && n in ChildNames(keys, values, p)
    ensures Child(p, n) in AllPaths(keys, values) && GoodChild(p, n)
    ensures ParentPath(Child(p, n)) == p && NameOf(Child(p, n)) == n && Child(p, n) != []
  {
    if p == [] {
      TopLevelMembers(AllPaths(keys, values), n);
    } else {
      UnderMembers(AllPaths(keys, values), p, n);
    }
    AllPathsNotEmpty(keys, values);
    ChildParts(p, n);
  }

  /** A path is the child of a shorter key path. */
  lemma {:induction false} PathAbove(keys: seq<string>, values: seq<TestValue>, p: string)
    requires GoodInput(keys, values) && p in AllPaths(keys, values)
    ensures IsKeyPath(keys, values, ParentPath(p)) && |ParentPath(p)| < |p| && p == Child(ParentPath(p), NameOf(p))
    ensures NameOf(p) in ChildNames(keys, values, ParentPath(p))
  {
    var all := AllPaths(keys, values);
    AllPathsParented(keys, values);
    assert HasParent(all, p);
    AllPathsNotEmpty(keys, values);
    WholePath(p);
    NameHasNoSep(p);
    if LastSep(p) < 0 {
      TopLevelMembers(all, NameOf(p));
    } else {
      UnderMembers(all, ParentPath(p), NameOf(p));
    }
  }

  lemma {:induction false} ListedBack(g: KeyGraph<Key>, keyOf: string -> Key, keys: seq<string>, values: seq<TestValue>,
                                      lastWritten: u64, p: string, c: Key) returns (q: string)
    requires GoodInput(keys, values) && Represents(g, keyOf, keys, values, lastWritten)
    requires IsKeyPath(keys, values, p) && Listed(g, keyOf(p), c)
    ensures q in AllPaths(keys, values) && c == keyOf(q) && LinkedBack(g, keyOf(p), c)
  {
    var names := ChildNames(keys, values, p);
    assert KeyShown(g, keyOf, keys, values, lastWritten, p);
    var i :| 0 <= i < |names| && KeysBelow(keyOf, p, names)[i] == c;
    assert names[i] in names;
    ChildPath(keys, values, p, names[i]);
    q := Child(p, names[i]);
    assert KeyShown(g, keyOf, keys, values, lastWritten, q);
    AsReadSeparators(names[i]);
  }

  /** Parent links agree with subkey lists. */
  lemma {:induction false} BuiltWellLinked(g: KeyGraph<Key>, keyOf: string -> Key, keys: seq<string>,
                                           values: seq<TestValue>, lastWritten: u64)
    requires GoodInput(keys, values) && Represents(g, keyOf, keys, values, lastWritten)
    ensures WellLinked(g, keyOf([]), KeySet(keyOf, keys, values))
  {
    assert KeyShown(g, keyOf, keys, values, lastWritten, []);
    forall k, c | k in KeySet(keyOf, keys, values) && Listed(g, k, c)
      ensures c in KeySet(keyOf, keys, values) && LinkedBack(g, k, c)
    {
      var p :| IsKeyPath(keys, values, p) && k == keyOf(p);
      var q := ListedBack(g, keyOf, keys, values, lastWritten, p, c);
    }
  }

  // ----- lookups by name -----

  /** The keys below `p` show these names. */
  ghost predicate Shows(g: KeyGraph<Key>, keyOf: string -> Key, p: string, names: seq<string>) {
    forall n | n in names :: g.name(keyOf(Child(p, n))) == AsRead(n)
  }

  lemma {:induction false} ChildrenShow(g: KeyGraph<Key>, keyOf: string -> Key, keys: seq<string>,
                                        values: seq<TestValue>, lastWritten: u64, p: string)
    requires GoodInput(keys, values) && Represents(g, keyOf, keys, values, lastWritten)
    ensures Shows(g, keyOf, p, ChildNames(keys, values, p))
  {
    forall n | n in ChildNames(keys, values, p) ensures g.name(keyOf(Child(p, n))) == AsRead(n) {
      ChildPath(keys, values, p, n);
      assert KeyShown(g, keyOf, keys, values, lastWritten, Child(p, n));
    }
  }

  /** What a lookup finds, by names: reading them does not change which are equal up to case. */
  lemma {:induction false} LookUpBelow(g: KeyGraph<Key>, keyOf: string -> Key, p: string, names: seq<string>, n: string)
    requires Shows(g, keyOf, p, names)
    ensures FindKey(g, KeysBelow(keyOf, p, names), AsRead(n)) ==
            match FirstFolded(names, n) case None => None case Some(m) => Some(keyOf(Child(p, m)))
    ensures FirstFolded(names, n).Some? ==> FirstFolded(names, n).value in names
  {
    if names != [] {
      AsReadFolds(names[0], n);
      LookUpBelow(g, keyOf, p, names[1..], n);
      assert KeysBelow(keyOf, p, names)[1..] == KeysBelow(keyOf, p, names[1..]);
    }
  }

  lemma {:induction false} ChildrenApart(g: KeyGraph<Key>, keyOf: string -> Key, keys: seq<string>,
                                         values: seq<TestValue>, lastWritten: u64, p: string, m: string, n: string)
    requires GoodInput(keys, values) && Represents(g, keyOf, keys, values, lastWritten)
    requires m in ChildNames(keys, values, p) && n in ChildNames(keys, values, p)
             && keyOf(Child(p, m)) == keyOf(Child(p, n))
    ensures m == n
  {
    ChildPath(keys, values, p, m);
    ChildPath(keys, values, p, n);
  }

  lemma {:induction false} ShowsKids(g: KeyGraph<Key>, keyOf: string -> Key, keys: seq<string>, values: seq<TestValue>,
                                     lastWritten: u64, p: string)
    requires Represents(g, keyOf, keys, values, lastWritten) && IsKeyPath(keys, values, p)
    ensures g.subkeys(keyOf(p)) == Ok(KeysBelow(keyOf, p, ChildNames(keys, values, p)))
  {
    assert KeyShown(g, keyOf, keys, values, lastWritten, p);
  }

  lemma {:induction false} FoundBelow(g: KeyGraph<Key>, keyOf: string -> Key, keys: seq<string>, values: seq<TestValue>,
                                      lastWritten: u64, p: string, n: string)
    requires GoodInput(keys, values) && Represents(g, keyOf, keys, values, lastWritten) && IsKeyPath(keys, values, p)
    requires n in ChildNames(keys, values, p)
    ensures FoundByName(g, keyOf(p), keyOf(Child(p, n))) <==> NamedFirst(keys, values, p, n)
  {
    var names := ChildNames(keys, values, p);
    ChildrenShow(g, keyOf, keys, values, lastWritten, p);
    LookUpBelow(g, keyOf, p, names, n);
    AsReadShort(n);
    ShowsKids(g, keyOf, keys, values, lastWritten, p);
    if FirstFolded(names, n).Some? && keyOf(Child(p, FirstFolded(names, n).value)) == keyOf(Child(p, n)) {
      ChildrenApart(g, keyOf, keys, values, lastWritten, p, FirstFolded(names, n).value, n);
    }
  }

  // ----- chains -----

  lemma {:induction false} ChainGrows<K>(g: KeyGraph<K>, root: K, above: seq<K>, k: K)
    requires Reached(g, root, above) && Listed(g, above[|above| - 1], k)
    ensures Reached(g, root, above + [k])
    ensures NamesOf(g, above + [k], 1, |above| + 1) == NamesOf(g, above, 1, |above|) + [g.name(k)]
    ensures Findable(g, above + [k]) <==> Findable(g, above) && FoundByName(g, above[|above| - 1], k)
  {
    var ks := above + [k];
    assert forall i | 0 <= i < |above| :: ks[i] == above[i];
    forall i | 0 < i < |ks| ensures Listed(g, ks[i - 1], ks[i]) {
      if i < |above| {
        assert Listed(g, above[i - 1], above[i]);
      }
    }
    if Findable(g, ks) {
      forall i | 0 < i < |above| ensures FoundByName(g, above[i - 1], above[i]) {
        assert FoundByName(g, ks[i - 1], ks[i]);
      }
      assert FoundByName(g, ks[|above| - 1], ks[|above|]);
    }
    if Findable(g, above) && FoundByName(g, above[|above| - 1], k) {
      forall i | 0 < i < |ks| ensures FoundByName(g, ks[i - 1], ks[i]) {
        if i < |above| {
          assert FoundByName(g, above[i - 1], above[i]);
        }
      }
    }
  }

  lemma {:induction false} ChildListed(g: KeyGraph<Key>, keyOf: string -> Key, keys: seq<string>,
                                       values: seq<TestValue>, lastWritten: u64, p: string)
    requires GoodInput(keys, values) && Represents(g, keyOf, keys, values, lastWritten) && p in AllPaths(keys, values)
    ensures Listed(g, keyOf(ParentPath(p)), keyOf(p)) && g.name(keyOf(p)) == AsRead(NameOf(p))
  {
    PathAbove(keys, values, p);
    var up := ParentPath(p);
    assert KeyShown(g, keyOf, keys, values, lastWritten, up) && KeyShown(g, keyOf, keys, values, lastWritten, p);
    var names := ChildNames(keys, values, up);
    var i :| 0 <= i < |names| && names[i] == NameOf(p);
    assert KeysBelow(keyOf, up, names)[i] == keyOf(p);
  }

  /** The keys from the root down to a path, and the path's components. */
  lemma {:induction false} ChainTo(g: KeyGraph<Key>, keyOf: string -> Key, keys: seq<string>, values: seq<TestValue>,
                                   lastWritten: u64, p: string)
    returns (ks: seq<Key>)
    requires GoodInput(keys, values) && Represents(g, keyOf, keys, values, lastWritten) && IsKeyPath(keys, values, p)
    ensures Reached(g, keyOf([]), ks) && ks[|ks| - 1] == keyOf(p) && (p == [] <==> |ks| == 1)
    ensures p != [] ==> Join(NamesOf(g, ks, 1, |ks|)) == AsRead(p)
    ensures |ks| == (if p == [] then 1 else 1 + |Split(p)|) && (Findable(g, ks) <==> Openable(keys, values, p))
    decreases |p|
  {
    if p == [] {
      ks := [keyOf([])];
    } else {
      PathAbove(keys, values, p);
      ChildListed(g, keyOf, keys, values, lastWritten, p);
      var up, n := ParentPath(p), NameOf(p);
      NameHasNoSep(p);
      var above := ChainTo(g, keyOf, keys, values, lastWritten, up);
      ChainGrows(g, keyOf([]), above, keyOf(p));
      FoundBelow(g, keyOf, keys, values, lastWritten, up, n);
      ks := above + [keyOf(p)];
      PathJoins(NamesOf(g, above, 1, |above|), up, n);
      PathSplits(up, n);
    }
  }

  lemma {:induction false} PathJoins(names: seq<string>, up: string, n: string)
    requires up == [] <==> names == []
    requires up != [] ==> Join(names) == AsRead(up)
    ensures Join(names + [AsRead(n)]) == AsRead(Child(up, n))
  {
    AsReadChild(up, n);
    if up != [] {
      JoinAppend(names, AsRead(n));
    }
  }

  lemma {:induction false} PathSplits(up: string, n: string)
    requires SEP !in n
    ensures Split(Child(up, n)) == if up == [] then [n] else Split(up) + [n]
  {
    if up == [] {
      SplitFirst(n, []);
    } else {
      JoinSplit(up);
      JoinAppend(Split(up), n);
      SplitJoin(Split(up) + [n]);
    }
  }

  /** Opening the path of a key, as it is read, finds that key exactly when lookups find every key on the way;
      reconstructing the key's path gives that path back exactly when it has at most 513 components. */
  lemma {:induction false} OpensByPath(g: KeyGraph<Key>, keyOf: string -> Key, keys: seq<string>,
                                       values: seq<TestValue>, lastWritten: u64, p: string)
    requires GoodInput(keys, values) && Represents(g, keyOf, keys, values, lastWritten) && p in AllPaths(keys, values)
    ensures SubkeyPath(g, keyOf([]), AsRead(p)) == Ok(Some(keyOf(p))) <==> Openable(keys, values, p)
    ensures Path(g, keyOf(p)) == Ok(AsRead(p)) <==> |Split(p)| <= 513
  {
    var root, all := keyOf([]), KeySet(keyOf, keys, values);
    BuiltWellLinked(g, keyOf, keys, values, lastWritten);
    var ks := ChainTo(g, keyOf, keys, values, lastWritten, p);
    AllPathsNotEmpty(keys, values);
    OpensChain(g, root, all, ks, 1);
    PathIsWhole(g, root, all, ks);
  }

  /** Sibling names differ by more than case. */
  ghost predicate NamesFold(keys: seq<string>, values: seq<TestValue>) {
    forall p {:trigger ChildNames(keys, values, p)} :: Folded(ChildNames(keys, values, p))
  }

  ghost predicate Folded(names: seq<string>) {
    forall i, j | 0 <= i < j < |names| :: Upper(names[i]) != Upper(names[j])
  }

  lemma {:induction false} FoldedFirst(names: seq<string>, n: string)
    requires Folded(names) && n in names
    ensures FirstFolded(names, n) == Some(n)
  {
    if names[0] != n {
      var i :| 0 < i < |names| && names[i] == n;
      FoldedFirst(names[1..], n);
    }
  }

  /** So every path without an empty component can be opened where sibling names differ by more than case. */
  lemma {:induction false} FoldedOpenable(keys: seq<string>, values: seq<TestValue>, p: string)
    requires GoodInput(keys, values) && NamesFold(keys, values) && p in AllPaths(keys, values) && [] !in Split(p)
    ensures Openable(keys, values, p)
    decreases |p|
  {
    PathAbove(keys, values, p);
    NameHasNoSep(p);
    var up, n := ParentPath(p), NameOf(p);
    PathSplits(up, n);
    FoldedFirst(ChildNames(keys, values, up), n);
    assert Split(p)[|Split(p)| - 1] == n;
    if up != [] {
      FoldedOpenable(keys, values, up);
    }
  }

  // ----- a path that is too deep to come back -----

  /** A path of `n` components, each of them "a". */
  function Branch(n: nat): string {
    Join(seq(n, _ => "a"))
  }

  lemma {:induction false} BranchSplits(n: nat)
    requires n > 0
    ensures Split(Branch(n)) == seq(n, _ => "a") && GoodPath(Branch(n))
  {
    var parts := seq(n, _ => "a");
    SplitJoin(parts);
    SplitStart(Branch(n));
  }

  /** The paths of a single branch, and their names. */
  lemma {:induction false} BranchPaths(n: nat, p: string)
    requires n > 0 && p in AllPaths([Branch(n)], [])
    ensures NameOf(p) == "a"
  {
    AllPathsExact([Branch(n)], [], p);
    BranchSplits(n);
    var q :| (q in [Branch(n)] || q in KeyPaths([])) && IsPrefixOf(p, q);
    var i :| 0 < i <= |Split(q)| && p == Join(Split(q)[..i]);
    PrefixParent(Split(q), i);
  }

  lemma {:induction false} BranchNames(n: nat, p: string)
    requires n > 0
    ensures |ChildNames([Branch(n)], [], p)| <= 1
  {
    var all := AllPaths([Branch(n)], []);
    var names := ChildNames([Branch(n)], [], p);
    AllPathsDistinct([Branch(n)], []);
    TopLevelDistinct(all);
    UnderDistinct(all, p);
    if |names| > 1 {
      BranchChild(n, p, names[0]);
      BranchChild(n, p, names[1]);
    }
  }

  lemma {:induction false} BranchChild(n: nat, p: string, name: string)
    requires n > 0 && name in ChildNames([Branch(n)], [], p)
    ensures name == "a"
  {
    BranchSplits(n);
    ChildPath([Branch(n)], [], p, name);
    BranchPaths(n, Child(p, name));
  }

  /** There are no more paths than components. */
  lemma {:induction false} PrefixesCount(all: seq<string>, parts: seq<string>, i: nat)
    requires i <= |parts|
    ensures |AddPrefixes(all, parts, i)| <= |all| + i
  {
    if i > 0 {
      PrefixesCount(all, parts, i - 1);
    }
  }

  lemma OnePathAdded(p: string)
    ensures AllPaths([p], []) == AddPrefixes([], Split(p), |Split(p)|)
  {
    var none: seq<string> := [];
    assert [p][..0] == none && KeyPaths([]) == none;
    assert AddPaths(none, [p]) == AddPrefixes(AddPaths(none, [p][..0]), Split(p), |Split(p)|);
  }

  lemma {:induction false} BranchCount(n: nat)
    requires n > 0
    ensures |AllPaths([Branch(n)], [])| <= n
  {
    BranchSplits(n);
    OnePathAdded(Branch(n));
    PrefixesCount([], Split(Branch(n)), |Split(Branch(n))|);
  }

  lemma SmallLeaf(count: nat)
    requires count <= 1
    ensures LeafSpace(count) <= 16
  {
    assert count == 0 || count == 1;
  }

  /** A key with a name of one byte, at most one child and no values takes a node and a small leaf. */
  lemma {:induction false} SmallKey(keys: seq<string>, p: string)
    requires |Utf8(NameOf(p))| == 1 && |ChildNames(keys, [], p)| <= 1
    ensures PathSpace(keys, [], p) <= 104
  {
    SmallLeaf(|ChildNames(keys, [], p)|);
  }

  lemma {:induction false} BranchSpace(n: nat, ps: seq<string>)
    requires n > 0 && forall p | p in ps :: p in AllPaths([Branch(n)], [])
    ensures PathsSpace([Branch(n)], [], ps) <= 104 * |ps|
  {
    if ps != [] {
      var p := ps[|ps| - 1];
      assert p in ps;
      BranchSpace(n, ps[..|ps| - 1]);
      BranchPaths(n, p);
      BranchNames(n, p);
      AsReadShort("a");
      SmallKey([Branch(n)], p);
    }
  }

  lemma {:induction false} WholeSpace(keys: seq<string>, rest: nat)
    requires |ChildNames(keys, [], [])| <= 1 && PathsSpace(keys, [], AllPaths(keys, [])) <= rest
    ensures Footprint(keys, []) <= 152 + rest
  {
    SmallLeaf(|ChildNames(keys, [], [])|);
  }

  lemma {:induction false} BranchFootprint(n: nat)
    requires n > 0
    ensures Footprint([Branch(n)], []) <= 152 + 104 * n
  {
    BranchNames(n, []);
    BranchCount(n);
    BranchSpace(n, AllPaths([Branch(n)], []));
    WholeSpace([Branch(n)], 104 * n);
  }

  /** Such an input can be built, up to some depth far beyond the limit of path reconstruction. */
  lemma {:induction false} BranchFits(n: nat)
    requires 0 < n <= 41_000_000
    ensures Buildable([Branch(n)], []) && Branch(n) in AllPaths([Branch(n)], []) && |Split(Branch(n))| == n
  {
    var keys := [Branch(n)];
    BranchSplits(n);
    AllPathsDistinct(keys, []);
    BranchFootprint(n);
    forall p ensures |ChildNames(keys, [], p)| <= 1 {
      BranchNames(n, p);
    }
    forall p | p in AllPaths(keys, []) ensures |Utf8(NameOf(p))| <= 0xFFFF {
      BranchPaths(n, p);
      AsReadShort("a");
    }
  }

  /** The last key of the branch: its reconstructed path is its path up to a depth of 513. */
  lemma {:induction false} DeepPathCut(g: KeyGraph<Key>, keyOf: string -> Key, lastWritten: u64, n: nat)
    requires 0 < n <= 41_000_000 && Represents(g, keyOf, [Branch(n)], [], lastWritten)
    ensures Branch(n) in AllPaths([Branch(n)], [])
    ensures Path(g, keyOf(Branch(n))) == Ok(AsRead(Branch(n))) <==> n <= 513
  {
    BranchFits(n);
    OpensByPath(g, keyOf, [Branch(n)], [], lastWritten, Branch(n));
  }

  /** Builds the branch: it opens and represents its input, and the path reconstructed for its last key is that
      key's path up to a depth of 513. */
  method BuildBranch(n: nat, keyFiletime: u64) returns (buf: array<byte>, ghost keyOf: string -> Key)
    requires 0 < n <= 41_000_000
    ensures fresh(buf) && ReadsBackAs(buf[..], keyOf, [Branch(n)], [], keyFiletime)
    ensures Branch(n) in AllPaths([Branch(n)], [])
    ensures Path(HiveGraph(FlatFile(buf[..])), keyOf(Branch(n))) == Ok(AsRead(Branch(n))) <==> n <= 513
  {
    BranchFits(n);
    ghost var h;
    buf, h, keyOf := BuildHive([Branch(n)], [], keyFiletime);
    DeepPathCut(HiveGraph(FlatFile(buf[..])), keyOf, keyFiletime, n);
  }
}
