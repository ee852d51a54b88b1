/** The key tree that the test hive builder derives from flat paths (`KeyTree::from_paths` in
    `winreg-testutil/src/lib.rs`). */
module KeyTrees {
  import opened Bytes
  import opened Sequences
  import opened Text

  datatype TestValue = TestValue(keyPath: string, name: string, dataType: u32, data: Buf)

  datatype TreeValue = TreeValue(name: string, dataType: u32, data: Buf)

  /** The root's path is the empty string. */
  datatype KeyTree = KeyTree(rootChildren: seq<string>, children: map<string, seq<string>>,
                             values: map<string, seq<TreeValue>>) {
    function Kids(path: string): seq<string> {
      if path == [] then rootChildren else if path in children then children[path] else []
    }

    function Vals(path: string): seq<TreeValue> {
      if path in values then values[path] else []
    }
  }

  // ----- a path's last component and what comes before it -----

  /** The position of the last separator (`rfind`), or -1. */
  function LastSep(p: string): (r: int)
    ensures -1 <= r < |p| && (r >= 0 ==> p[r] == SEP)
  {
    if p == [] then -1 else if p[|p| - 1] == SEP then |p| - 1 else LastSep(p[..|p| - 1])
  }

  function ParentPath(p: string): string {
    if LastSep(p) < 0 then [] else p[..LastSep(p)]
  }

  function NameOf(p: string): string {
    p[LastSep(p) + 1..]
  }

  lemma {:induction false} LastSepOf(a: string, n: string)
    requires SEP !in n
    ensures LastSep(a + [SEP] + n) == |a|
    ensures LastSep(n) == -1
  {
    if n != [] {
      var m := n[..|n| - 1];
      LastSepOf(a, m);
      assert (a + [SEP] + n)[..|a + [SEP] + n| - 1] == a + [SEP] + m;
      assert (a + [SEP] + n)[|a + [SEP] + n| - 1] == n[|n| - 1];
      assert n[|n| - 1] in n && forall c | c in m :: c in n;
    } else {
      assert a + [SEP] + n == a + [SEP];
    }
  }

  lemma {:induction false} NameHasNoSep(p: string)
    ensures SEP !in NameOf(p)
  {
    if p != [] && p[|p| - 1] != SEP {
      NameHasNoSep(p[..|p| - 1]);
      assert NameOf(p) == NameOf(p[..|p| - 1]) + [p[|p| - 1]];
    }
  }

  /** Taking a child path apart. */
  lemma {:induction false} ChildParts(parent: string, n: string)
    requires SEP !in n
    ensures ParentPath(Child(parent, n)) == parent && NameOf(Child(parent, n)) == n
  {
    LastSepOf(parent, n);
  }

  /** Putting a path together again. */
  lemma {:induction false} WholePath(p: string)
    requires LastSep(p) != 0
    ensures p == Child(ParentPath(p), NameOf(p))
  {
  }

  // ----- all paths, with the parents that are created on the way -----

  function AddNew(all: seq<string>, p: string): seq<string> {
    if p in all then all else all + [p]
  }

  /** Adds the first `i` prefixes of a path. */
  function AddPrefixes(all: seq<string>, parts: seq<string>, i: nat): seq<string>
    requires i <= |parts|
  {
    if i == 0 then all else AddNew(AddPrefixes(all, parts, i - 1), Join(parts[..i]))
  }

  function AddPaths(all: seq<string>, paths: seq<string>): seq<string> {
    if paths == [] then all
    else
      var parts := Split(paths[|paths| - 1]);
      AddPrefixes(AddPaths(all, paths[..|paths| - 1]), parts, |parts|)
  }

  function KeyPaths(values: seq<TestValue>): seq<string> {
    Map((v: TestValue) => v.keyPath, values)
  }

  /** Every key of the tree, in the order of first mention. */
  function AllPaths(keys: seq<string>, values: seq<TestValue>): seq<string> {
    AddPaths(AddPaths([], keys), KeyPaths(values))
  }

  /** A name that a child of `parent` can have: below the root, whose path is empty, no name is. */
  predicate GoodChild(parent: string, n: string) {
    SEP !in n && (parent == [] ==> n != [])
  }

  /** The first component is not empty. */
  predicate GoodPath(p: string) {
    p != [] && p[0] != SEP
  }

  predicate GoodParts(parts: seq<string>) {
    parts != [] && parts[0] != [] && forall c | c in parts :: SEP !in c
  }

  /** A key other than a top-level one has its parent in the list. */
  ghost predicate HasParent(all: seq<string>, p: string) {
    LastSep(p) >= 0 ==> LastSep(p) > 0 && ParentPath(p) in all
  }

  ghost predicate AllHaveParents(all: seq<string>, of: seq<string>) {
    forall p {:trigger HasParent(all, p)} | p in of :: HasParent(all, p)
  }

  lemma {:induction false} DistinctAppend<T>(s: seq<T>, x: T)
    requires Distinct(s) && x !in s
    ensures Distinct(s + [x])
  {
  }

  lemma {:induction false} ParentsAppend(all: seq<string>, p: string)
    requires AllHaveParents(all, all) && HasParent(all, p)
    ensures AllHaveParents(all + [p], all + [p])
  {
    forall q {:trigger HasParent(all + [p], q)} | q in all + [p] ensures HasParent(all + [p], q) {
      assert HasParent(all, q);
    }
  }

  /** The prefix before the last component is the parent. */
  lemma {:induction false} PrefixParent(parts: seq<string>, i: nat)
    requires 0 < i <= |parts| && GoodParts(parts)
    ensures NameOf(Join(parts[..i])) == parts[i - 1]
    ensures i == 1 ==> LastSep(Join(parts[..i])) == -1
    ensures i > 1 ==> LastSep(Join(parts[..i])) > 0 && ParentPath(Join(parts[..i])) == Join(parts[..i - 1])
  {
    var n := parts[i - 1];
    assert n in parts && parts[0] in parts;
    if i == 1 {
      assert parts[..1] == [n];
      LastSepOf([], n);
    } else {
      var up := parts[..i - 1];
      assert parts[..i] == up + [n];
      JoinAppend(up, n);
      LastSepOf(Join(up), n);
      JoinedNotEmpty(up);
    }
  }

  lemma {:induction false} PrefixesDistinct(all: seq<string>, parts: seq<string>, i: nat)
    requires i <= |parts| && Distinct(all)
    ensures Distinct(AddPrefixes(all, parts, i)) && all <= AddPrefixes(all, parts, i)
    ensures i > 0 ==> Join(parts[..i]) in AddPrefixes(all, parts, i)
  {
    if i > 0 {
      PrefixesDistinct(all, parts, i - 1);
      if Join(parts[..i]) !in AddPrefixes(all, parts, i - 1) {
        DistinctAppend(AddPrefixes(all, parts, i - 1), Join(parts[..i]));
      }
    }
  }

  lemma {:induction false} PrefixesNotEmpty(all: seq<string>, parts: seq<string>, i: nat)
    requires i <= |parts| && [] !in all && GoodParts(parts)
    ensures [] !in AddPrefixes(all, parts, i)
  {
    if i > 0 {
      PrefixesNotEmpty(all, parts, i - 1);
      JoinedNotEmpty(parts[..i]);
    }
  }

  lemma {:induction false} PrefixesParented(all: seq<string>, parts: seq<string>, i: nat)
    requires i <= |parts| && Distinct(all) && AllHaveParents(all, all) && GoodParts(parts)
    ensures AllHaveParents(AddPrefixes(all, parts, i), AddPrefixes(all, parts, i))
  {
    if i > 0 {
      PrefixesParented(all, parts, i - 1);
      PrefixesDistinct(all, parts, i - 1);
      PrefixParent(parts, i);
      if Join(parts[..i]) !in AddPrefixes(all, parts, i - 1) {
        ParentsAppend(AddPrefixes(all, parts, i - 1), Join(parts[..i]));
      }
    }
  }

  lemma {:induction false} JoinedNotEmpty(parts: seq<string>)
    requires parts != [] && parts[0] != []
    ensures Join(parts) != []
  {
  }

  lemma {:induction false} PathsDistinct(all: seq<string>, paths: seq<string>)
    requires Distinct(all)
    ensures Distinct(AddPaths(all, paths)) && all <= AddPaths(all, paths)
    ensures forall p | p in paths :: p in AddPaths(all, paths)
  {
    if paths != [] {
      var init, last := paths[..|paths| - 1], paths[|paths| - 1];
      var parts := Split(last);
      PathsDistinct(all, init);
      PrefixesDistinct(AddPaths(all, init), parts, |parts|);
      JoinSplit(last);
      assert parts[..|parts|] == parts;
      assert paths == init + [last];
    }
  }

  lemma {:induction false} SplitStart(p: string)
    ensures GoodParts(Split(p)) <==> GoodPath(p)
  {
  }

  lemma {:induction false} PathsNotEmpty(all: seq<string>, paths: seq<string>)
    requires [] !in all && forall p | p in paths :: GoodPath(p)
    ensures [] !in AddPaths(all, paths)
  {
    if paths != [] {
      var init, last := paths[..|paths| - 1], paths[|paths| - 1];
      PathsNotEmpty(all, init);
      SplitStart(last);
      PrefixesNotEmpty(AddPaths(all, init), Split(last), |Split(last)|);
    }
  }

  lemma {:induction false} PathsParented(all: seq<string>, paths: seq<string>)
    requires Distinct(all) && AllHaveParents(all, all) && forall p | p in paths :: GoodPath(p)
    ensures AllHaveParents(AddPaths(all, paths), AddPaths(all, paths))
  {
    if paths != [] {
      var init, last := paths[..|paths| - 1], paths[|paths| - 1];
      PathsParented(all, init);
      PathsDistinct(all, init);
      SplitStart(last);
      PrefixesParented(AddPaths(all, init), Split(last), |Split(last)|);
    }
  }

  /** The input of a build: no path starts with an empty component. */
  ghost predicate GoodInput(keys: seq<string>, values: seq<TestValue>) {
    && (forall p | p in keys :: GoodPath(p))
    && (forall v | v in values :: GoodPath(v.keyPath))
  }

  lemma {:induction false} KeyPathsGood(keys: seq<string>, values: seq<TestValue>)
    requires GoodInput(keys, values)
    ensures forall p | p in KeyPaths(values) :: GoodPath(p)
  {
    forall p | p in KeyPaths(values) ensures GoodPath(p) {
      var i :| 0 <= i < |values| && KeyPaths(values)[i] == p;
      assert values[i] in values;
    }
  }

  /** No path occurs twice, and every path mentioned is there. */
  lemma {:induction false} AllPathsDistinct(keys: seq<string>, values: seq<TestValue>)
    ensures Distinct(AllPaths(keys, values))
    ensures forall p | p in keys :: p in AllPaths(keys, values)
    ensures forall v | v in values :: v.keyPath in AllPaths(keys, values)
  {
    PathsDistinct([], keys);
    PathsDistinct(AddPaths([], keys), KeyPaths(values));
    forall v | v in values ensures v.keyPath in KeyPaths(values) {
      var i :| 0 <= i < |values| && values[i] == v;
      assert KeyPaths(values)[i] == v.keyPath;
    }
  }

  /** `p` holds the first components of `q`, or all of them. */
  ghost predicate IsPrefixOf(p: string, q: string) {
    exists i :: 0 < i <= |Split(q)| && p == Join(Split(q)[..i])
  }

  lemma {:induction false} PrefixesExact(all: seq<string>, parts: seq<string>, i: nat, p: string)
    requires i <= |parts|
    ensures p in AddPrefixes(all, parts, i) <==> p in all || exists k :: 0 < k <= i && p == Join(parts[..k])
  {
    if i > 0 {
      PrefixesExact(all, parts, i - 1, p);
    }
  }

  lemma {:induction false} PathsExact(all: seq<string>, paths: seq<string>, p: string)
    ensures p in AddPaths(all, paths) <==> p in all || exists q :: q in paths && IsPrefixOf(p, q)
  {
    if paths != [] {
      var init, last := paths[..|paths| - 1], paths[|paths| - 1];
      PathsExact(all, init, p);
      PrefixesExact(AddPaths(all, init), Split(last), |Split(last)|, p);
      assert p in AddPaths(all, paths) <==> p in AddPaths(all, init) || IsPrefixOf(p, last);
      assert forall q :: q in paths <==> q in init || q == last by {
        assert paths == init + [last];
      }
      assert last in paths;
    }
  }

  /** Exactly the prefixes of the paths that are mentioned. */
  lemma {:induction false} AllPathsExact(keys: seq<string>, values: seq<TestValue>, p: string)
    ensures p in AllPaths(keys, values) <==> exists q :: (q in keys || q in KeyPaths(values)) && IsPrefixOf(p, q)
  {
    PathsExact([], keys, p);
    PathsExact(AddPaths([], keys), KeyPaths(values), p);
  }

  lemma {:induction false} AllPathsNotEmpty(keys: seq<string>, values: seq<TestValue>)
    requires GoodInput(keys, values)
    ensures [] !in AllPaths(keys, values)
  {
    PathsNotEmpty([], keys);
    KeyPathsGood(keys, values);
    PathsNotEmpty(AddPaths([], keys), KeyPaths(values));
  }

  lemma {:induction false} EmptyStart(q: string)
    requires !GoodPath(q)
    ensures IsPrefixOf([], q)
  {
    SplitStart(q);
    assert Split(q)[0] == [] && Split(q)[..1] == [[]];
    assert Join(Split(q)[..1]) == [];
  }

  /** Such an input is exactly one in which no key gets the path of the root. */
  lemma {:induction false} GoodInputExact(keys: seq<string>, values: seq<TestValue>)
    ensures GoodInput(keys, values) <==> [] !in AllPaths(keys, values)
  {
    AllPathsExact(keys, values, []);
    if GoodInput(keys, values) {
      AllPathsNotEmpty(keys, values);
    } else if p :| p in keys && !GoodPath(p) {
      EmptyStart(p);
    } else {
      var v :| v in values && !GoodPath(v.keyPath);
      EmptyStart(v.keyPath);
      var i :| 0 <= i < |values| && values[i] == v;
      assert KeyPaths(values)[i] == v.keyPath;
    }
  }

  /** Parents are created on the way. */
  lemma {:induction false} AllPathsParented(keys: seq<string>, values: seq<TestValue>)
    requires GoodInput(keys, values)
    ensures AllHaveParents(AllPaths(keys, values), AllPaths(keys, values))
  {
    PathsDistinct([], keys);
    PathsParented([], keys);
    KeyPathsGood(keys, values);
    PathsParented(AddPaths([], keys), KeyPaths(values));
  }

  // ----- children and values by path -----

  /** The names of the keys directly below `parent`, in order. */
  function Under(all: seq<string>, parent: string): seq<string> {
    if all == [] then []
    else
      var p := all[|all| - 1];
      Under(all[..|all| - 1], parent) + if LastSep(p) >= 0 && ParentPath(p) == parent then [NameOf(p)] else []
  }

  function TopLevel(all: seq<string>): seq<string> {
    if all == [] then []
    else
      var p := all[|all| - 1];
      TopLevel(all[..|all| - 1]) + if LastSep(p) < 0 then [p] else []
  }

  /** The names of the keys directly below `p`, in the order of first mention. */
  function ChildNames(keys: seq<string>, values: seq<TestValue>, p: string): seq<string> {
    if p == [] then TopLevel(AllPaths(keys, values)) else Under(AllPaths(keys, values), p)
  }

  function ValuesAt(values: seq<TestValue>, path: string): seq<TreeValue> {
    if values == [] then []
    else
      var v := values[|values| - 1];
      ValuesAt(values[..|values| - 1], path) + if v.keyPath == path then [TreeValue(v.name, v.dataType, v.data)] else []
  }

  function ListAt<T>(m: map<string, seq<T>>, k: string): seq<T> {
    if k in m then m[k] else []
  }

  /** A path with a separator splits in one way. */
  lemma {:induction false} SplitAtLastSep(p: string, parent: string, n: string)
    ensures LastSep(p) >= 0 && ParentPath(p) == parent && NameOf(p) == n <==> SEP !in n && p == parent + [SEP] + n
  {
    NameHasNoSep(p);
    if SEP !in n && p == parent + [SEP] + n {
      LastSepOf(parent, n);
    }
    if LastSep(p) >= 0 {
      assert p == ParentPath(p) + [SEP] + NameOf(p);
    }
  }

  lemma {:induction false} UnderMembers(all: seq<string>, parent: string, n: string)
    ensures n in Under(all, parent) <==> SEP !in n && parent + [SEP] + n in all
  {
    if all != [] {
      var p := all[|all| - 1];
      UnderMembers(all[..|all| - 1], parent, n);
      assert all == all[..|all| - 1] + [p];
      SplitAtLastSep(p, parent, n);
    }
  }

  lemma {:induction false} TopLevelMembers(all: seq<string>, n: string)
    ensures n in TopLevel(all) <==> SEP !in n && n in all
  {
    if all != [] {
      var p := all[|all| - 1];
      TopLevelMembers(all[..|all| - 1], n);
      assert all == all[..|all| - 1] + [p];
      NameHasNoSep(p);
      if SEP !in n {
        LastSepOf([], n);
      }
    }
  }

  lemma {:induction false} NameIsNew(init: seq<string>, p: string, parent: string)
    requires p !in init && LastSep(p) >= 0 && ParentPath(p) == parent
    ensures NameOf(p) !in Under(init, parent)
  {
    UnderMembers(init, parent, NameOf(p));
    SplitAtLastSep(p, parent, NameOf(p));
  }

  lemma {:induction false} UnderDistinct(all: seq<string>, parent: string)
    requires Distinct(all)
    ensures Distinct(Under(all, parent))
  {
    if all != [] {
      var p, init := all[|all| - 1], all[..|all| - 1];
      LastIsNew(all);
      UnderDistinct(init, parent);
      if LastSep(p) >= 0 && ParentPath(p) == parent {
        NameIsNew(init, p, parent);
        DistinctAppend(Under(init, parent), NameOf(p));
      }
    }
  }

  lemma {:induction false} LastIsNew<T>(s: seq<T>)
    requires Distinct(s) && s != []
    ensures Distinct(s[..|s| - 1]) && s[|s| - 1] !in s[..|s| - 1]
  {
  }

  lemma {:induction false} TopLevelDistinct(all: seq<string>)
    requires Distinct(all)
    ensures Distinct(TopLevel(all))
  {
    if all != [] {
      var p, init := all[|all| - 1], all[..|all| - 1];
      TopLevelDistinct(init);
      TopLevelMembers(init, p);
    }
  }

  // ----- building it -----

  /** `Vec::dedup`: drops an element equal to the one before it. */
  function DropRepeats<T(==)>(s: seq<T>): seq<T> {
    if |s| < 2 then s
    else if s[|s| - 1] == s[|s| - 2] then DropRepeats(s[..|s| - 1])
    else DropRepeats(s[..|s| - 1]) + [s[|s| - 1]]
  }

  lemma {:induction false} NothingRepeated<T>(s: seq<T>)
    requires Distinct(s)
    ensures DropRepeats(s) == s
  {
    if |s| >= 2 {
      NothingRepeated(s[..|s| - 1]);
    }
  }

  ghost predicate Matches(t: KeyTree, all: seq<string>, values: seq<TestValue>, p: string) {
    && ListAt(t.children, p) == Under(all, p) && ListAt(t.values, p) == ValuesAt(values, p)
    && (p in t.values ==> t.values[p] != [])
  }

  /** The tree that a build works from. */
  ghost predicate IsTreeOf(t: KeyTree, keys: seq<string>, values: seq<TestValue>) {
    && t.rootChildren == TopLevel(AllPaths(keys, values))
    && forall p {:trigger Matches(t, AllPaths(keys, values), values, p)} ::
         Matches(t, AllPaths(keys, values), values, p)
  }

  method CollectPaths(before: seq<string>, paths: seq<string>) returns (all: seq<string>)
    ensures all == AddPaths(before, paths)
  {
    all := before;
    for k := 0 to |paths|
      invariant all == AddPaths(before, paths[..k])
    {
      var parts := Split(paths[k]);
      ghost var start := all;
      for i := 0 to |parts|
        invariant all == AddPrefixes(start, parts, i)
      {
        var prefix := Join(parts[..i + 1]);
        if prefix !in all {
          all := all + [prefix];
        }
      }
      assert paths[..k + 1][..k] == paths[..k];
    }
    assert paths[..|paths|] == paths;
  }

  method FromPaths(keys: seq<string>, values: seq<TestValue>) returns (t: KeyTree)
    ensures IsTreeOf(t, keys, values)
  {
    var all := CollectPaths([], keys);
    all := CollectPaths(all, KeyPaths(values));
    AllPathsDistinct(keys, values);
    var rootChildren, children := SortOutChildren(all);
    children := DedupEach(children, all);
    var valueMap := SortOutValues(values);
    t := KeyTree(rootChildren, children, valueMap);
  }

  lemma {:induction false} UnderMore(all: seq<string>, k: nat)
    requires k < |all|
    ensures forall p :: Under(all[..k + 1], p) ==
              Under(all[..k], p) + if LastSep(all[k]) >= 0 && ParentPath(all[k]) == p then [NameOf(all[k])] else []
    ensures TopLevel(all[..k + 1]) == TopLevel(all[..k]) + if LastSep(all[k]) < 0 then [all[k]] else []
  {
    assert all[..k + 1][..k] == all[..k];
  }

  method SortOutChildren(all: seq<string>) returns (rootChildren: seq<string>, children: map<string, seq<string>>)
    requires Distinct(all)
    ensures rootChildren == TopLevel(all)
    ensures forall p :: ListAt(children, p) == Under(all, p)
  {
    rootChildren, children := [], map[];
    for k := 0 to |all|
      invariant rootChildren == TopLevel(all[..k])
      invariant forall p :: ListAt(children, p) == Under(all[..k], p)
    {
      var path := all[k];
      UnderMore(all, k);
      var at := LastSep(path);
      if at >= 0 {
        var parent, name := path[..at], path[at + 1..];
        children := children[parent := ListAt(children, parent) + [name]];
      } else {
        TopLevelMembers(all[..k], path);
        if path !in rootChildren {
          rootChildren := rootChildren + [path];
        }
      }
    }
    assert all[..|all|] == all;
  }

  method DedupEach(m: map<string, seq<string>>, ghost all: seq<string>) returns (r: map<string, seq<string>>)
    requires Distinct(all) && forall p :: ListAt(m, p) == Under(all, p)
    ensures forall p :: ListAt(r, p) == Under(all, p)
  {
    r := m;
    var todo := m.Keys;
    while todo != {}
      invariant r == m && todo <= m.Keys
      decreases |todo|
    {
      var p :| p in todo;
      UnderDistinct(all, p);
      NothingRepeated(ListAt(m, p));
      r := r[p := DropRepeats(r[p])];
      todo := todo - {p};
    }
  }

  method SortOutValues(values: seq<TestValue>) returns (m: map<string, seq<TreeValue>>)
    ensures forall p :: ListAt(m, p) == ValuesAt(values, p) && (p in m ==> m[p] != [])
  {
    m := map[];
    for k := 0 to |values|
      invariant forall p :: ListAt(m, p) == ValuesAt(values[..k], p) && (p in m ==> m[p] != [])
    {
      var v := values[k];
      assert values[..k + 1][..k] == values[..k];
      m := m[v.keyPath := ListAt(m, v.keyPath) + [TreeValue(v.name, v.dataType, v.data)]];
    }
    assert values[..|values|] == values;
  }

  // ----- the tree, seen from its keys -----

  /** A name is listed under a key iff the child's path is one of the tree's. */
  lemma {:induction false} KidsOf(t: KeyTree, keys: seq<string>, values: seq<TestValue>, p: string, n: string)
    requires GoodInput(keys, values) && IsTreeOf(t, keys, values)
    ensures n in t.Kids(p) <==> SEP !in n && Child(p, n) in AllPaths(keys, values)
    ensures n in t.Kids(p) ==> GoodChild(p, n)
  {
    var all := AllPaths(keys, values);
    AllPathsNotEmpty(keys, values);
    if p == [] {
      TopLevelMembers(all, n);
    } else {
      assert Matches(t, all, values, p) && t.Kids(p) == ListAt(t.children, p);
      UnderMembers(all, p, n);
    }
  }

  function MaxLength(all: seq<string>): nat {
    if all == [] then 0
    else if |all[|all| - 1]| > MaxLength(all[..|all| - 1]) then |all[|all| - 1]| else MaxLength(all[..|all| - 1])
  }

  lemma {:induction false} MaxLengthBounds(all: seq<string>, p: string)
    requires p in all
    ensures |p| <= MaxLength(all)
  {
    if p != all[|all| - 1] {
      MaxLengthBounds(all[..|all| - 1], p);
    }
  }

  // ----- when the recursions of the writer end -----

  /** Each step of the recursions over the tree, from a path to the path of a child, makes it longer. */
  ghost predicate StepsGrow(t: KeyTree) {
    forall p, n {:trigger Child(p, n)} | n in ListAt(t.children, p) :: |p| < |Child(p, n)|
  }

  ghost predicate IsStep(t: KeyTree, p: string, q: string) {
    exists n :: n in ListAt(t.children, p) && q == Child(p, n)
  }

  /** The paths of calls nested in one another, from a child of the root down. */
  ghost predicate CallChain(t: KeyTree, ps: seq<string>) {
    ps != [] && ps[0] in t.rootChildren && forall i | 0 < i < |ps| :: IsStep(t, ps[i - 1], ps[i])
  }

  ghost predicate CallsEnd(t: KeyTree, bound: nat) {
    forall ps | CallChain(t, ps) :: |ps| <= bound
  }

  lemma {:induction false} StepsGrowExact(t: KeyTree, keys: seq<string>, values: seq<TestValue>)
    requires IsTreeOf(t, keys, values)
    ensures StepsGrow(t) <==> [SEP] !in AllPaths(keys, values)
  {
    var all := AllPaths(keys, values);
    assert Matches(t, all, values, []);
    UnderMembers(all, [], []);
    assert [] + [SEP] + [] == [SEP];
    if StepsGrow(t) {
      assert Child([], []) == [];
    }
  }

  /** A step leads to a path that is no longer than the longest of the tree. */
  lemma {:induction false} StepShort(t: KeyTree, keys: seq<string>, values: seq<TestValue>, p: string, q: string)
    requires IsTreeOf(t, keys, values) && IsStep(t, p, q)
    ensures |q| <= MaxLength(AllPaths(keys, values))
  {
    var all := AllPaths(keys, values);
    var n :| n in ListAt(t.children, p) && q == Child(p, n);
    assert Matches(t, all, values, p);
    UnderMembers(all, p, n);
    MaxLengthBounds(all, p + [SEP] + n);
  }

  lemma {:induction false} ChainLengthens(t: KeyTree, ps: seq<string>)
    requires StepsGrow(t) && CallChain(t, ps)
    ensures |ps| <= |ps[|ps| - 1]| + 1
  {
    var n := |ps| - 1;
    if n > 0 {
      assert CallChain(t, ps[..n]);
      ChainLengthens(t, ps[..n]);
      assert IsStep(t, ps[n - 1], ps[n]);
    }
  }

  lemma {:induction false} GrowingCallsEnd(t: KeyTree, keys: seq<string>, values: seq<TestValue>)
    requires IsTreeOf(t, keys, values) && StepsGrow(t)
    ensures CallsEnd(t, MaxLength(AllPaths(keys, values)) + 1)
  {
    var all := AllPaths(keys, values);
    forall ps | CallChain(t, ps) ensures |ps| <= MaxLength(all) + 1 {
      ChainLengthens(t, ps);
      if |ps| > 1 {
        assert IsStep(t, ps[|ps| - 2], ps[|ps| - 1]);
        StepShort(t, keys, values, ps[|ps| - 2], ps[|ps| - 1]);
      }
    }
  }

  /** Two empty components: the key with the empty path is below the root and below itself. */
  lemma {:induction false} BelowItself(t: KeyTree, keys: seq<string>, values: seq<TestValue>)
    requires IsTreeOf(t, keys, values) && [SEP] in AllPaths(keys, values)
    ensures [] in t.rootChildren && [] in ListAt(t.children, []) && IsStep(t, [], [])
  {
    var all := AllPaths(keys, values);
    assert Matches(t, all, values, []);
    UnderMembers(all, [], []);
    assert [] + [SEP] + [] == [SEP];
    SepStart(keys, values);
    TopLevelMembers(all, []);
    assert Child([], []) == [];
  }

  lemma {:induction false} PrefixStart(p: string, q: string)
    requires IsPrefixOf(p, q)
    ensures GoodPath(q) ==> p != [] && p[0] != SEP
  {
    var i :| 0 < i <= |Split(q)| && p == Join(Split(q)[..i]);
    var parts := Split(q)[..i];
    assert parts[0] == Split(q)[0] && parts[0] in Split(q);
    SplitStart(q);
    JoinStarts(parts);
  }

  lemma JoinStarts(parts: seq<string>)
    requires parts != [] && SEP !in parts[0]
    ensures parts[0] != [] ==> Join(parts) != [] && Join(parts)[0] != SEP
  {
    assert parts[0] != [] ==> parts[0][0] in parts[0];
  }

  /** Where the path of two empty components is collected, so is that of the first. */
  lemma {:induction false} SepStart(keys: seq<string>, values: seq<TestValue>)
    requires [SEP] in AllPaths(keys, values)
    ensures [] in AllPaths(keys, values)
  {
    AllPathsExact(keys, values, [SEP]);
    AllPathsExact(keys, values, []);
    var q :| (q in keys || q in KeyPaths(values)) && IsPrefixOf([SEP], q);
    PrefixStart([SEP], q);
    EmptyStart(q);
  }

  lemma {:induction false} EndlessChain(t: KeyTree, n: nat) returns (ps: seq<string>)
    requires [] in t.rootChildren && IsStep(t, [], [])
    ensures CallChain(t, ps) && |ps| == n + 1
  {
    ps := seq(n + 1, _ => []);
  }

  /** Calls that nest `n` deep below a first one. */
  ghost predicate Nests(t: KeyTree, n: nat) {
    exists ps :: CallChain(t, ps) && |ps| == n + 1
  }

  /** The nested calls of the writer end, for some bound on their depth, unless two empty components come first:
      then they nest to every depth. */
  lemma {:induction false} RecursionEnds(t: KeyTree, keys: seq<string>, values: seq<TestValue>)
    requires IsTreeOf(t, keys, values)
    ensures [SEP] !in AllPaths(keys, values) <==> exists bound: nat :: CallsEnd(t, bound)
    ensures [SEP] in AllPaths(keys, values) <==> forall n: nat :: Nests(t, n)
  {
    if [SEP] !in AllPaths(keys, values) {
      var bound := MaxLength(AllPaths(keys, values)) + 1;
      StepsGrowExact(t, keys, values);
      GrowingCallsEnd(t, keys, values);
      assert CallsEnd(t, bound) && !Nests(t, bound);
    } else {
      BelowItself(t, keys, values);
      forall n: nat ensures Nests(t, n) {
        var ps := EndlessChain(t, n);
      }
      forall bound: nat ensures !CallsEnd(t, bound) {
        var ps := EndlessChain(t, bound);
      }
    }
  }

  // ----- which paths the writer visits -----

  /** The recursions of the writer call themselves for this path. */
  ghost predicate Visited(t: KeyTree, p: string) {
    exists ps :: CallChain(t, ps) && ps[|ps| - 1] == p
  }

  predicate StartsPlain(p: string) { p == [] || p[0] != SEP }

  /** No path that is given starts with a separator. */
  ghost predicate AllStartPlain(keys: seq<string>, values: seq<TestValue>) {
    forall q | q in keys || q in KeyPaths(values) :: StartsPlain(q)
  }

  lemma {:induction false} ChainPlain(t: KeyTree, keys: seq<string>, values: seq<TestValue>, ps: seq<string>)
    requires IsTreeOf(t, keys, values) && CallChain(t, ps)
    ensures StartsPlain(ps[|ps| - 1])
  {
    var all, n := AllPaths(keys, values), |ps| - 1;
    if n == 0 {
      TopLevelMembers(all, ps[0]);
    } else {
      assert CallChain(t, ps[..n]);
      ChainPlain(t, keys, values, ps[..n]);
      assert IsStep(t, ps[n - 1], ps[n]);
      var name :| name in ListAt(t.children, ps[n - 1]) && ps[n] == Child(ps[n - 1], name);
      assert Matches(t, all, values, ps[n - 1]);
      UnderMembers(all, ps[n - 1], name);
    }
  }

  lemma StepFurther(t: KeyTree, ps: seq<string>, p: string, n: string)
    requires CallChain(t, ps) && n in ListAt(t.children, ps[|ps| - 1]) && p == Child(ps[|ps| - 1], n)
    ensures Visited(t, p)
  {
    var more := ps + [p];
    forall i | 0 < i < |more| ensures IsStep(t, more[i - 1], more[i]) {
      if i < |ps| {
        assert IsStep(t, ps[i - 1], ps[i]);
      }
    }
    assert CallChain(t, more) && more[|more| - 1] == p;
  }

  lemma {:induction false} TopVisited(t: KeyTree, keys: seq<string>, values: seq<TestValue>, n: string)
    requires IsTreeOf(t, keys, values) && SEP !in n && n in AllPaths(keys, values)
    ensures Visited(t, n)
  {
    TopLevelMembers(AllPaths(keys, values), n);
    assert CallChain(t, [n]);
  }

  lemma {:induction false} BelowVisited(t: KeyTree, keys: seq<string>, values: seq<TestValue>, up: string, n: string)
    requires IsTreeOf(t, keys, values) && SEP !in n && up != [] && up + [SEP] + n in AllPaths(keys, values)
             && Visited(t, up)
    ensures Visited(t, up + [SEP] + n)
  {
    var all := AllPaths(keys, values);
    assert Matches(t, all, values, up);
    UnderMembers(all, up, n);
    var ps :| CallChain(t, ps) && ps[|ps| - 1] == up;
    StepFurther(t, ps, up + [SEP] + n, n);
  }

  lemma {:induction false} PrefixCollected(keys: seq<string>, values: seq<TestValue>, q: string, i: nat)
    requires (q in keys || q in KeyPaths(values)) && 0 < i <= |Split(q)|
    ensures Join(Split(q)[..i]) in AllPaths(keys, values)
  {
    assert IsPrefixOf(Join(Split(q)[..i]), q);
    AllPathsExact(keys, values, Join(Split(q)[..i]));
  }

  lemma {:induction false} PrefixStep(q: string, i: nat) returns (up: string, n: string)
    requires StartsPlain(q) && 1 < i <= |Split(q)|
    ensures SEP !in n && up == Join(Split(q)[..i - 1]) && up != [] && up + [SEP] + n == Join(Split(q)[..i])
  {
    var parts := Split(q);
    up, n := Join(parts[..i - 1]), parts[i - 1];
    assert n in parts;
    SplitStart(q);
    JoinedNotEmpty(parts[..i - 1]);
    assert parts[..i] == parts[..i - 1] + [n];
    JoinAppend(parts[..i - 1], n);
  }

  lemma PrefixFirst(q: string)
    ensures SEP !in Join(Split(q)[..1])
  {
    assert Split(q)[0] in Split(q) && Split(q)[..1] == [Split(q)[0]];
  }

  lemma {:induction false} PrefixVisited(t: KeyTree, keys: seq<string>, values: seq<TestValue>, q: string, i: nat)
    requires IsTreeOf(t, keys, values) && (q in keys || q in KeyPaths(values)) && StartsPlain(q) && 0 < i <= |Split(q)|
    ensures Visited(t, Join(Split(q)[..i]))
  {
    PrefixCollected(keys, values, q, i);
    if i == 1 {
      PrefixFirst(q);
      TopVisited(t, keys, values, Join(Split(q)[..1]));
    } else {
      PrefixVisited(t, keys, values, q, i - 1);
      var up, n := PrefixStep(q, i);
      BelowVisited(t, keys, values, up, n);
    }
  }

  /** The writer visits every path that was collected if and only if none that was given starts with a separator. */
  lemma {:induction false} VisitsAll(t: KeyTree, keys: seq<string>, values: seq<TestValue>)
    requires IsTreeOf(t, keys, values)
    ensures (forall p | p in AllPaths(keys, values) :: Visited(t, p)) <==> AllStartPlain(keys, values)
  {
    if AllStartPlain(keys, values) {
      forall p | p in AllPaths(keys, values) ensures Visited(t, p) {
        AllPathsExact(keys, values, p);
        var q :| (q in keys || q in KeyPaths(values)) && IsPrefixOf(p, q);
        var i :| 0 < i <= |Split(q)| && p == Join(Split(q)[..i]);
        PrefixVisited(t, keys, values, q, i);
      }
    } else {
      var q :| (q in keys || q in KeyPaths(values)) && !StartsPlain(q);
      JoinSplit(q);
      assert Split(q)[..|Split(q)|] == Split(q) && IsPrefixOf(q, q);
      AllPathsExact(keys, values, q);
      if Visited(t, q) {
        var ps :| CallChain(t, ps) && ps[|ps| - 1] == q;
        ChainPlain(t, keys, values, ps);
      }
    }
  }

  lemma {:induction false} KidsDistinct(t: KeyTree, keys: seq<string>, values: seq<TestValue>, p: string)
    requires IsTreeOf(t, keys, values)
    ensures Distinct(t.Kids(p))
  {
    AllPathsDistinct(keys, values);
    TopLevelDistinct(AllPaths(keys, values));
    UnderDistinct(AllPaths(keys, values), p);
    assert Matches(t, AllPaths(keys, values), values, p);
    assert p != [] ==> t.Kids(p) == ListAt(t.children, p);
  }
}
