/** The order in which a diff lists its entries. */
module DiffOrder {
  import opened Wrappers
  import opened Text
  import opened KeyGraphs
  import opened MergeJoin
  import opened Diff
  import opened DiffLaws

  /** Component by component, up to case; a path comes before those below it. */
  predicate PathLess(p: Path, q: Path) {
    q != [] && (p == [] || Less(Upper(p[0]), Upper(q[0])) || (Upper(p[0]) == Upper(q[0]) && PathLess(p[1..], q[1..])))
  }

  ghost predicate Increasing(es: seq<Entry<Path>>) {
    forall i, j | 0 <= i < j < |es| :: PathLess(es[i].path, es[j].path)
  }

  lemma {:induction false} LessBelow(path: Path, s: Path, t: Path)
    ensures PathLess(path + s, path + t) == PathLess(s, t)
  {
    if path == [] {
      assert path + s == s && path + t == t;
    } else {
      assert (path + s)[1..] == path[1..] + s && (path + t)[1..] == path[1..] + t;
      LessIrreflexive(Upper(path[0]));
      LessBelow(path[1..], s, t);
    }
  }

  /** The path lies below `path`, in a subkey whose upper-cased name is `k`. */
  ghost predicate Below(e: Entry<Path>, path: Path, k: string) {
    path < e.path && Upper(e.path[|path|]) == k
  }

  ghost predicate AllBelow(es: seq<Entry<Path>>, path: Path, k: string) {
    forall e | e in es :: Below(e, path, k)
  }

  lemma SiblingsOrdered(path: Path, x: Entry<Path>, j: string, y: Entry<Path>, k: string)
    requires Below(x, path, j) && Below(y, path, k) && Less(j, k)
    ensures PathLess(x.path, y.path)
  {
    var s, t := x.path[|path|..], y.path[|path|..];
    assert x.path == path + s && y.path == path + t;
    LessBelow(path, s, t);
  }

  lemma ParentFirst(path: Path, y: Entry<Path>, k: string)
    requires Below(y, path, k)
    ensures PathLess(path, y.path)
  {
    var t := y.path[|path|..];
    assert path == path + [] && y.path == path + t;
    LessBelow(path, [], t);
  }

  lemma AppendBelow(a: seq<Entry<Path>>, b: seq<Entry<Path>>, path: Path, j: string)
    requires Increasing(a) && AllBelow(a, path, j) && Increasing(b)
    requires forall e | e in b :: path < e.path && Less(j, Upper(e.path[|path|]))
    ensures Increasing(a + b)
  {
    forall x, y | 0 <= x < |a| && 0 <= y < |b| ensures PathLess(a[x].path, b[y].path) {
      assert a[x] in a && b[y] in b;
      SiblingsOrdered(path, a[x], j, b[y], Upper(b[y].path[|path|]));
    }
  }

  /** Every entry lies at or below the compared keys. */
  ghost predicate AtOrBelow(es: seq<Entry<Path>>, path: Path) {
    forall e | e in es :: path <= e.path
  }

  ghost predicate Ordered(es: seq<Entry<Path>>, path: Path) {
    Increasing(es) && AtOrBelow(es, path)
  }

  /** The entries of one pairing lie below its key. */
  ghost predicate PairOrdered<K>(p: Pairing<Tree<K>>, path: Path)
    requires KeyPairDiff(p, path).Ok?
  {
    Increasing(KeyPairDiff(p, path).value) && AllBelow(KeyPairDiff(p, path).value, path, p.Key(TreeKey))
  }

  lemma {:induction false} PairsOrdered<K(!new)>(ps: seq<Pairing<Tree<K>>>, path: Path)
    requires PairsDiff(ps, path).Ok? && KeysIncrease(ps, TreeKey)
    requires forall p | p in ps :: KeyPairDiff(p, path).Ok? && PairOrdered(p, path)
    ensures Increasing(PairsDiff(ps, path).value)
  {
    if ps != [] {
      var rest := PairsDiff(ps[1..], path).value;
      assert ps == [ps[0]] + ps[1..];
      PairsOrdered(ps[1..], path);
      InPairsDiff(ps[1..], path);
      forall e | e in rest ensures path < e.path && Less(ps[0].Key(TreeKey), Upper(e.path[|path|])) {
        var p :| p in ps[1..] && e in KeyPairDiff(p, path).value;
        assert PairOrdered(p, path);
        var i :| 0 <= i < |ps[1..]| && ps[1..][i] == p;
        assert ps[i + 1] == p;
      }
      AppendBelow(KeyPairDiff(ps[0], path).value, rest, path, ps[0].Key(TreeKey));
    }
  }

  lemma OnePair<K>(p: Pairing<Tree<K>>, path: Path)
    requires KeyPairDiff(p, path).Ok?
    requires p.Both? ==> Ordered(KeyPairDiff(p, path).value, path + [p.left.name])
    ensures PairOrdered(p, path)
  {
    var k := match p case Both(l, _) => l.name case OnlyLeft(l) => l.name case OnlyRight(r) => r.name;
    forall e | e in KeyPairDiff(p, path).value ensures Below(e, path, p.Key(TreeKey)) {
      assert path + [k] <= e.path;
      assert e.path[|path|] == (path + [k])[|path|];
      assert path == (path + [k])[..|path|] == e.path[..|path|];
    }
  }

  lemma KidPairsIncrease<K>(l: Tree<K>, r: Tree<K>)
    requires l.Node? && r.Node? && DistinctNames(l) && DistinctNames(r)
    ensures KeysIncrease(KidPairs(l.kids, r.kids), TreeKey)
  {
    TreesApart(l.kids);
    TreesApart(r.kids);
    SortStrict(l.kids, TreeKey);
    SortStrict(r.kids, TreeKey);
    JoinOrdered(Sort(l.kids, TreeKey), Sort(r.kids, TreeKey), TreeKey);
  }

  lemma NodeOrdered<K(!new)>(ps: seq<Pairing<Tree<K>>>, path: Path, first: seq<Entry<Path>>, below: seq<Entry<Path>>)
    requires PairsDiff(ps, path) == Ok(below) && KeysIncrease(ps, TreeKey)
    requires forall p | p in ps :: KeyPairDiff(p, path).Ok? && PairOrdered(p, path)
    requires |first| <= 1 && forall e | e in first :: e.path == path
    ensures Ordered(first + below, path)
  {
    InPairsDiff(ps, path);
    PairsOrdered(ps, path);
    forall e | e in below ensures path <= e.path && PathLess(path, e.path) {
      var p :| p in ps && e in KeyPairDiff(p, path).value;
      assert PairOrdered(p, path) && Below(e, path, p.Key(TreeKey));
      ParentFirst(path, e, p.Key(TreeKey));
    }
    HeadThenBelow(first, below, path);
  }

  /** Among siblings with distinct names, entries come in strictly increasing path order, a key before
      what lies below it. */
  lemma {:induction false} DiffOrdered<K(!new)>(l: Tree<K>, r: Tree<K>, path: Path, es: seq<Entry<Path>>)
    requires DistinctNames(l) && DistinctNames(r) && TreeDiff(l, r, path) == Ok(es)
    ensures Ordered(es, path)
    decreases l
  {
    var ps, first, below := DiffParts(l, r, path, es);
    KidPairsUp(l, r);
    KidPairsIncrease(l, r);
    InPairsDiff(ps, path);
    forall p | p in ps ensures KeyPairDiff(p, path).Ok? && PairOrdered(p, path) {
      if p.Both? {
        DiffOrdered(p.left, p.right, path + [p.left.name], KeyPairDiff(p, path).value);
      }
      OnePair(p, path);
    }
    NodeOrdered(ps, path, first, below);
  }

  lemma HeadThenBelow(first: seq<Entry<Path>>, below: seq<Entry<Path>>, path: Path)
    requires |first| <= 1 && forall e | e in first :: e.path == path
    requires Increasing(below) && forall e | e in below :: path <= e.path && PathLess(path, e.path)
    ensures Ordered(first + below, path)
  {
    var es := first + below;
    forall i, j | 0 <= i < j < |es| ensures PathLess(es[i].path, es[j].path) {
      assert j >= |first| && es[j] == below[j - |first|] && below[j - |first|] in below;
      if i < |first| {
        assert first[i] in first;
      }
    }
  }
}
