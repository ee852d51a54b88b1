/** What the diff of two trees says about them. */
module DiffLaws {
  import opened Wrappers
  import opened Bytes
  import opened Text
  import opened KeyGraphs
  import opened MergeJoin
  import opened Diff

  // ----- names up to case, and what a value carries -----

  ghost predicate DistinctValues(vs: seq<ValueData>) {
    forall i, j | 0 <= i < j < |vs| :: !EqualFold(vs[i].name, vs[j].name)
  }

  ghost predicate DistinctTrees<K>(ts: seq<Tree<K>>) {
    forall i, j | 0 <= i < j < |ts| :: !EqualFold(ts[i].name, ts[j].name)
  }

  /** Sibling keys, and the values of one key, have names that differ by more than case. */
  ghost predicate DistinctNames<K>(t: Tree<K>) {
    && (t.values.Ok? ==> DistinctValues(t.values.value))
    && (t.Node? ==> DistinctTrees(t.kids) && forall k | k in t.kids :: DistinctNames(k))
  }

  lemma ValuesApart(vs: seq<ValueData>)
    ensures DistinctValues(vs) <==> DistinctKeys(vs, ValueKey)
  {
    forall i, j | 0 <= i < j < |vs|
      ensures EqualFold(vs[i].name, vs[j].name) <==> ValueKey(vs[i]) == ValueKey(vs[j])
    {
      FoldedEqual(vs[i].name, vs[j].name);
    }
  }

  lemma TreesApart<K>(ts: seq<Tree<K>>)
    ensures DistinctTrees(ts) <==> DistinctKeys(ts, TreeKey)
  {
    forall i, j | 0 <= i < j < |ts|
      ensures EqualFold(ts[i].name, ts[j].name) <==> TreeKey(ts[i]) == TreeKey(ts[j])
    {
      FoldedEqual(ts[i].name, ts[j].name);
    }
  }

  ghost predicate NoValueNamed(vs: seq<ValueData>, n: string) {
    forall v | v in vs :: !EqualFold(v.name, n)
  }

  ghost predicate NoTreeNamed<K>(ts: seq<Tree<K>>, n: string) {
    forall t | t in ts :: !EqualFold(t.name, n)
  }

  lemma ValueLacked(vs: seq<ValueData>, v: ValueData)
    ensures NoValueNamed(vs, v.name) <==> Lacks(vs, ValueKey(v), ValueKey)
  {
    forall x | x in vs ensures EqualFold(x.name, v.name) <==> ValueKey(x) == ValueKey(v) {
      FoldedEqual(x.name, v.name);
    }
  }

  lemma TreeLacked<K>(ts: seq<Tree<K>>, t: Tree<K>)
    ensures NoTreeNamed(ts, t.name) <==> Lacks(ts, TreeKey(t), TreeKey)
  {
    forall x | x in ts ensures EqualFold(x.name, t.name) <==> TreeKey(x) == TreeKey(t) {
      FoldedEqual(x.name, t.name);
    }
  }

  /** The bytes that are compared: data that cannot be read counts as empty. */
  predicate ReadsAs(v: ValueData, raw: Buf) {
    match v.raw
    case Ok(bytes) => raw == bytes
    case Err(_) => raw == []
  }

  /** What is recorded of a value is its type and these bytes. */
  predicate Carries(s: Snapshot, v: ValueData) {
    s.dataType == v.dataType && ReadsAs(v, s.raw)
  }

  /** The same type and the same bytes. */
  ghost predicate SameContent(a: ValueData, b: ValueData) {
    a.dataType == b.dataType && exists raw :: ReadsAs(a, raw) && ReadsAs(b, raw)
  }

  lemma CarriesExact(s: Snapshot, v: ValueData)
    ensures Carries(s, v) <==> s == SnapshotOf(v)
  {
  }

  lemma SameContentExact(a: ValueData, b: ValueData)
    ensures SameContent(a, b) <==> SnapshotOf(a) == SnapshotOf(b)
  {
    if SnapshotOf(a) == SnapshotOf(b) {
      assert ReadsAs(a, SnapshotOf(a).raw) && ReadsAs(b, SnapshotOf(a).raw);
    }
  }

  // ----- joins and membership -----

  lemma {:induction false} LeftsFrom<T>(ps: seq<Pairing<T>>, x: T)
    ensures x in LeftsOf(ps) <==> exists p :: p in ps && x in p.Lefts()
  {
    if ps != [] {
      LeftsFrom(ps[1..], x);
      assert ps == [ps[0]] + ps[1..];
    }
  }

  lemma {:induction false} RightsFrom<T>(ps: seq<Pairing<T>>, x: T)
    ensures x in RightsOf(ps) <==> exists p :: p in ps && x in p.Rights()
  {
    if ps != [] {
      RightsFrom(ps[1..], x);
      assert ps == [ps[0]] + ps[1..];
    }
  }

  function Joined<T>(ls: seq<T>, rs: seq<T>, key: T -> string): seq<Pairing<T>> {
    JoinSorted(Sort(ls, key), Sort(rs, key), key)
  }

  ghost predicate Lacks<T>(xs: seq<T>, k: string, key: T -> string) {
    forall x | x in xs :: key(x) != k
  }

  /** What joining two lists with distinct keys pairs up. */
  ghost predicate Pairs<T>(ls: seq<T>, rs: seq<T>, key: T -> string, p: Pairing<T>) {
    match p
    case Both(l, r) => l in ls && r in rs && key(l) == key(r)
    case OnlyLeft(l) => l in ls && Lacks(rs, key(l), key)
    case OnlyRight(r) => r in rs && Lacks(ls, key(r), key)
  }

  lemma SameWhenSameKey<T>(s: seq<T>, key: T -> string, x: T, y: T)
    requires DistinctKeys(s, key) && x in s && y in s && key(x) == key(y)
    ensures x == y
  {
    var i :| 0 <= i < |s| && s[i] == x;
    var j :| 0 <= j < |s| && s[j] == y;
    assert i == j;
  }

  lemma PairingsExact<T>(ps: seq<Pairing<T>>, ls: seq<T>, rs: seq<T>, key: T -> string, p: Pairing<T>)
    requires DistinctKeys(rs, key) && LeftsOf(ps) == ls && RightsOf(ps) == rs
    requires forall q | q in ps :: FromLists(q, ls, rs, key) && OneSidedLacks(q, ls, rs, key)
    ensures p in ps <==> Pairs(ls, rs, key, p)
  {
    if Pairs(ls, rs, key, p) {
      if p.OnlyRight? {
        RightsFrom(ps, p.right);
        var q :| q in ps && p.right in q.Rights();
        assert FromLists(q, ls, rs, key);
      } else {
        LeftsFrom(ps, p.left);
        var q :| q in ps && p.left in q.Lefts();
        assert FromLists(q, ls, rs, key) && OneSidedLacks(q, ls, rs, key);
        if p.Both? {
          SameWhenSameKey(rs, key, p.right, q.right);
        }
      }
    }
  }

  /** The join is exact: a pairing occurs iff its elements correspond, or its element has no counterpart. */
  lemma JoinedExact<T>(ls: seq<T>, rs: seq<T>, key: T -> string, p: Pairing<T>)
    requires DistinctKeys(ls, key) && DistinctKeys(rs, key)
    ensures p in Joined(ls, rs, key) <==> Pairs(ls, rs, key, p)
  {
    var sl, sr := Sort(ls, key), Sort(rs, key);
    SortStrict(ls, key);
    SortStrict(rs, key);
    SortElements(ls, key);
    SortElements(rs, key);
    DistinctPermutes(rs, sr, key);
    JoinOrdered(sl, sr, key);
    JoinElements(sl, sr, key);
    JoinConserves(sl, sr, key);
    PairingsExact(JoinSorted(sl, sr, key), sl, sr, key, p);
    assert Pairs(ls, rs, key, p) <==> Pairs(sl, sr, key, p);
  }

  // ----- exactness: which differences are reported -----

  lemma {:induction false} InPairDiffs(ps: seq<Pairing<ValueData>>, d: ValueDiff)
    ensures d in PairDiffs(ps) <==> exists p :: p in ps && d in PairDiff(p)
  {
    if ps != [] {
      InPairDiffs(ps[1..], d);
      assert ps == [ps[0]] + ps[1..];
    }
  }

  /** Two values of one name that differ in type or bytes, or one value without a counterpart, with what they carry. */
  ghost predicate ValueDiffers(ls: seq<ValueData>, rs: seq<ValueData>, d: ValueDiff) {
    match d.kind
    case Changed(x, y) => exists a, b ::
      && a in ls && b in rs && EqualFold(a.name, b.name) && !SameContent(a, b)
      && Carries(x, a) && Carries(y, b) && d.name == a.name
    case Removed(x) => exists a :: a in ls && NoValueNamed(rs, a.name) && Carries(x, a) && d.name == a.name
    case Added(y) => exists b :: b in rs && NoValueNamed(ls, b.name) && Carries(y, b) && d.name == b.name
  }

  lemma ReportedPairs(ls: seq<ValueData>, rs: seq<ValueData>, d: ValueDiff)
    requires DistinctKeys(ls, ValueKey) && DistinctKeys(rs, ValueKey)
    ensures d in ValueDiffs(ls, rs) <==> exists p :: Pairs(ls, rs, ValueKey, p) && d in PairDiff(p)
  {
    var ps := Joined(ls, rs, ValueKey);
    InPairDiffs(ps, d);
    forall p ensures p in ps <==> Pairs(ls, rs, ValueKey, p) {
      JoinedExact(ls, rs, ValueKey, p);
    }
  }

  lemma DifferingPair(ls: seq<ValueData>, rs: seq<ValueData>, d: ValueDiff) returns (p: Pairing<ValueData>)
    requires ValueDiffers(ls, rs, d)
    ensures Pairs(ls, rs, ValueKey, p) && PairDiff(p) == [d]
  {
    match d.kind {
      case Changed(x, y) =>
        var a, b :| a in ls && b in rs && EqualFold(a.name, b.name) && !SameContent(a, b) && Carries(x, a)
          && Carries(y, b) && d.name == a.name;
        FoldedEqual(a.name, b.name);
        SameContentExact(a, b);
        CarriesExact(x, a);
        CarriesExact(y, b);
        p := Both(a, b);
      case Removed(x) =>
        var a :| a in ls && NoValueNamed(rs, a.name) && Carries(x, a) && d.name == a.name;
        ValueLacked(rs, a);
        CarriesExact(x, a);
        p := OnlyLeft(a);
      case Added(y) =>
        var b :| b in rs && NoValueNamed(ls, b.name) && Carries(y, b) && d.name == b.name;
        ValueLacked(ls, b);
        CarriesExact(y, b);
        p := OnlyRight(b);
    }
  }

  lemma PairDiffers(ls: seq<ValueData>, rs: seq<ValueData>, p: Pairing<ValueData>, d: ValueDiff)
    requires Pairs(ls, rs, ValueKey, p) && d in PairDiff(p)
    ensures ValueDiffers(ls, rs, d)
  {
    match p
    case Both(a, b) =>
      FoldedEqual(a.name, b.name);
      SameContentExact(a, b);
      CarriesExact(SnapshotOf(a), a);
      CarriesExact(SnapshotOf(b), b);
    case OnlyLeft(a) =>
      ValueLacked(rs, a);
      CarriesExact(SnapshotOf(a), a);
    case OnlyRight(b) =>
      ValueLacked(ls, b);
      CarriesExact(SnapshotOf(b), b);
  }

  /** The reported value differences are the actual ones. */
  lemma ValueDiffsExact(ls: seq<ValueData>, rs: seq<ValueData>, d: ValueDiff)
    requires DistinctValues(ls) && DistinctValues(rs)
    ensures d in ValueDiffs(ls, rs) <==> ValueDiffers(ls, rs, d)
  {
    ValuesApart(ls);
    ValuesApart(rs);
    ReportedPairs(ls, rs, d);
    if d in ValueDiffs(ls, rs) {
      var p :| Pairs(ls, rs, ValueKey, p) && d in PairDiff(p);
      PairDiffers(ls, rs, p, d);
    }
    if ValueDiffers(ls, rs, d) {
      var p := DifferingPair(ls, rs, d);
      assert d in PairDiff(p);
    }
  }

  ghost predicate Corresponding<K>(l: Tree<K>, r: Tree<K>, a: Tree<K>, b: Tree<K>)
    requires BothReadable(l, r)
  {
    a in l.kids && b in r.kids && EqualFold(a.name, b.name)
  }

  /** A key without a counterpart. */
  ghost predicate OneSided<K(!new)>(l: Tree<K>, r: Tree<K>, path: Path, e: Entry<Path>)
    requires BothReadable(l, r)
  {
    || (e.kind == KeyRemoved && e.details == [] &&
        exists a :: a in l.kids && NoTreeNamed(r.kids, a.name) && e.path == path + [a.name])
    || (e.kind == KeyAdded && e.details == [] &&
        exists b :: b in r.kids && NoTreeNamed(l.kids, b.name) && e.path == path + [b.name])
  }

  /** In increasing order of the upper-cased names. */
  ghost predicate ByName(ds: seq<ValueDiff>) {
    forall i, j | 0 <= i < j < |ds| :: Less(Upper(ds[i].name), Upper(ds[j].name))
  }

  /** The details of a modified key: the differences of its values, each once, in increasing order of their names. */
  ghost predicate IsDetails(ls: seq<ValueData>, rs: seq<ValueData>, ds: seq<ValueDiff>) {
    (forall d :: d in ds <==> ValueDiffers(ls, rs, d)) && ByName(ds)
  }

  ghost predicate Changes<K>(l: Tree<K>, r: Tree<K>, path: Path, e: Entry<Path>)
    requires BothReadable(l, r)
  {
    && e.path == path && e.kind == KeyModified && e.details != []
    && IsDetails(l.values.value, r.values.value, e.details)
  }

  lemma OnePairDiff(p: Pairing<ValueData>)
    ensures |PairDiff(p)| <= 1 && forall d | d in PairDiff(p) :: Upper(d.name) == p.Key(ValueKey)
  {
  }

  lemma {:induction false} PairDiffsOrdered(ps: seq<Pairing<ValueData>>)
    requires KeysIncrease(ps, ValueKey)
    ensures ByName(PairDiffs(ps))
  {
    if ps != [] {
      PairDiffsOrdered(ps[1..]);
      OnePairDiff(ps[0]);
      var first, rest := PairDiff(ps[0]), PairDiffs(ps[1..]);
      forall i, j | 0 <= i < |first| && 0 <= j < |rest| ensures Less(Upper(first[i].name), Upper(rest[j].name)) {
        assert first[i] in first && rest[j] in rest;
        InPairDiffs(ps[1..], rest[j]);
        var p :| p in ps[1..] && rest[j] in PairDiff(p);
        OnePairDiff(p);
        var k :| 0 <= k < |ps[1..]| && ps[1..][k] == p;
        assert ps[k + 1] == p;
      }
    }
  }

  lemma ValueDiffsDetails(ls: seq<ValueData>, rs: seq<ValueData>)
    requires DistinctValues(ls) && DistinctValues(rs)
    ensures IsDetails(ls, rs, ValueDiffs(ls, rs))
  {
    forall d ensures d in ValueDiffs(ls, rs) <==> ValueDiffers(ls, rs, d) {
      ValueDiffsExact(ls, rs, d);
    }
    ValuesApart(ls);
    ValuesApart(rs);
    SortStrict(ls, ValueKey);
    SortStrict(rs, ValueKey);
    JoinOrdered(Sort(ls, ValueKey), Sort(rs, ValueKey), ValueKey);
    PairDiffsOrdered(Joined(ls, rs, ValueKey));
  }

  lemma HeadLeast(ds: seq<ValueDiff>, d: ValueDiff)
    requires ByName(ds) && d in ds
    ensures d == ds[0] || Less(Upper(ds[0].name), Upper(d.name))
  {
  }

  lemma TailWithout(ds: seq<ValueDiff>, d: ValueDiff)
    requires ByName(ds) && ds != []
    ensures ByName(ds[1..]) && (d in ds[1..] <==> d in ds && d != ds[0])
  {
    if d in ds[1..] {
      var i :| 0 <= i < |ds[1..]| && ds[1..][i] == d;
      assert ds[i + 1] == d;
      LessIrreflexive(Upper(d.name));
    }
  }

  lemma SameElementsEmpty(ds: seq<ValueDiff>, fs: seq<ValueDiff>)
    requires forall d :: d in ds <==> d in fs
    ensures ds == [] <==> fs == []
  {
    if ds != [] {
      assert ds[0] in fs;
    }
    if fs != [] {
      assert fs[0] in ds;
    }
  }

  lemma {:induction false} DetailsOnce(ds: seq<ValueDiff>, fs: seq<ValueDiff>)
    requires ByName(ds) && ByName(fs) && forall d :: d in ds <==> d in fs
    ensures ds == fs
  {
    SameElementsEmpty(ds, fs);
    if ds != [] {
      assert ds[0] in fs && fs[0] in ds;
      HeadLeast(fs, ds[0]);
      HeadLeast(ds, fs[0]);
      if ds[0] != fs[0] {
        LessAsymmetric(Upper(ds[0].name), Upper(fs[0].name));
      }
      forall d ensures d in ds[1..] <==> d in fs[1..] {
        TailWithout(ds, d);
        TailWithout(fs, d);
      }
      TailWithout(ds, ds[0]);
      TailWithout(fs, fs[0]);
      DetailsOnce(ds[1..], fs[1..]);
    }
  }

  lemma ModifiedExact<K>(l: Tree<K>, r: Tree<K>, path: Path, e: Entry<Path>)
    requires BothReadable(l, r) && DistinctNames(l) && DistinctNames(r)
    ensures e in Modified(path, ValueDiffs(l.values.value, r.values.value)) <==> Changes(l, r, path, e)
  {
    var ds := ValueDiffs(l.values.value, r.values.value);
    ValueDiffsDetails(l.values.value, r.values.value);
    if Changes(l, r, path, e) {
      DetailsOnce(e.details, ds);
    }
  }

  /** What a diff must report: the differences here, and those below corresponding subkeys. */
  ghost predicate Reports<K(!new)>(l: Tree<K>, r: Tree<K>, path: Path, e: Entry<Path>)
    requires BothReadable(l, r)
    decreases l
  {
    || Changes(l, r, path, e)
    || OneSided(l, r, path, e)
    || exists a, b :: Corresponding(l, r, a, b) && BothReadable(a, b) && Reports(a, b, path + [a.name], e)
  }

  lemma {:induction false} InPairsDiff<K(!new)>(ps: seq<Pairing<Tree<K>>>, path: Path)
    requires PairsDiff(ps, path).Ok?
    ensures forall p | p in ps :: KeyPairDiff(p, path).Ok?
    ensures forall e :: e in PairsDiff(ps, path).value <==> exists p :: p in ps && e in KeyPairDiff(p, path).value
  {
    if ps != [] {
      InPairsDiff(ps[1..], path);
      assert ps == [ps[0]] + ps[1..];
      var first, rest := KeyPairDiff(ps[0], path).value, PairsDiff(ps[1..], path).value;
      forall e | e in first + rest ensures exists p :: p in ps && e in KeyPairDiff(p, path).value {
        if e in first {
          assert ps[0] in ps;
        } else {
          var p :| p in ps[1..] && e in KeyPairDiff(p, path).value;
          assert p in ps;
        }
      }
      forall p, e | p in ps && e in KeyPairDiff(p, path).value ensures e in first + rest {
        if p != ps[0] {
          assert p in ps[1..];
        }
      }
    }
  }

  /** The pairings a join produced are those of the siblings. */
  ghost predicate PairsUp<K(!new)>(ps: seq<Pairing<Tree<K>>>, l: Tree<K>, r: Tree<K>)
    requires BothReadable(l, r)
  {
    forall p :: p in ps <==> Pairs(l.kids, r.kids, TreeKey, p)
  }

  lemma KidPairsUp<K(!new)>(l: Tree<K>, r: Tree<K>)
    requires BothReadable(l, r) && DistinctNames(l) && DistinctNames(r)
    ensures PairsUp(KidPairs(l.kids, r.kids), l, r)
  {
    TreesApart(l.kids);
    TreesApart(r.kids);
    forall p ensures p in KidPairs(l.kids, r.kids) <==> Pairs(l.kids, r.kids, TreeKey, p) {
      JoinedExact(l.kids, r.kids, TreeKey, p);
    }
  }

  /** Corresponding children are compared, so their diff succeeded. */
  lemma Recurses<K(!new)>(ps: seq<Pairing<Tree<K>>>, l: Tree<K>, r: Tree<K>, path: Path)
    requires BothReadable(l, r) && DistinctNames(l) && DistinctNames(r) && PairsUp(ps, l, r) && PairsDiff(ps, path).Ok?
    ensures forall a, b | Corresponding(l, r, a, b) ::
              DistinctNames(a) && DistinctNames(b) && TreeDiff(a, b, path + [a.name]).Ok?
  {
    InPairsDiff(ps, path);
    forall a, b | Corresponding(l, r, a, b) ensures TreeDiff(a, b, path + [a.name]).Ok? {
      FoldedEqual(a.name, b.name);
      assert Both(a, b) in ps;
      assert KeyPairDiff(Both(a, b), path) == TreeDiff(a, b, path + [a.name]);
    }
  }

  lemma OneSidedPair<K(!new)>(ps: seq<Pairing<Tree<K>>>, l: Tree<K>, r: Tree<K>, path: Path, e: Entry<Path>)
    requires BothReadable(l, r) && PairsUp(ps, l, r)
    ensures OneSided(l, r, path, e) <==> exists p :: p in ps && !p.Both? && KeyPairDiff(p, path) == Ok([e])
  {
    if OneSided(l, r, path, e) {
      if e.kind == KeyRemoved {
        var a :| a in l.kids && NoTreeNamed(r.kids, a.name) && e.path == path + [a.name];
        TreeLacked(r.kids, a);
        assert OnlyLeft(a) in ps && KeyPairDiff(OnlyLeft(a), path) == Ok([e]);
      } else {
        var b :| b in r.kids && NoTreeNamed(l.kids, b.name) && e.path == path + [b.name];
        TreeLacked(l.kids, b);
        assert OnlyRight(b) in ps && KeyPairDiff(OnlyRight(b), path) == Ok([e]);
      }
    }
    if p :| p in ps && !p.Both? && KeyPairDiff(p, path) == Ok([e]) {
      OneSidedFrom(l, r, p, path, e);
    }
  }

  lemma OneSidedFrom<K(!new)>(l: Tree<K>, r: Tree<K>, p: Pairing<Tree<K>>, path: Path, e: Entry<Path>)
    requires BothReadable(l, r) && Pairs(l.kids, r.kids, TreeKey, p) && !p.Both? && KeyPairDiff(p, path) == Ok([e])
    ensures OneSided(l, r, path, e)
  {
    assert [e][0] == KeyPairDiff(p, path).value[0];
    if p.OnlyLeft? {
      TreeLacked(r.kids, p.left);
    } else {
      TreeLacked(l.kids, p.right);
    }
  }

  lemma OneLevel<K(!new)>(ps: seq<Pairing<Tree<K>>>, l: Tree<K>, r: Tree<K>, path: Path, below: seq<Entry<Path>>,
                   e: Entry<Path>)
    requires BothReadable(l, r) && PairsUp(ps, l, r) && PairsDiff(ps, path) == Ok(below)
    requires forall a, b | Corresponding(l, r, a, b) :: TreeDiff(a, b, path + [a.name]).Ok?
    ensures e in below <==>
              || OneSided(l, r, path, e)
              || exists a, b :: Corresponding(l, r, a, b) && e in TreeDiff(a, b, path + [a.name]).value
  {
    InPairsDiff(ps, path);
    OneSidedPair(ps, l, r, path, e);
    if e in below {
      var p :| p in ps && e in KeyPairDiff(p, path).value;
      if p.Both? {
        FoldedEqual(p.left.name, p.right.name);
        assert Corresponding(l, r, p.left, p.right) && e in TreeDiff(p.left, p.right, path + [p.left.name]).value;
      } else {
        assert KeyPairDiff(p, path) == Ok([e]);
      }
    }
    if exists a, b :: Corresponding(l, r, a, b) && e in TreeDiff(a, b, path + [a.name]).value {
      var a, b :| Corresponding(l, r, a, b) && e in TreeDiff(a, b, path + [a.name]).value;
      FoldedEqual(a.name, b.name);
      assert Both(a, b) in ps && e in KeyPairDiff(Both(a, b), path).value;
    }
  }

  /** The diff reports exactly the differences. */
  lemma {:induction false} DiffExact<K(!new)>(l: Tree<K>, r: Tree<K>, path: Path, es: seq<Entry<Path>>, e: Entry<Path>)
    requires DistinctNames(l) && DistinctNames(r) && TreeDiff(l, r, path) == Ok(es)
    ensures BothReadable(l, r) && (e in es <==> Reports(l, r, path, e))
    decreases l
  {
    var ps, first, below := DiffParts(l, r, path, es);
    KidPairsUp(l, r);
    Recurses(ps, l, r, path);
    OneLevel(ps, l, r, path, below, e);
    forall a, b | Corresponding(l, r, a, b)
      ensures BothReadable(a, b) && (e in TreeDiff(a, b, path + [a.name]).value <==> Reports(a, b, path + [a.name], e))
    {
      DiffExact(a, b, path + [a.name], TreeDiff(a, b, path + [a.name]).value, e);
    }
    ModifiedExact(l, r, path, e);
    assert e in es <==> e in first || e in below;
  }

  // ----- no entries, exactly for equivalent trees -----

  ghost predicate HasEqual(rs: seq<ValueData>, a: ValueData) {
    exists b :: b in rs && EqualFold(b.name, a.name) && SameContent(a, b)
  }

  /** The same names up to case, with the same types and data. */
  ghost predicate ValuesAgree(ls: seq<ValueData>, rs: seq<ValueData>) {
    && (forall a | a in ls :: HasEqual(rs, a))
    && (forall b | b in rs :: !NoValueNamed(ls, b.name))
  }

  /** Equal up to the case of names, the order of siblings, and the names of the two roots. */
  ghost predicate Equivalent<K(!new)>(l: Tree<K>, r: Tree<K>)
    decreases l
  {
    && BothReadable(l, r)
    && ValuesAgree(l.values.value, r.values.value)
    && (forall a | a in l.kids :: exists b :: Corresponding(l, r, a, b) && Equivalent(a, b))
    && (forall b | b in r.kids :: !NoTreeNamed(l.kids, b.name))
  }

  lemma NoneDiffer(ls: seq<ValueData>, rs: seq<ValueData>)
    requires DistinctValues(ls) && DistinctValues(rs)
    ensures ValueDiffs(ls, rs) == [] <==> forall d :: !ValueDiffers(ls, rs, d)
  {
    forall d ensures d in ValueDiffs(ls, rs) <==> ValueDiffers(ls, rs, d) {
      ValueDiffsExact(ls, rs, d);
    }
    if ValueDiffs(ls, rs) != [] {
      assert ValueDiffs(ls, rs)[0] in ValueDiffs(ls, rs);
    }
  }

  lemma SnapshotCarries(v: ValueData)
    ensures Carries(SnapshotOf(v), v)
  {
    CarriesExact(SnapshotOf(v), v);
  }

  lemma FoldSymmetric(a: string, b: string)
    requires EqualFold(a, b)
    ensures EqualFold(b, a)
  {
  }

  lemma NoneDifferAgree(ls: seq<ValueData>, rs: seq<ValueData>)
    requires forall d :: !ValueDiffers(ls, rs, d)
    ensures ValuesAgree(ls, rs)
  {
    forall a | a in ls ensures HasEqual(rs, a) {
      SnapshotCarries(a);
      assert !ValueDiffers(ls, rs, ValueDiff(a.name, Removed(SnapshotOf(a))));
      var b :| b in rs && EqualFold(b.name, a.name);
      SnapshotCarries(b);
      FoldSymmetric(b.name, a.name);
      assert !ValueDiffers(ls, rs, ValueDiff(a.name, Changed(SnapshotOf(a), SnapshotOf(b))));
    }
    forall b | b in rs ensures !NoValueNamed(ls, b.name) {
      SnapshotCarries(b);
      assert !ValueDiffers(ls, rs, ValueDiff(b.name, Added(SnapshotOf(b))));
    }
  }

  lemma OneNamed(vs: seq<ValueData>, n: string, b: ValueData, c: ValueData)
    requires DistinctValues(vs) && b in vs && c in vs && EqualFold(n, b.name) && EqualFold(c.name, n)
    ensures b == c
  {
    FoldedEqual(n, b.name);
    FoldedEqual(c.name, n);
    ValuesApart(vs);
    SameWhenSameKey(vs, ValueKey, b, c);
  }

  lemma DifferenceSeen(ls: seq<ValueData>, rs: seq<ValueData>, d: ValueDiff)
    requires DistinctValues(rs) && ValueDiffers(ls, rs, d)
    ensures !ValuesAgree(ls, rs)
  {
    match d.kind {
      case Changed(x, y) =>
        var a, b :| a in ls && b in rs && EqualFold(a.name, b.name) && !SameContent(a, b) && Carries(x, a)
          && Carries(y, b) && d.name == a.name;
        forall c | c in rs && EqualFold(c.name, a.name) ensures !SameContent(a, c) {
          OneNamed(rs, a.name, b, c);
        }
        assert !HasEqual(rs, a);
      case Removed(x) =>
        var a :| a in ls && NoValueNamed(rs, a.name) && Carries(x, a) && d.name == a.name;
        assert !HasEqual(rs, a);
      case Added(y) =>
    }
  }

  lemma NoValueDiffs(ls: seq<ValueData>, rs: seq<ValueData>)
    requires DistinctValues(ls) && DistinctValues(rs)
    ensures ValueDiffs(ls, rs) == [] <==> ValuesAgree(ls, rs)
  {
    NoneDiffer(ls, rs);
    if ValueDiffs(ls, rs) == [] {
      NoneDifferAgree(ls, rs);
    } else {
      var d :| ValueDiffers(ls, rs, d);
      DifferenceSeen(ls, rs, d);
    }
  }

  lemma {:induction false} AllPairsEmpty<K>(ps: seq<Pairing<Tree<K>>>, path: Path)
    requires forall p | p in ps :: KeyPairDiff(p, path) == Ok([])
    ensures PairsDiff(ps, path) == Ok([])
  {
    if ps != [] {
      assert ps == [ps[0]] + ps[1..];
      AllPairsEmpty(ps[1..], path);
      var none: seq<Entry<Path>> := [];
      assert KeyPairDiff(ps[0], path) == Ok(none) && none + none == none;
    }
  }

  lemma DiffOfEqual<K>(l: Tree<K>, r: Tree<K>, path: Path)
    requires BothReadable(l, r) && ValueDiffs(l.values.value, r.values.value) == []
    requires forall p | p in Joined(l.kids, r.kids, TreeKey) :: KeyPairDiff(p, path) == Ok([])
    ensures TreeDiff(l, r, path) == Ok([])
  {
    AllPairsEmpty(KidPairs(l.kids, r.kids), path);
    var none: seq<Entry<Path>> := [];
    assert none + none == none;
  }

  lemma NoneOnlyRight<K>(ls: seq<Tree<K>>, rs: seq<Tree<K>>, p: Pairing<Tree<K>>)
    requires Pairs(ls, rs, TreeKey, p) && forall b | b in rs :: !NoTreeNamed(ls, b.name)
    ensures !p.OnlyRight?
  {
    if p.OnlyRight? {
      TreeLacked(ls, p.right);
    }
  }

  lemma OneCounterpart<K>(ls: seq<Tree<K>>, rs: seq<Tree<K>>, p: Pairing<Tree<K>>, b: Tree<K>)
    requires DistinctTrees(rs) && Pairs(ls, rs, TreeKey, p)
    requires !p.OnlyRight? && b in rs && EqualFold(p.left.name, b.name)
    ensures p == Both(p.left, b)
  {
    FoldedEqual(p.left.name, b.name);
    if p.Both? {
      TreesApart(rs);
      SameWhenSameKey(rs, TreeKey, p.right, b);
    }
  }

  lemma Counterpart<K(!new)>(l: Tree<K>, r: Tree<K>, a: Tree<K>) returns (b: Tree<K>)
    requires BothReadable(l, r) && Equivalent(l, r) && a in l.kids
    ensures b in r.kids && EqualFold(a.name, b.name) && Equivalent(a, b)
  {
    b :| Corresponding(l, r, a, b) && Equivalent(a, b);
  }

  lemma {:induction false} EquivalentEmpty<K(!new)>(l: Tree<K>, r: Tree<K>, path: Path)
    requires DistinctNames(l) && DistinctNames(r) && Equivalent(l, r)
    ensures TreeDiff(l, r, path) == Ok([])
    decreases l
  {
    NoValueDiffs(l.values.value, r.values.value);
    TreesApart(l.kids);
    TreesApart(r.kids);
    forall p | p in Joined(l.kids, r.kids, TreeKey) ensures KeyPairDiff(p, path) == Ok([]) {
      JoinedExact(l.kids, r.kids, TreeKey, p);
      NoneOnlyRight(l.kids, r.kids, p);
      var b := Counterpart(l, r, p.left);
      OneCounterpart(l.kids, r.kids, p, b);
      EquivalentEmpty(p.left, b, path + [p.left.name]);
    }
    DiffOfEqual(l, r, path);
  }

  /** An empty diff reports no one-sided key, and is empty below all corresponding subkeys. */
  lemma EmptyBelow<K(!new)>(ps: seq<Pairing<Tree<K>>>, l: Tree<K>, r: Tree<K>, path: Path)
    requires BothReadable(l, r) && DistinctNames(l) && DistinctNames(r) && PairsUp(ps, l, r)
             && PairsDiff(ps, path) == Ok([])
    ensures forall e :: !OneSided(l, r, path, e)
    ensures forall a, b | Corresponding(l, r, a, b) ::
              DistinctNames(a) && DistinctNames(b) && TreeDiff(a, b, path + [a.name]) == Ok([])
  {
    Recurses(ps, l, r, path);
    forall e ensures !OneSided(l, r, path, e) {
      OneLevel(ps, l, r, path, [], e);
    }
    forall a, b | Corresponding(l, r, a, b) ensures TreeDiff(a, b, path + [a.name]) == Ok([]) {
      var es := TreeDiff(a, b, path + [a.name]).value;
      if es != [] {
        assert es[0] in es;
        OneLevel(ps, l, r, path, [], es[0]);
      }
    }
  }

  lemma {:induction false} EmptyEquivalent<K(!new)>(l: Tree<K>, r: Tree<K>, path: Path)
    requires DistinctNames(l) && DistinctNames(r) && TreeDiff(l, r, path) == Ok([])
    ensures Equivalent(l, r)
    decreases l
  {
    var ps, first, below := DiffParts(l, r, path, []);
    KidPairsUp(l, r);
    EmptyBelow(ps, l, r, path);
    NoValueDiffs(l.values.value, r.values.value);
    assert first == [];
    forall a | a in l.kids ensures exists b :: Corresponding(l, r, a, b) && Equivalent(a, b) {
      assert !OneSided(l, r, path, Entry(path + [a.name], KeyRemoved, []));
      var b :| b in r.kids && EqualFold(b.name, a.name);
      FoldSymmetric(b.name, a.name);
      assert Corresponding(l, r, a, b);
      EmptyEquivalent(a, b, path + [a.name]);
    }
    forall b | b in r.kids ensures !NoTreeNamed(l.kids, b.name) {
      assert !OneSided(l, r, path, Entry(path + [b.name], KeyAdded, []));
    }
  }

  /** Two trees whose siblings have distinct names have an empty diff iff they are equivalent. */
  lemma EmptyIffEquivalent<K(!new)>(l: Tree<K>, r: Tree<K>, path: Path)
    requires DistinctNames(l) && DistinctNames(r)
    ensures TreeDiff(l, r, path) == Ok([]) <==> Equivalent(l, r)
  {
    if TreeDiff(l, r, path) == Ok([]) {
      EmptyEquivalent(l, r, path);
    }
    if Equivalent(l, r) {
      EquivalentEmpty(l, r, path);
    }
  }
}
