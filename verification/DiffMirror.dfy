/** Swapping the two sides of a diff, and the balance of its entries. */
module DiffMirror {
  import opened Wrappers
  import opened Text
  import opened KeyGraphs
  import opened MergeJoin
  import opened Diff

  // ----- mirrored entries -----

  predicate SamePath(p: Path, q: Path) {
    |p| == |q| && forall i | 0 <= i < |p| :: Upper(p[i]) == Upper(q[i])
  }

  function MirrorValue(c: ValueChange): ValueChange {
    match c
    case Added(v) => Removed(v)
    case Removed(v) => Added(v)
    case Changed(l, r) => Changed(r, l)
  }

  function MirrorKey(k: KeyChange): KeyChange {
    match k
    case KeyAdded => KeyRemoved
    case KeyRemoved => KeyAdded
    case KeyModified => KeyModified
  }

  predicate MirrorDetail(d: ValueDiff, f: ValueDiff) {
    Upper(d.name) == Upper(f.name) && f.kind == MirrorValue(d.kind)
  }

  predicate MirrorDetails(ds: seq<ValueDiff>, fs: seq<ValueDiff>) {
    |ds| == |fs| && forall i | 0 <= i < |ds| :: MirrorDetail(ds[i], fs[i])
  }

  predicate MirrorEntry(e: Entry<Path>, f: Entry<Path>) {
    SamePath(e.path, f.path) && f.kind == MirrorKey(e.kind) && MirrorDetails(e.details, f.details)
  }

  /** Position by position the same change, seen from the other side. */
  predicate MirrorEntries(es: seq<Entry<Path>>, fs: seq<Entry<Path>>) {
    |es| == |fs| && forall i | 0 <= i < |es| :: MirrorEntry(es[i], fs[i])
  }

  /** Both fail, or both succeed with mirrored entries. */
  predicate MirrorResult(a: Result<seq<Entry<Path>>>, b: Result<seq<Entry<Path>>>) {
    (a.Err? && b.Err?) || (a.Ok? && b.Ok? && MirrorEntries(a.value, b.value))
  }

  lemma MirrorAppend(a: seq<Entry<Path>>, b: seq<Entry<Path>>, c: seq<Entry<Path>>, d: seq<Entry<Path>>)
    requires MirrorEntries(a, c) && MirrorEntries(b, d)
    ensures MirrorEntries(a + b, c + d)
  {
  }

  lemma DetailsAppend(a: seq<ValueDiff>, b: seq<ValueDiff>, c: seq<ValueDiff>, d: seq<ValueDiff>)
    requires MirrorDetails(a, c) && MirrorDetails(b, d)
    ensures MirrorDetails(a + b, c + d)
  {
  }

  lemma ExtendSame(p: Path, q: Path, a: string, b: string)
    requires SamePath(p, q) && Upper(a) == Upper(b)
    ensures SamePath(p + [a], q + [b])
  {
  }

  // ----- values -----

  /** Both elements of a pairing have one key. */
  ghost predicate Matched<T>(p: Pairing<T>, key: T -> string) {
    p.Both? ==> key(p.left) == key(p.right)
  }

  ghost predicate AllMatched<T>(ps: seq<Pairing<T>>, key: T -> string) {
    forall p | p in ps :: Matched(p, key)
  }

  lemma JoinMatched<T>(ls: seq<T>, rs: seq<T>, key: T -> string)
    ensures AllMatched(JoinSorted(ls, rs, key), key)
  {
    JoinElements(ls, rs, key);
    forall p | p in JoinSorted(ls, rs, key) ensures Matched(p, key) {
      assert FromLists(p, ls, rs, key);
    }
  }

  lemma {:induction false} PairDiffsMirror(ps: seq<Pairing<ValueData>>)
    requires AllMatched(ps, ValueKey)
    ensures MirrorDetails(PairDiffs(ps), PairDiffs(FlipAll(ps)))
  {
    if ps != [] {
      assert ps == [ps[0]] + ps[1..];
      assert Matched(ps[0], ValueKey);
      PairDiffsMirror(ps[1..]);
      FlipCons(ps[0], ps[1..]);
      PairDiffsFirst(ps[0].Flip(), FlipAll(ps[1..]));
      DetailsAppend(PairDiff(ps[0]), PairDiffs(ps[1..]), PairDiff(ps[0].Flip()), PairDiffs(FlipAll(ps[1..])));
    }
  }

  lemma ValueDiffsMirror(ls: seq<ValueData>, rs: seq<ValueData>)
    ensures MirrorDetails(ValueDiffs(ls, rs), ValueDiffs(rs, ls))
  {
    var sl, sr := Sort(ls, ValueKey), Sort(rs, ValueKey);
    JoinMatched(sl, sr, ValueKey);
    JoinMirrors(sl, sr, ValueKey);
    PairDiffsMirror(JoinSorted(sl, sr, ValueKey));
  }

  // ----- keys -----

  ghost predicate PairMirrors<K>(p: Pairing<Tree<K>>, path: Path, other: Path) {
    MirrorResult(KeyPairDiff(p, path), KeyPairDiff(p.Flip(), other))
  }

  lemma {:induction false} PairsMirror<K>(ps: seq<Pairing<Tree<K>>>, path: Path, other: Path)
    requires forall p | p in ps :: PairMirrors(p, path, other)
    ensures MirrorResult(PairsDiff(ps, path), PairsDiff(FlipAll(ps), other))
  {
    if ps != [] {
      assert ps == [ps[0]] + ps[1..];
      PairsMirror(ps[1..], path, other);
      FlipCons(ps[0], ps[1..]);
      assert FlipAll(ps)[1..] == FlipAll(ps[1..]);
      assert PairMirrors(ps[0], path, other);
    }
  }

  lemma OneSidedMirrors<K>(p: Pairing<Tree<K>>, path: Path, other: Path)
    requires SamePath(path, other) && !p.Both?
    ensures PairMirrors(p, path, other)
  {
    var name := if p.OnlyLeft? then p.left.name else p.right.name;
    ExtendSame(path, other, name, name);
  }

  /** Swapping the hives mirrors the diff: the same entries position by position, up to the case of
      matched names, with added and removed exchanged and the sides of changes swapped. */
  lemma {:induction false} DiffMirrors<K>(l: Tree<K>, r: Tree<K>, path: Path, other: Path)
    requires SamePath(path, other)
    ensures MirrorResult(TreeDiff(l, r, path), TreeDiff(r, l, other))
    decreases l
  {
    if l.Node? && r.Node? && l.values.Ok? && r.values.Ok? {
      var ps := KidPairs(l.kids, r.kids);
      JoinMirrors(Sort(l.kids, TreeKey), Sort(r.kids, TreeKey), TreeKey);
      JoinElements(Sort(l.kids, TreeKey), Sort(r.kids, TreeKey), TreeKey);
      SortElements(l.kids, TreeKey);
      forall p | p in ps ensures PairMirrors(p, path, other) {
        if p.Both? {
          assert FromLists(p, Sort(l.kids, TreeKey), Sort(r.kids, TreeKey), TreeKey) && p.left in l.kids;
          ExtendSame(path, other, p.left.name, p.right.name);
          DiffMirrors(p.left, p.right, path + [p.left.name], other + [p.right.name]);
        } else {
          OneSidedMirrors(p, path, other);
        }
      }
      PairsMirror(ps, path, other);
      ValueDiffsMirror(l.values.value, r.values.value);
      NodeMirrors(l, r, path, other);
    }
  }

  lemma NodeMirrors<K>(l: Tree<K>, r: Tree<K>, path: Path, other: Path)
    requires SamePath(path, other) && l.Node? && r.Node? && l.values.Ok? && r.values.Ok?
    requires MirrorResult(PairsDiff(KidPairs(l.kids, r.kids), path), PairsDiff(KidPairs(r.kids, l.kids), other))
    requires MirrorDetails(ValueDiffs(l.values.value, r.values.value), ValueDiffs(r.values.value, l.values.value))
    ensures MirrorResult(TreeDiff(l, r, path), TreeDiff(r, l, other))
  {
    var a, c := Modified(path, ValueDiffs(l.values.value, r.values.value)),
      Modified(other, ValueDiffs(r.values.value, l.values.value));
    assert MirrorEntries(a, c);
    var b, d := PairsDiff(KidPairs(l.kids, r.kids), path), PairsDiff(KidPairs(r.kids, l.kids), other);
    if b.Ok? {
      MirrorAppend(a, b.value, c, d.value);
    }
  }

  // ----- statistics -----

  function MirrorStats(s: Stats): Stats {
    Stats(s.keysRemoved, s.keysAdded, s.keysModified, s.valuesRemoved, s.valuesAdded, s.valuesChanged)
  }

  lemma {:induction false} CountValuesMirror(ds: seq<ValueDiff>, fs: seq<ValueDiff>, s: Stats)
    requires MirrorDetails(ds, fs)
    ensures CountValues(fs, MirrorStats(s)) == MirrorStats(CountValues(ds, s))
  {
    if ds != [] {
      var n := |ds| - 1;
      assert MirrorDetail(ds[n], fs[n]);
      CountValuesMirror(ds[..n], fs[..n], s);
    }
  }

  /** Mirrored entries have mirrored statistics. */
  lemma {:induction false} StatsMirror(es: seq<Entry<Path>>, fs: seq<Entry<Path>>, s: Stats)
    requires MirrorEntries(es, fs)
    ensures CountAll(fs, MirrorStats(s)) == MirrorStats(CountAll(es, s))
  {
    if es != [] {
      var n := |es| - 1;
      assert MirrorEntry(es[n], fs[n]);
      StatsMirror(es[..n], fs[..n], s);
      CountValuesMirror(es[n].details, fs[n].details, CountAll(es[..n], s));
    }
  }

  function Tally<T>(s: seq<T>, p: T -> bool): nat {
    if s == [] then 0 else Tally(s[..|s| - 1], p) + if p(s[|s| - 1]) then 1 else 0
  }

  /** The number of such details over all entries for modified keys. */
  function TallyDetails<P>(es: seq<Entry<P>>, p: ValueDiff -> bool): nat {
    if es == [] then 0
    else TallyDetails(es[..|es| - 1], p) + if es[|es| - 1].kind == KeyModified then Tally(es[|es| - 1].details, p)
         else 0
  }

  lemma {:induction false} ValuesTallied(ds: seq<ValueDiff>, s: Stats)
    ensures var t := CountValues(ds, s);
            && t.valuesAdded == s.valuesAdded + Tally(ds, (d: ValueDiff) => d.kind.Added?)
            && t.valuesRemoved == s.valuesRemoved + Tally(ds, (d: ValueDiff) => d.kind.Removed?)
            && t.valuesChanged == s.valuesChanged + Tally(ds, (d: ValueDiff) => d.kind.Changed?)
            && t.keysAdded == s.keysAdded && t.keysRemoved == s.keysRemoved && t.keysModified == s.keysModified
  {
    if ds != [] {
      ValuesTallied(ds[..|ds| - 1], s);
    }
  }

  /** Each statistic is the number of entries, or of details, of its kind. */
  lemma {:induction false} StatsTally<P>(es: seq<Entry<P>>)
    ensures var t := CountAll(es, NO_CHANGES);
            && t.keysAdded == Tally(es, (e: Entry<P>) => e.kind == KeyAdded)
            && t.keysRemoved == Tally(es, (e: Entry<P>) => e.kind == KeyRemoved)
            && t.keysModified == Tally(es, (e: Entry<P>) => e.kind == KeyModified)
            && t.valuesAdded == TallyDetails(es, (d: ValueDiff) => d.kind.Added?)
            && t.valuesRemoved == TallyDetails(es, (d: ValueDiff) => d.kind.Removed?)
            && t.valuesChanged == TallyDetails(es, (d: ValueDiff) => d.kind.Changed?)
  {
    if es != [] {
      StatsTally(es[..|es| - 1]);
      ValuesTallied(es[|es| - 1].details, CountAll(es[..|es| - 1], NO_CHANGES));
    }
  }

  // ----- conservation -----

  /** The entries of one kind for paths of one length. */
  function CountAt(es: seq<Entry<Path>>, depth: nat, kind: KeyChange): nat {
    if es == [] then 0
    else (if |es[0].path| == depth && es[0].kind == kind then 1 else 0) + CountAt(es[1..], depth, kind)
  }

  function CountBoth<T>(ps: seq<Pairing<T>>): nat {
    if ps == [] then 0 else (if ps[0].Both? then 1 else 0) + CountBoth(ps[1..])
  }

  lemma {:induction false} CountAtAppend(a: seq<Entry<Path>>, b: seq<Entry<Path>>, depth: nat, kind: KeyChange)
    ensures CountAt(a + b, depth, kind) == CountAt(a, depth, kind) + CountAt(b, depth, kind)
  {
    if a == [] {
      assert a + b == b;
    } else {
      assert (a + b)[1..] == a[1..] + b;
      CountAtAppend(a[1..], b, depth, kind);
    }
  }

  lemma {:induction false} CountAtNone(es: seq<Entry<Path>>, depth: nat, kind: KeyChange)
    requires forall e | e in es :: |e.path| != depth || e.kind != kind
    ensures CountAt(es, depth, kind) == 0
  {
    if es != [] {
      assert es[0] in es;
      CountAtNone(es[1..], depth, kind);
    }
  }

  /** A key missing on one side is reported only below the compared keys. */
  ghost predicate Deeper(es: seq<Entry<Path>>, depth: nat) {
    forall e | e in es :: |e.path| >= depth && (e.kind != KeyModified ==> |e.path| > depth)
  }

  lemma {:induction false} PairsDeeper<K>(ps: seq<Pairing<Tree<K>>>, path: Path)
    requires PairsDiff(ps, path).Ok?
    ensures Deeper(PairsDiff(ps, path).value, |path|)
    decreases PairSizes(ps), |ps| + 1
  {
    if ps != [] {
      if ps[0].Both? {
        TreeDeeper(ps[0].left, ps[0].right, path + [ps[0].left.name]);
      }
      PairsDeeper(ps[1..], path);
    }
  }

  lemma {:induction false} TreeDeeper<K>(l: Tree<K>, r: Tree<K>, path: Path)
    requires TreeDiff(l, r, path).Ok?
    ensures Deeper(TreeDiff(l, r, path).value, |path|)
    decreases Size(l) + Size(r), 0
  {
    var ps, first, below := DiffParts(l, r, path, TreeDiff(l, r, path).value);
    PairsDeeper(ps, path);
    DeeperAppend(first, below, |path|);
  }

  lemma DeeperAppend(a: seq<Entry<Path>>, b: seq<Entry<Path>>, depth: nat)
    requires Deeper(a, depth) && Deeper(b, depth)
    ensures Deeper(a + b, depth)
  {
  }

  lemma {:induction false} PairsBalance<K>(ps: seq<Pairing<Tree<K>>>, path: Path)
    requires PairsDiff(ps, path).Ok?
    ensures |LeftsOf(ps)| == CountBoth(ps) + CountAt(PairsDiff(ps, path).value, |path| + 1, KeyRemoved)
    ensures |RightsOf(ps)| == CountBoth(ps) + CountAt(PairsDiff(ps, path).value, |path| + 1, KeyAdded)
  {
    if ps != [] {
      var first, rest := KeyPairDiff(ps[0], path).value, PairsDiff(ps[1..], path).value;
      PairsBalance(ps[1..], path);
      CountAtAppend(first, rest, |path| + 1, KeyRemoved);
      CountAtAppend(first, rest, |path| + 1, KeyAdded);
      if ps[0].Both? {
        TreeDeeper(ps[0].left, ps[0].right, path + [ps[0].left.name]);
        CountAtNone(first, |path| + 1, KeyRemoved);
        CountAtNone(first, |path| + 1, KeyAdded);
      }
    }
  }

  /** Conservation: at two corresponding keys, left children are matched or removed and right children
      are matched or added. */
  lemma ChildrenBalance<K>(l: Tree<K>, r: Tree<K>, path: Path)
    requires TreeDiff(l, r, path).Ok?
    ensures l.Node? && r.Node?
    ensures var es, matched := TreeDiff(l, r, path).value, CountBoth(KidPairs(l.kids, r.kids));
            && |l.kids| == matched + CountAt(es, |path| + 1, KeyRemoved)
            && |r.kids| == matched + CountAt(es, |path| + 1, KeyAdded)
  {
    var ps, first, below := DiffParts(l, r, path, TreeDiff(l, r, path).value);
    JoinConserves(Sort(l.kids, TreeKey), Sort(r.kids, TreeKey), TreeKey);
    PairsBalance(ps, path);
    CountAtAppend(first, below, |path| + 1, KeyRemoved);
    CountAtAppend(first, below, |path| + 1, KeyAdded);
    CountAtNone(first, |path| + 1, KeyRemoved);
    CountAtNone(first, |path| + 1, KeyAdded);
  }
}
