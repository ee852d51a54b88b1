/** Comparing two key trees (`winreg-diff/src/engine.rs`). */
module Diff {
  import opened Wrappers
  import opened Bytes
  import opened Sequences
  import opened Text
  import opened Cells
  import opened KeyGraphs
  import opened MergeJoin

  /** A value as the diff records it; how it is displayed is not modelled. */
  datatype Snapshot = Snapshot(dataType: ValueType, raw: Buf)

  datatype ValueChange = Added(value: Snapshot) | Removed(value: Snapshot) | Changed(left: Snapshot, right: Snapshot)

  datatype ValueDiff = ValueDiff(name: string, kind: ValueChange)

  datatype KeyChange = KeyAdded | KeyRemoved | KeyModified

  /** An entry; `P` is the way its path is written: components or one string. */
  datatype Entry<P> = Entry(path: P, kind: KeyChange, details: seq<ValueDiff>)

  datatype Stats = Stats(keysAdded: nat, keysRemoved: nat, keysModified: nat,
                         valuesAdded: nat, valuesRemoved: nat, valuesChanged: nat)

  const NO_CHANGES := Stats(0, 0, 0, 0, 0, 0)

  function SnapshotOf(v: ValueData): Snapshot {
    Snapshot(v.dataType, v.raw.GetOr([]))
  }

  function ValueKey(v: ValueData): string { Upper(v.name) }

  function TreeKey<K>(t: Tree<K>): string { Upper(t.name) }

  // ----- what the diff of two trees is -----

  /** Values whose data cannot be read compare as empty. */
  function PairDiff(p: Pairing<ValueData>): seq<ValueDiff> {
    match p
    case Both(l, r) =>
      if SnapshotOf(l) == SnapshotOf(r) then [] else [ValueDiff(l.name, Changed(SnapshotOf(l), SnapshotOf(r)))]
    case OnlyLeft(l) => [ValueDiff(l.name, Removed(SnapshotOf(l)))]
    case OnlyRight(r) => [ValueDiff(r.name, Added(SnapshotOf(r)))]
  }

  function PairDiffs(ps: seq<Pairing<ValueData>>): seq<ValueDiff> {
    if ps == [] then [] else PairDiff(ps[0]) + PairDiffs(ps[1..])
  }

  function ValueDiffs(ls: seq<ValueData>, rs: seq<ValueData>): seq<ValueDiff> {
    PairDiffs(JoinSorted(Sort(ls, ValueKey), Sort(rs, ValueKey), ValueKey))
  }

  function PairSize<K>(p: Pairing<Tree<K>>): nat {
    match p
    case Both(l, r) => Size(l) + Size(r)
    case OnlyLeft(l) => Size(l)
    case OnlyRight(r) => Size(r)
  }

  function PairSizes<K>(ps: seq<Pairing<Tree<K>>>): nat {
    if ps == [] then 0 else PairSize(ps[0]) + PairSizes(ps[1..])
  }

  lemma {:induction false} InsertSize<K>(x: Tree<K>, s: seq<Tree<K>>)
    ensures SumSizes(Insert(x, s, TreeKey)) == Size(x) + SumSizes(s)
  {
    if s != [] && Less(TreeKey(s[0]), TreeKey(x)) {
      InsertSize(x, s[1..]);
    }
  }

  lemma {:induction false} SortSize<K>(s: seq<Tree<K>>)
    ensures SumSizes(Sort(s, TreeKey)) == SumSizes(s)
  {
    if s != [] {
      SortSize(s[1..]);
      InsertSize(s[0], Sort(s[1..], TreeKey));
    }
  }

  lemma {:induction false} JoinSize<K>(ls: seq<Tree<K>>, rs: seq<Tree<K>>)
    ensures PairSizes(JoinSorted(ls, rs, TreeKey)) == SumSizes(ls) + SumSizes(rs)
    decreases |ls| + |rs|
  {
    if ls == [] && rs == [] {
    } else if rs == [] || (ls != [] && Less(TreeKey(ls[0]), TreeKey(rs[0]))) {
      JoinSize(ls[1..], rs);
    } else if ls == [] || TreeKey(ls[0]) != TreeKey(rs[0]) {
      JoinSize(ls, rs[1..]);
    } else {
      JoinSize(ls[1..], rs[1..]);
    }
  }

  function KidPairs<K>(ls: seq<Tree<K>>, rs: seq<Tree<K>>): (ps: seq<Pairing<Tree<K>>>)
    ensures PairSizes(ps) == SumSizes(ls) + SumSizes(rs)
  {
    SortSize(ls);
    SortSize(rs);
    JoinSize(Sort(ls, TreeKey), Sort(rs, TreeKey));
    JoinSorted(Sort(ls, TreeKey), Sort(rs, TreeKey), TreeKey)
  }

  type Path = seq<string>

  function Modified(path: Path, vds: seq<ValueDiff>): seq<Entry<Path>> {
    if vds == [] then [] else [Entry(path, KeyModified, vds)]
  }

  /** The entries for two keys known to correspond, or the first error met while reading them. */
  function TreeDiff<K>(l: Tree<K>, r: Tree<K>, path: Path): Result<seq<Entry<Path>>>
    decreases Size(l) + Size(r), 0
  {
    var lvs :- l.values;
    var rvs :- r.values;
    if l.Broken? then Err(l.error)
    else if r.Broken? then Err(r.error)
    else
      var below :- PairsDiff(KidPairs(l.kids, r.kids), path);
      Ok(Modified(path, ValueDiffs(lvs, rvs)) + below)
  }

  ghost predicate BothReadable<K>(l: Tree<K>, r: Tree<K>) {
    l.Node? && r.Node? && l.values.Ok? && r.values.Ok?
  }

  /** A successful diff is the entry for the compared keys, if their values differ, and the entries below. */
  lemma DiffParts<K>(l: Tree<K>, r: Tree<K>, path: Path, es: seq<Entry<Path>>)
    returns (ps: seq<Pairing<Tree<K>>>, first: seq<Entry<Path>>, below: seq<Entry<Path>>)
    requires TreeDiff(l, r, path) == Ok(es)
    ensures BothReadable(l, r) && ps == KidPairs(l.kids, r.kids) && PairsDiff(ps, path) == Ok(below)
    ensures first == Modified(path, ValueDiffs(l.values.value, r.values.value)) && es == first + below
  {
    ps := KidPairs(l.kids, r.kids);
    first, below := Modified(path, ValueDiffs(l.values.value, r.values.value)), PairsDiff(ps, path).value;
  }

  function PairsDiff<K>(ps: seq<Pairing<Tree<K>>>, path: Path): Result<seq<Entry<Path>>>
    decreases PairSizes(ps), |ps| + 1
  {
    if ps == [] then Ok([])
    else
      var first :- KeyPairDiff(ps[0], path);
      var rest :- PairsDiff(ps[1..], path);
      Ok(first + rest)
  }

  function KeyPairDiff<K>(p: Pairing<Tree<K>>, path: Path): Result<seq<Entry<Path>>>
    decreases PairSize(p), 1
  {
    match p
    case Both(l, r) => TreeDiff(l, r, path + [l.name])
    case OnlyLeft(l) => Ok([Entry(path + [l.name], KeyRemoved, [])])
    case OnlyRight(r) => Ok([Entry(path + [r.name], KeyAdded, [])])
  }

  // ----- counting -----

  function CountValues(vds: seq<ValueDiff>, s: Stats): Stats {
    if vds == [] then s
    else
      var t := CountValues(vds[..|vds| - 1], s);
      match vds[|vds| - 1].kind
      case Added(_) => t.(valuesAdded := t.valuesAdded + 1)
      case Removed(_) => t.(valuesRemoved := t.valuesRemoved + 1)
      case Changed(_, _) => t.(valuesChanged := t.valuesChanged + 1)
  }

  function CountEntry<P>(e: Entry<P>, s: Stats): Stats {
    match e.kind
    case KeyAdded => s.(keysAdded := s.keysAdded + 1)
    case KeyRemoved => s.(keysRemoved := s.keysRemoved + 1)
    case KeyModified =>
      var t := CountValues(e.details, s);
      t.(keysModified := t.keysModified + 1)
  }

  /** The statistics after counting the entries in order. */
  function CountAll<P>(es: seq<Entry<P>>, s: Stats): Stats {
    if es == [] then s else CountEntry(es[|es| - 1], CountAll(es[..|es| - 1], s))
  }

  // ----- how paths are written -----

  function Written(path: Path): string {
    if path == [] then [] else Child(Written(path[..|path| - 1]), path[|path| - 1])
  }

  /** The root's own entry carries the root's name. */
  function WrittenEntry(rootName: string, e: Entry<Path>): Entry<string> {
    Entry(if e.path == [] then rootName else Written(e.path), e.kind, e.details)
  }

  function WrittenAll(rootName: string, es: seq<Entry<Path>>): (r: seq<Entry<string>>)
    ensures |r| == |es| && forall i | 0 <= i < |es| :: r[i] == WrittenEntry(rootName, es[i])
  {
    seq(|es|, i requires 0 <= i < |es| => WrittenEntry(rootName, es[i]))
  }

  lemma AllEmpty(names: seq<string>, d: nat)
    requires d <= |names| && (forall i | 0 <= i < d :: names[i] == []) && (d < |names| ==> names[d] != [])
             && Join(names[d..]) == []
    ensures d == |names|
  {
  }

  lemma FirstName(names: seq<string>, n: string)
    requires forall i | 0 <= i < |names| :: names[i] == []
    ensures PathOf(names + [n], n)
  {
    var all := names + [n];
    if n == [] {
      assert all[|all|..] == [];
    } else {
      assert all[|names|..] == [n];
    }
  }

  lemma LastName(names: seq<string>, d: nat, n: string)
    requires d < |names| && (forall i | 0 <= i < d :: names[i] == []) && names[d] != []
    ensures PathOf(names + [n], Join(names[d..]) + [SEP] + n)
  {
    var all := names + [n];
    JoinAppend(names[d..], n);
    assert all[d..] == names[d..] + [n];
  }

  lemma PathAppend(names: seq<string>, path: string, n: string)
    requires PathOf(names, path)
    ensures PathOf(names + [n], Child(path, n))
  {
    var d :| 0 <= d <= |names| && (forall i | 0 <= i < d :: names[i] == []) && (d < |names| ==> names[d] != [])
      && path == Join(names[d..]);
    if path == [] {
      AllEmpty(names, d);
      FirstName(names, n);
    } else {
      LastName(names, d, n);
    }
  }

  /** A path is written as its names, joined by separators, from the first that is not empty. */
  lemma {:induction false} WrittenExact(path: Path)
    ensures PathOf(path, Written(path))
  {
    if path == [] {
      assert path[0..] == path;
    } else {
      WrittenExact(path[..|path| - 1]);
      PathAppend(path[..|path| - 1], Written(path[..|path| - 1]), path[|path| - 1]);
      assert path == path[..|path| - 1] + [path[|path| - 1]];
    }
  }

  /** The entries with their paths written, that of the compared keys as the name of the root. */
  ghost predicate WrittenFrom(rootName: string, es: seq<Entry<Path>>, out: seq<Entry<string>>) {
    |out| == |es| && forall i | 0 <= i < |es| :: EntryWritten(rootName, es[i], out[i])
  }

  ghost predicate EntryWritten(rootName: string, e: Entry<Path>, w: Entry<string>) {
    && w.kind == e.kind && w.details == e.details
    && if e.path == [] then w.path == rootName else PathOf(e.path, w.path)
  }

  lemma AllWritten(rootName: string, es: seq<Entry<Path>>)
    ensures WrittenFrom(rootName, es, WrittenAll(rootName, es))
  {
    forall i | 0 <= i < |es| ensures EntryWritten(rootName, es[i], WrittenAll(rootName, es)[i]) {
      WrittenExact(es[i].path);
    }
  }

  /** A path written as the empty string ends in an empty name. */
  lemma EmptyWritten(path: Path)
    requires path != [] && Written(path) == []
    ensures path[|path| - 1] == []
  {
  }

  // ----- sorting keys sorts their trees -----

  function NameKey<K>(g: KeyGraph<K>): K -> string {
    (k: K) => Upper(g.name(k))
  }

  ghost predicate AllUnfold<K>(g: KeyGraph<K>, ts: seq<Tree<K>>) {
    forall t | t in ts :: Unfolds(g, t)
  }

  ghost predicate NamesMatch<K>(g: KeyGraph<K>, keys: seq<K>, ts: seq<Tree<K>>) {
    |keys| == |ts| && forall i | 0 <= i < |ts| :: ts[i].name == g.name(keys[i])
  }

  lemma SortedUnfold<K>(g: KeyGraph<K>, ts: seq<Tree<K>>)
    requires AllUnfold(g, ts)
    ensures Sort(KeysOf(ts), NameKey(g)) == KeysOf(Sort(ts, TreeKey)) && AllUnfold(g, Sort(ts, TreeKey))
  {
    var key := (t: Tree<K>) => t.key;
    forall i | 0 <= i < |ts| ensures NameKey(g)(key(ts[i])) == TreeKey(ts[i]) {
      assert Unfolds(g, ts[i]);
    }
    SortMap(key, ts, TreeKey, NameKey(g));
    SortElements(ts, TreeKey);
    assert KeysOf(ts) == Map(key, ts);
    assert KeysOf(Sort(ts, TreeKey)) == Map(key, Sort(ts, TreeKey));
  }

  // ----- the value comparison of the source -----

  lemma PairDiffsFirst(p: Pairing<ValueData>, rest: seq<Pairing<ValueData>>)
    ensures PairDiffs([p] + rest) == PairDiff(p) + PairDiffs(rest)
  {
    assert ([p] + rest)[1..] == rest;
  }

  /** Serving the front pairing moves its differences over to the result. */
  lemma ServePair(p: Pairing<ValueData>, rest: seq<Pairing<ValueData>>, diffs: seq<ValueDiff>)
    ensures diffs + PairDiffs([p] + rest) == diffs + PairDiff(p) + PairDiffs(rest)
  {
    PairDiffsFirst(p, rest);
    AppendAssociates(diffs, PairDiff(p), PairDiffs(rest));
  }

  method DiffValues(lvs: seq<ValueData>, rvs: seq<ValueData>) returns (diffs: seq<ValueDiff>)
    ensures diffs == ValueDiffs(lvs, rvs)
  {
    diffs := MergeValues(Sort(lvs, ValueKey), Sort(rvs, ValueKey), ValueKey);
  }

  method MergeValues(ls: seq<ValueData>, rs: seq<ValueData>, key: ValueData -> string) returns (diffs: seq<ValueDiff>)
    ensures diffs == PairDiffs(JoinSorted(ls, rs, key))
  {
    diffs := [];
    var li, ri := 0, 0;
    ghost var goal, rest := PairDiffs(JoinSorted(ls, rs, key)), JoinSorted(ls, rs, key);
    JoinStart(ls, rs, key);
    assert diffs + goal == goal;
    while li < |ls| && ri < |rs|
      invariant li <= |ls| && ri <= |rs|
      invariant rest == JoinRest(ls, rs, key, li, ri) && goal == diffs + PairDiffs(rest)
      decreases |ls| + |rs| - li - ri
    {
      var l, r := ls[li], rs[ri];
      var p;
      if key(l) == key(r) {
        StepBoth(ls, rs, key, li, ri);
        p := Both(l, r);
        li, ri := li + 1, ri + 1;
      } else if Less(key(l), key(r)) {
        StepLeft(ls, rs, key, li, ri);
        p := OnlyLeft(l);
        li := li + 1;
      } else {
        StepRight(ls, rs, key, li, ri);
        p := OnlyRight(r);
        ri := ri + 1;
      }
      rest := JoinRest(ls, rs, key, li, ri);
      ServePair(p, rest, diffs);
      diffs := diffs + PairDiff(p);
    }
    diffs := MergeRemaining(ls, rs, key, li, ri, diffs);
  }

  /** The loops over what remains of one list when the other is used up. */
  method MergeRemaining(ls: seq<ValueData>, rs: seq<ValueData>, key: ValueData -> string, l0: nat, r0: nat,
                        before: seq<ValueDiff>)
    returns (diffs: seq<ValueDiff>)
    requires l0 <= |ls| && r0 <= |rs| && (l0 == |ls| || r0 == |rs|)
    ensures diffs == before + PairDiffs(JoinRest(ls, rs, key, l0, r0))
  {
    diffs := before;
    var li, ri := l0, r0;
    ghost var rest := JoinRest(ls, rs, key, li, ri);
    ghost var goal := before + PairDiffs(rest);
    while li < |ls|
      invariant li <= |ls| && ri <= |rs| && (li < |ls| ==> ri == |rs|)
      invariant rest == JoinRest(ls, rs, key, li, ri) && goal == diffs + PairDiffs(rest)
    {
      StepLeft(ls, rs, key, li, ri);
      rest := JoinRest(ls, rs, key, li + 1, ri);
      ServePair(OnlyLeft(ls[li]), rest, diffs);
      diffs := diffs + [ValueDiff(ls[li].name, Removed(SnapshotOf(ls[li])))];
      li := li + 1;
    }
    while ri < |rs|
      invariant li == |ls| && ri <= |rs|
      invariant rest == JoinRest(ls, rs, key, li, ri) && goal == diffs + PairDiffs(rest)
    {
      StepRight(ls, rs, key, li, ri);
      rest := JoinRest(ls, rs, key, li, ri + 1);
      ServePair(OnlyRight(rs[ri]), rest, diffs);
      diffs := diffs + [ValueDiff(rs[ri].name, Added(SnapshotOf(rs[ri])))];
      ri := ri + 1;
    }
    JoinDone(ls, rs, key);
    assert diffs + [] == diffs;
  }

  // ----- the recursion of the source, with its shared list of entries and statistics -----

  lemma {:induction false} CountAppend<P>(a: seq<Entry<P>>, b: seq<Entry<P>>, s: Stats)
    ensures CountAll(a + b, s) == CountAll(b, CountAll(a, s))
  {
    if b == [] {
      assert a + b == a;
    } else {
      assert (a + b)[..|a + b| - 1] == a + b[..|b| - 1];
      CountAppend(a, b[..|b| - 1], s);
    }
  }

  lemma CountOne<P>(e: Entry<P>, s: Stats)
    ensures CountAll([e], s) == CountEntry(e, s)
  {
    assert [e][..0] == [];
  }

  lemma WrittenAppend(rootName: string, a: seq<Entry<Path>>, b: seq<Entry<Path>>)
    ensures WrittenAll(rootName, a + b) == WrittenAll(rootName, a) + WrittenAll(rootName, b)
  {
  }

  lemma WrittenChild(path: Path, name: string)
    ensures Written(path + [name]) == Child(Written(path), name)
  {
    assert (path + [name])[..|path|] == path;
  }

  /** What a run has produced: these entries, written out and counted, after what was there before. */
  ghost predicate Produced(rootName: string, before: seq<Entry<string>>, counted: Stats, es: seq<Entry<Path>>,
                           entries: seq<Entry<string>>, stats: Stats) {
    entries == before + WrittenAll(rootName, es) && stats == CountAll(es, counted)
  }

  lemma ProducedNothing(rootName: string, before: seq<Entry<string>>, counted: Stats)
    ensures Produced(rootName, before, counted, [], before, counted)
  {
    assert before + [] == before;
  }

  lemma ProducedMore(rootName: string, e0: seq<Entry<string>>, s0: Stats, a: seq<Entry<Path>>, e1: seq<Entry<string>>,
                     s1: Stats, b: seq<Entry<Path>>, e2: seq<Entry<string>>, s2: Stats)
    requires Produced(rootName, e0, s0, a, e1, s1) && Produced(rootName, e1, s1, b, e2, s2)
    ensures Produced(rootName, e0, s0, a + b, e2, s2)
  {
    CountAppend(a, b, s0);
    WrittenAppend(rootName, a, b);
    AppendAssociates(e0, WrittenAll(rootName, a), WrittenAll(rootName, b));
  }

  class DiffRun<!K(==)> {
    const leftGraph: KeyGraph<K>
    const rightGraph: KeyGraph<K>
    ghost const rootName: string
    var entries: seq<Entry<string>>
    var stats: Stats

    constructor (leftGraph: KeyGraph<K>, rightGraph: KeyGraph<K>, ghost rootName: string)
      ensures this.leftGraph == leftGraph && this.rightGraph == rightGraph && this.rootName == rootName
      ensures entries == [] && stats == NO_CHANGES
    {
      this.leftGraph, this.rightGraph, this.rootName := leftGraph, rightGraph, rootName;
      entries, stats := [], NO_CHANGES;
    }

    method Push(e: Entry<string>, ghost path: Path)
      requires e == WrittenEntry(rootName, Entry(path, e.kind, e.details)) && e.kind != KeyModified
      modifies this
      ensures Produced(rootName, old(entries), old(stats), [Entry(path, e.kind, e.details)], entries, stats)
    {
      CountOne(Entry(path, e.kind, e.details), stats);
      if e.kind == KeyAdded {
        stats := stats.(keysAdded := stats.keysAdded + 1);
      } else {
        stats := stats.(keysRemoved := stats.keysRemoved + 1);
      }
      entries := entries + [e];
    }

    /** The entry for a key whose values differ, with every difference counted. */
    method PushModified(path: string, diffs: seq<ValueDiff>, ghost comps: Path)
      requires path == (if comps == [] then rootName else Written(comps)) && diffs != []
      modifies this
      ensures Produced(rootName, old(entries), old(stats), [Entry(comps, KeyModified, diffs)], entries, stats)
    {
      ghost var before := stats;
      for i := 0 to |diffs|
        invariant stats == CountValues(diffs[..i], before) && entries == old(entries)
      {
        assert diffs[..i + 1][..i] == diffs[..i];
        match diffs[i].kind {
          case Added(_) => stats := stats.(valuesAdded := stats.valuesAdded + 1);
          case Removed(_) => stats := stats.(valuesRemoved := stats.valuesRemoved + 1);
          case Changed(_, _) => stats := stats.(valuesChanged := stats.valuesChanged + 1);
        }
      }
      assert diffs[..|diffs|] == diffs;
      stats := stats.(keysModified := stats.keysModified + 1);
      CountOne(Entry(comps, KeyModified, diffs), before);
      entries := entries + [Entry(path, KeyModified, diffs)];
    }

    /** Records a key that only one side has: serves the pairing `p` at the front of what is left to do. */
    method PushOneSided(name: string, kind: KeyChange, currentPath: string, ghost p: Pairing<Tree<K>>,
                        ghost rest: seq<Pairing<Tree<K>>>, ghost path: Path, ghost e0: seq<Entry<string>>,
                        ghost s0: Stats, ghost done: seq<Entry<Path>>)
      returns (ghost more: seq<Entry<Path>>)
      requires currentPath == Written(path) && Produced(rootName, e0, s0, done, entries, stats)
      requires match p
               case Both(_, _) => false
               case OnlyLeft(t) => kind == KeyRemoved && name == t.name
               case OnlyRight(t) => kind == KeyAdded && name == t.name
      modifies this
      ensures Produced(rootName, e0, s0, more, entries, stats)
      ensures Prepend(done, PairsDiff([p] + rest, path)) == Prepend(more, PairsDiff(rest, path))
    {
      ghost var e1, s1, es := entries, stats, [Entry(path + [name], kind, [])];
      WrittenChild(path, name);
      ServeKeyPair(p, rest, path, done);
      Push(Entry(Child(currentPath, name), kind, []), path + [name]);
      ProducedMore(rootName, e0, s0, done, e1, s1, es, entries, stats);
      more := done + es;
    }

    /** Compares two corresponding keys and everything below them. */
    method DiffKeyRecursive(left: K, right: K, currentPath: string, ghost l: Tree<K>, ghost r: Tree<K>,
                            ghost path: Path)
      returns (res: Result<()>)
      requires Unfolds(leftGraph, l) && Unfolds(rightGraph, r) && l.key == left && r.key == right
      requires currentPath == Written(path)
      requires if path == [] then l.name == rootName else l.name == path[|path| - 1]
      modifies this
      ensures Done(res, TreeDiff(l, r, path), rootName, old(entries), old(stats), entries, stats)
      decreases Size(l) + Size(r), 0
    {
      UnfoldsHere(leftGraph, l);
      UnfoldsHere(rightGraph, r);
      ghost var e0, s0, e1, s1 := entries, stats, entries, stats;
      var lvs :- leftGraph.values(left);
      var rvs :- rightGraph.values(right);
      var valueDiffs := DiffValues(lvs, rvs);
      ghost var first := Modified(path, valueDiffs);
      ProducedNothing(rootName, e0, s0);
      if valueDiffs != [] {
        if path != [] && currentPath == [] {
          EmptyWritten(path);
        }
        PushModified(if currentPath == [] then leftGraph.name(left) else currentPath, valueDiffs, path);
      }
      e1, s1 := entries, stats;
      var leftSubkeys :- leftGraph.subkeys(left);
      var rightSubkeys :- rightGraph.subkeys(right);
      SortedUnfold(leftGraph, l.kids);
      SortedUnfold(rightGraph, r.kids);
      SortSize(l.kids);
      SortSize(r.kids);
      res := MergeJoinSubkeys(Sort(leftSubkeys, NameKey(leftGraph)), Sort(rightSubkeys, NameKey(rightGraph)),
                              currentPath,
                              Sort(l.kids, TreeKey), Sort(r.kids, TreeKey), path);
      if res.Ok? {
        ProducedMore(rootName, e0, s0, first, e1, s1, PairsDiff(KidPairs(l.kids, r.kids), path).value, entries, stats);
      }
    }

    /** Merge-joins two sorted subkey lists: one-sided keys are recorded, matched ones compared. */
    method MergeJoinSubkeys(left: seq<K>, right: seq<K>, currentPath: string, ghost ls: seq<Tree<K>>,
                            ghost rs: seq<Tree<K>>, ghost path: Path)
      returns (res: Result<()>)
      requires AllUnfold(leftGraph, ls) && AllUnfold(rightGraph, rs) && left == KeysOf(ls) && right == KeysOf(rs)
      requires currentPath == Written(path)
      modifies this
      ensures Done(res, PairsDiff(JoinSorted(ls, rs, TreeKey), path), rootName, old(entries), old(stats), entries,
                   stats)
      decreases SumSizes(ls) + SumSizes(rs), 1
    {
      var li, ri := 0, 0;
      ghost var e0, s0 := entries, stats;
      ghost var done: seq<Entry<Path>> := [];
      ghost var rest := JoinSorted(ls, rs, TreeKey);
      ghost var goal := PairsDiff(rest, path);
      JoinStart(ls, rs, TreeKey);
      ProducedNothing(rootName, e0, s0);
      PrependNothing(goal);
      NamesHere(leftGraph, ls);
      NamesHere(rightGraph, rs);
      while li < |left| && ri < |right|
        invariant li <= |left| && ri <= |right|
        invariant rest == JoinRest(ls, rs, TreeKey, li, ri) && goal == Prepend(done, PairsDiff(rest, path))
        invariant Produced(rootName, e0, s0, done, entries, stats)
        decreases |left| + |right| - li - ri
      {
        ghost var e1, s1, l, r := entries, stats, ls[li], rs[ri];
        var leftName, rightName := Upper(leftGraph.name(left[li])), Upper(rightGraph.name(right[ri]));
        if leftName == rightName {
          StepBoth(ls, rs, TreeKey, li, ri);
          rest := JoinRest(ls, rs, TreeKey, li + 1, ri + 1);
          SizeAt(ls, li);
          SizeAt(rs, ri);
          WrittenChild(path, l.name);
          ServeKeyPair(Both(l, r), rest, path, done);
          var below := DiffKeyRecursive(left[li], right[ri], Child(currentPath, leftGraph.name(left[li])), l, r,
                                        path + [l.name]);
          if below.Err? {
            return below;
          }
          ghost var es := TreeDiff(l, r, path + [l.name]).value;
          ProducedMore(rootName, e0, s0, done, e1, s1, es, entries, stats);
          done := done + es;
          li, ri := li + 1, ri + 1;
        } else if Less(leftName, rightName) {
          StepLeft(ls, rs, TreeKey, li, ri);
          rest := JoinRest(ls, rs, TreeKey, li + 1, ri);
          done := PushOneSided(leftGraph.name(left[li]), KeyRemoved, currentPath, OnlyLeft(l), rest, path, e0, s0,
                               done);
          li := li + 1;
        } else {
          StepRight(ls, rs, TreeKey, li, ri);
          rest := JoinRest(ls, rs, TreeKey, li, ri + 1);
          done := PushOneSided(rightGraph.name(right[ri]), KeyAdded, currentPath, OnlyRight(r), rest, path, e0, s0,
                               done);
          ri := ri + 1;
        }
      }
      ghost var e1, s1 := entries, stats;
      ghost var tail := PushRemaining(left, right, currentPath, li, ri, ls, rs, path);
      ProducedMore(rootName, e0, s0, done, e1, s1, tail, entries, stats);
      res := Ok(());
    }

    /** The loops over what remains of one list when the other is used up. */
    method PushRemaining(left: seq<K>, right: seq<K>, currentPath: string, li: nat, ri: nat, ghost ls: seq<Tree<K>>,
                         ghost rs: seq<Tree<K>>, ghost path: Path)
                           returns (ghost tail: seq<Entry<Path>>)
      requires NamesMatch(leftGraph, left, ls) && NamesMatch(rightGraph, right, rs)
      requires li <= |left| && ri <= |right| && (li == |left| || ri == |right|) && currentPath == Written(path)
      modifies this
      ensures PairsDiff(JoinRest(ls, rs, TreeKey, li, ri), path) == Ok(tail)
      ensures Produced(rootName, old(entries), old(stats), tail, entries, stats)
    {
      ghost var e0, s0 := entries, stats;
      RestOneSided(ls, rs, TreeKey, li, ri, path);
      PushEach(leftGraph, left[li..], KeyRemoved, currentPath, ls[li..], path);
      ghost var removed, added := EntryEach(ls[li..], path, KeyRemoved), EntryEach(rs[ri..], path, KeyAdded);
      ghost var e1, s1 := entries, stats;
      PushEach(rightGraph, right[ri..], KeyAdded, currentPath, rs[ri..], path);
      ProducedMore(rootName, e0, s0, removed, e1, s1, added, entries, stats);
      tail := removed + added;
    }

    method PushEach(g: KeyGraph<K>, keys: seq<K>, kind: KeyChange, currentPath: string, ghost ts: seq<Tree<K>>,
                    ghost path: Path)
      requires NamesMatch(g, keys, ts) && currentPath == Written(path) && kind != KeyModified
      modifies this
      ensures Produced(rootName, old(entries), old(stats), EntryEach(ts, path, kind), entries, stats)
    {
      ghost var e0, s0 := entries, stats;
      ProducedNothing(rootName, e0, s0);
      for i := 0 to |keys|
        invariant Produced(rootName, e0, s0, EntryEach(ts[..i], path, kind), entries, stats)
      {
        ghost var e1, s1, done := entries, stats, EntryEach(ts[..i], path, kind);
        WrittenChild(path, ts[i].name);
        Push(Entry(Child(currentPath, g.name(keys[i])), kind, []), path + [ts[i].name]);
        ProducedMore(rootName, e0, s0, done, e1, s1, [Entry(path + [ts[i].name], kind, [])], entries, stats);
        EachMore(ts, i, path, kind);
      }
      assert ts[..|ts|] == ts;
    }
  }

  /** One entry per key, all of one kind. */
  ghost function EntryEach<K>(ts: seq<Tree<K>>, path: Path, kind: KeyChange): (es: seq<Entry<Path>>)
    ensures |es| == |ts| && forall i | 0 <= i < |ts| :: es[i] == Entry(path + [ts[i].name], kind, [])
  {
    seq(|ts|, i requires 0 <= i < |ts| => Entry(path + [ts[i].name], kind, []))
  }

  lemma EachMore<K>(ts: seq<Tree<K>>, i: nat, path: Path, kind: KeyChange)
    requires i < |ts|
    ensures EntryEach(ts[..i + 1], path, kind)
            == EntryEach(ts[..i], path, kind) + [Entry(path + [ts[i].name], kind, [])]
  {
  }

  lemma EachFirst<K>(ts: seq<Tree<K>>, path: Path, kind: KeyChange)
    requires ts != []
    ensures EntryEach(ts, path, kind) == [Entry(path + [ts[0].name], kind, [])] + EntryEach(ts[1..], path, kind)
  {
  }

  lemma {:induction false} LeftOver<K>(ls: seq<Tree<K>>, key: Tree<K> -> string, path: Path)
    ensures PairsDiff(JoinSorted(ls, [], key), path) == Ok(EntryEach(ls, path, KeyRemoved))
  {
    if ls != [] {
      LeftOver(ls[1..], key, path);
      EachFirst(ls, path, KeyRemoved);
    }
  }

  lemma {:induction false} RightOver<K>(rs: seq<Tree<K>>, key: Tree<K> -> string, path: Path)
    ensures PairsDiff(JoinSorted([], rs, key), path) == Ok(EntryEach(rs, path, KeyAdded))
  {
    if rs != [] {
      RightOver(rs[1..], key, path);
      EachFirst(rs, path, KeyAdded);
    }
  }

  /** When one list is used up, what is left of the other is one-sided. */
  lemma RestOneSided<K>(ls: seq<Tree<K>>, rs: seq<Tree<K>>, key: Tree<K> -> string, li: nat, ri: nat, path: Path)
    requires li <= |ls| && ri <= |rs| && (li == |ls| || ri == |rs|)
    ensures PairsDiff(JoinRest(ls, rs, key, li, ri), path)
         == Ok(EntryEach(ls[li..], path, KeyRemoved) + EntryEach(rs[ri..], path, KeyAdded))
  {
    var removed, added := EntryEach(ls[li..], path, KeyRemoved), EntryEach(rs[ri..], path, KeyAdded);
    if ri == |rs| {
      LeftOver(ls[li..], key, path);
      assert removed + added == removed;
    } else {
      RightOver(rs[ri..], key, path);
      assert removed + added == added;
    }
  }

  /** A call either fails with the error of the specification or has produced its entries. */
  ghost predicate Done(res: Result<()>, spec: Result<seq<Entry<Path>>>, rootName: string, e0: seq<Entry<string>>,
                       s0: Stats, entries: seq<Entry<string>>, stats: Stats) {
    && (spec.Err? ==> res == Err(spec.error))
    && (spec.Ok? ==> res == Ok(()) && Produced(rootName, e0, s0, spec.value, entries, stats))
  }

  ghost function Prepend(done: seq<Entry<Path>>, res: Result<seq<Entry<Path>>>): Result<seq<Entry<Path>>> {
    if res.Err? then res else Ok(done + res.value)
  }

  lemma PrependNothing(res: Result<seq<Entry<Path>>>)
    ensures Prepend([], res) == res
  {
    if res.Ok? {
      assert [] + res.value == res.value;
    }
  }

  lemma ServeKeyPair<K>(p: Pairing<Tree<K>>, rest: seq<Pairing<Tree<K>>>, path: Path, done: seq<Entry<Path>>)
    ensures var first := KeyPairDiff(p, path);
            Prepend(done, PairsDiff([p] + rest, path))
              == (if first.Err? then first else Prepend(done + first.value, PairsDiff(rest, path)))
  {
    assert ([p] + rest)[1..] == rest;
    if KeyPairDiff(p, path).Ok? && PairsDiff(rest, path).Ok? {
      AppendAssociates(done, KeyPairDiff(p, path).value, PairsDiff(rest, path).value);
    }
  }

  lemma UnfoldsHere<K>(g: KeyGraph<K>, t: Tree<K>)
    requires Unfolds(g, t)
    ensures t.name == g.name(t.key) && t.values == g.values(t.key)
    ensures t.Broken? ==> g.subkeys(t.key) == Err(t.error)
    ensures t.Node? ==> g.subkeys(t.key) == Ok(KeysOf(t.kids)) && AllUnfold(g, t.kids)
  {
  }

  lemma NamesHere<K>(g: KeyGraph<K>, ts: seq<Tree<K>>)
    requires AllUnfold(g, ts)
    ensures NamesMatch(g, KeysOf(ts), ts)
  {
    forall i | 0 <= i < |ts| ensures ts[i].name == g.name(KeysOf(ts)[i]) {
      assert Unfolds(g, ts[i]);
    }
  }

  lemma {:induction false} SizeAt<K>(ts: seq<Tree<K>>, i: nat)
    requires i < |ts|
    ensures Size(ts[i]) <= SumSizes(ts)
  {
    if i > 0 {
      SizeAt(ts[1..], i - 1);
    }
  }

  lemma ProducedFromNothing(rootName: string, es: seq<Entry<Path>>, entries: seq<Entry<string>>, stats: Stats)
    requires Produced(rootName, [], NO_CHANGES, es, entries, stats)
    ensures entries == WrittenAll(rootName, es) && stats == CountAll(es, NO_CHANGES)
  {
  }

  /** The result for these entries: written out, and counted. */
  function Outcome(rootName: string, spec: Result<seq<Entry<Path>>>): Result<(seq<Entry<string>>, Stats)> {
    var es :- spec;
    Ok((WrittenAll(rootName, es), CountAll(es, NO_CHANGES)))
  }

  /** `diff_hives` once both root keys are read. */
  method DiffRoots<K(==)>(leftGraph: KeyGraph<K>, leftRoot: K, rightGraph: KeyGraph<K>, rightRoot: K, ghost l: Tree<K>,
                     ghost r: Tree<K>)
    returns (res: Result<(seq<Entry<string>>, Stats)>)
    requires Unfolds(leftGraph, l) && Unfolds(rightGraph, r) && l.key == leftRoot && r.key == rightRoot
    ensures res == Outcome(l.name, TreeDiff(l, r, []))
  {
    UnfoldsHere(leftGraph, l);
    var run := new DiffRun<K>(leftGraph, rightGraph, l.name);
    var done := run.DiffKeyRecursive(leftRoot, rightRoot, [], l, r, []);
    ghost var spec := TreeDiff(l, r, []);
    if done.Err? {
      return Err(done.error);
    }
    ProducedFromNothing(l.name, spec.value, run.entries, run.stats);
    res := Ok((run.entries, run.stats));
  }

  /** The root key, if it can be read, and what it unfolds to. */
  ghost predicate RootUnfolds<K>(g: KeyGraph<K>, root: Result<K>, t: Tree<K>) {
    root.Ok? ==> Unfolds(g, t) && t.key == root.value
  }

  /** `diff_hives`: the written entries and their statistics, or the first read error: of the left root key, of the
      right one, then of the comparison. */
  method DiffHives<K(==)>(leftGraph: KeyGraph<K>, leftRoot: Result<K>, rightGraph: KeyGraph<K>, rightRoot: Result<K>,
                     ghost l: Tree<K>, ghost r: Tree<K>)
    returns (res: Result<(seq<Entry<string>>, Stats)>)
    requires RootUnfolds(leftGraph, leftRoot, l) && RootUnfolds(rightGraph, rightRoot, r)
    ensures res == if leftRoot.Err? then Err(leftRoot.error)
                   else if rightRoot.Err? then Err(rightRoot.error)
                   else Outcome(l.name, TreeDiff(l, r, []))
    ensures res.Ok? ==> TreeDiff(l, r, []).Ok? && WrittenFrom(l.name, TreeDiff(l, r, []).value, res.value.0)
  {
    if TreeDiff(l, r, []).Ok? {
      AllWritten(l.name, TreeDiff(l, r, []).value);
    }
    var left :- leftRoot;
    var right :- rightRoot;
    res := DiffRoots(leftGraph, left, rightGraph, right, l, r);
  }
}
