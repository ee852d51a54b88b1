/** When the entries of a diff are sorted by their paths as written, which is what `DiffResult` promises
    (`winreg-diff/src/types.rs`, `engine.rs`). */
module WrittenOrder {
  import opened Wrappers
  import opened Text
  import opened KeyGraphs
  import opened MergeJoin
  import opened Diff
  import opened DiffLaws
  import opened DiffOrder

  // ----- two paths -----

  /** A name that is one component of a path. */
  predicate Plain(n: string) { n != [] && SEP !in n }

  ghost predicate PlainPath(p: Path) {
    forall n | n in p :: Plain(n)
  }

  /** `m` is `n` followed by something that starts below the separator, up to case: `n` comes first as a
      name, and last as the beginning of a longer path. */
  predicate Overtakes(m: string, n: string) {
    var a, b := Upper(n), Upper(m);
    a < b && b[|a|] < SEP
  }

  /** `p` goes on below the component in which the paths differ, and `q` overtakes it there. */
  predicate Overtaken(p: Path, q: Path) {
    && p != [] && q != []
    && if Upper(p[0]) == Upper(q[0]) then Overtaken(p[1..], q[1..]) else |p| > 1 && Overtakes(q[0], p[0])
  }

  lemma {:induction false} WrittenIsJoin(p: Path)
    requires PlainPath(p) && p != []
    ensures Written(p) == Join(p) && Join(p) != []
  {
    var init, last := p[..|p| - 1], p[|p| - 1];
    assert p == init + [last] && Plain(last);
    if init == [] {
      assert Written(init) == [];
    } else {
      WrittenIsJoin(init);
      JoinAppend(init, last);
    }
  }

  lemma UpperOfJoin(p: Path)
    requires |p| > 1
    ensures Upper(Join(p)) == Upper(p[0]) + ([SEP] + Upper(Join(p[1..])))
  {
  }

  lemma {:induction false} LessAfter(x: string, a: string, b: string)
    ensures Less(x + a, x + b) == Less(a, b)
  {
    if x == [] {
      assert x + a == a && x + b == b;
    } else {
      assert (x + a)[1..] == x[1..] + a && (x + b)[1..] == x[1..] + b;
      LessAfter(x[1..], a, b);
    }
  }

  /** Names that differ inside the shorter one: what follows does not matter. */
  lemma {:induction false} LessInside(a: string, b: string, x: string, y: string)
    requires Less(a, b) && !(a <= b)
    ensures Less(a + x, b + y)
  {
    assert (a + x)[0] == a[0] && (b + y)[0] == b[0];
    if a[0] == b[0] {
      assert (a + x)[1..] == a[1..] + x && (b + y)[1..] == b[1..] + y;
      LessInside(a[1..], b[1..], x, y);
    }
  }

  /** A name that the other one continues: the separator decides. */
  lemma LessAtSeparator(a: string, b: string, x: string, y: string)
    requires a < b && SEP !in b
    ensures Less(a + ([SEP] + x), b + y) <==> !(b[|a|] < SEP)
    ensures Less(a, b + y)
  {
    var rest := b[|a|..] + y;
    assert b + y == a + rest && a == a + [] && rest[0] == b[|a|] && rest[0] != SEP;
    LessAfter(a, [SEP] + x, rest);
    LessAfter(a, [], rest);
  }

  lemma UpperKeepsSeparators(n: string)
    requires SEP !in n
    ensures SEP !in Upper(n)
  {
  }

  /** Paths whose first components differ. */
  lemma FirstDiffers(p: Path, q: Path)
    requires PlainPath(p) && PlainPath(q) && p != [] && q != [] && Less(Upper(p[0]), Upper(q[0]))
    ensures Less(Upper(Join(p)), Upper(Join(q))) <==> !Overtaken(p, q)
  {
    var a, b := Upper(p[0]), Upper(q[0]);
    LessAsymmetric(a, b);
    assert Plain(q[0]);
    UpperKeepsSeparators(q[0]);
    var y := if |q| > 1 then [SEP] + Upper(Join(q[1..])) else [];
    assert Upper(Join(q)) == b + y;
    if |p| > 1 {
      UpperOfJoin(p);
      if a <= b {
        LessAtSeparator(a, b, Upper(Join(p[1..])), y);
      } else {
        LessInside(a, b, [SEP] + Upper(Join(p[1..])), y);
      }
    } else if a <= b {
      LessAtSeparator(a, b, [], y);
    } else {
      LessInside(a, b, [], y);
      assert a + [] == a;
    }
  }

  /** Paths in component order are in written order, up to case, unless the later one overtakes. */
  lemma {:induction false} PairWritten(p: Path, q: Path)
    requires PlainPath(p) && PlainPath(q) && p != [] && PathLess(p, q)
    ensures Less(Upper(Join(p)), Upper(Join(q))) <==> !Overtaken(p, q)
  {
    var a, b := Upper(p[0]), Upper(q[0]);
    if a != b {
      FirstDiffers(p, q);
    } else {
      LessIrreflexive(a);
      UpperOfJoin(q);
      if |p| == 1 {
        assert a == a + [];
        LessAfter(a, [], [SEP] + Upper(Join(q[1..])));
      } else {
        UpperOfJoin(p);
        LessAfter(a, [SEP] + Upper(Join(p[1..])), [SEP] + Upper(Join(q[1..])));
        LessAfter([SEP], Upper(Join(p[1..])), Upper(Join(q[1..])));
        PairWritten(p[1..], q[1..]);
      }
    }
  }

  // ----- all entries of a diff -----

  /** The keys below the root have names from this set. */
  ghost predicate NamedFrom<K>(t: Tree<K>, names: iset<string>)
    decreases t
  {
    t.Node? ==> forall k | k in t.kids :: k.name in names && NamedFrom(k, names)
  }

  ghost predicate PathFrom(p: Path, at: Path, names: iset<string>) {
    at <= p && forall i | |at| <= i < |p| :: p[i] in names
  }

  lemma DeeperFrom(p: Path, at: Path, n: string, names: iset<string>)
    requires PathFrom(p, at + [n], names) && n in names
    ensures PathFrom(p, at, names)
  {
    assert p[..|at|] == (at + [n])[..|at|] == at;
    assert p[|at|] == (at + [n])[|at|];
  }

  lemma {:induction false} EntriesNamed<K(!new)>(l: Tree<K>, r: Tree<K>, path: Path, es: seq<Entry<Path>>,
                                          names: iset<string>)
    requires DistinctNames(l) && DistinctNames(r) && TreeDiff(l, r, path) == Ok(es)
    requires NamedFrom(l, names) && NamedFrom(r, names)
    ensures forall e | e in es :: PathFrom(e.path, path, names)
    decreases l
  {
    var ps, first, below := DiffParts(l, r, path, es);
    KidPairsUp(l, r);
    InPairsDiff(ps, path);
    forall e | e in below ensures PathFrom(e.path, path, names) {
      var p :| p in ps && e in KeyPairDiff(p, path).value;
      if p.Both? {
        EntriesNamed(p.left, p.right, path + [p.left.name], KeyPairDiff(p, path).value, names);
        DeeperFrom(e.path, path, p.left.name, names);
      }
    }
  }

  /** The entries below the compared keys are increasing by their written paths, up to case. */
  ghost predicate WrittenInOrder(es: seq<Entry<Path>>) {
    forall i, j | 0 <= i < j < |es| && es[i].path != [] :: Less(Upper(Written(es[i].path)), Upper(Written(es[j].path)))
  }

  /** No name of the set overtakes another. */
  ghost predicate NoneOvertakes(names: iset<string>) {
    forall n, m | n in names && m in names :: !Overtakes(m, n)
  }

  ghost predicate AllPlain(names: iset<string>) {
    forall n | n in names :: Plain(n)
  }

  /** A comparison of two trees with such names, siblings differing by more than case. */
  ghost predicate Compared<K(!new)>(l: Tree<K>, r: Tree<K>, names: iset<string>, es: seq<Entry<Path>>) {
    && DistinctNames(l) && DistinctNames(r) && NamedFrom(l, names) && NamedFrom(r, names)
    && TreeDiff(l, r, []) == Ok(es)
  }

  lemma {:induction false} NotOvertaken(p: Path, q: Path, names: iset<string>)
    requires NoneOvertakes(names) && (forall n | n in p :: n in names) && forall n | n in q :: n in names
    ensures !Overtaken(p, q)
  {
    if p != [] && q != [] {
      NotOvertaken(p[1..], q[1..], names);
    }
  }

  lemma PathNamed(p: Path, names: iset<string>)
    requires PathFrom(p, [], names) && AllPlain(names)
    ensures PlainPath(p) && forall n | n in p :: n in names
  {
  }

  lemma OrderWhenNone<K(!new)>(l: Tree<K>, r: Tree<K>, names: iset<string>, es: seq<Entry<Path>>)
    requires AllPlain(names) && NoneOvertakes(names) && Compared(l, r, names, es)
    ensures WrittenInOrder(es)
  {
    DiffOrdered(l, r, [], es);
    EntriesNamed(l, r, [], es, names);
    forall i, j | 0 <= i < j < |es| && es[i].path != []
      ensures Less(Upper(Written(es[i].path)), Upper(Written(es[j].path)))
    {
      var p, q := es[i].path, es[j].path;
      assert es[i] in es && es[j] in es && PathLess(p, q);
      PathNamed(p, names);
      PathNamed(q, names);
      WrittenIsJoin(p);
      WrittenIsJoin(q);
      NotOvertaken(p, q, names);
      PairWritten(p, q);
    }
  }

  // ----- trees that show a name overtaken -----

  function Bare<K>(k: K, name: string, kids: seq<Tree<K>>): Tree<K> {
    Node(k, name, Ok([]), kids)
  }

  lemma NoValues()
    ensures ValueDiffs([], []) == []
  {
  }

  lemma SortedOne<T>(a: T, key: T -> string)
    ensures Sort([a], key) == [a]
  {
    var none: seq<T> := [];
    assert [a][1..] == none;
  }

  lemma SortedTwo<T>(a: T, b: T, key: T -> string)
    requires Less(key(a), key(b))
    ensures Sort([a, b], key) == [a, b]
  {
    LessAsymmetric(key(a), key(b));
    SortedOne(b, key);
    assert [a, b][1..] == [b];
  }

  lemma BothThenLeft<T>(a: T, b: T, c: T, key: T -> string)
    requires key(a) == key(c)
    ensures JoinSorted([a, b], [c], key) == [Both(a, c), OnlyLeft(b)]
    ensures JoinSorted([b], [], key) == [OnlyLeft(b)]
  {
    LessIrreflexive(key(a));
    assert [a, b][1..] == [b] && [c][1..] == [] && [b][1..] == [];
    assert JoinSorted([b], [], key) == [OnlyLeft(b)] + JoinSorted([], [], key);
  }

  lemma PairsOfOne<K>(p: Pairing<Tree<K>>, path: Path, x: seq<Entry<Path>>)
    requires KeyPairDiff(p, path) == Ok(x)
    ensures PairsDiff([p], path) == Ok(x)
  {
    var none: seq<Pairing<Tree<K>>> := [];
    assert [p][1..] == none && PairsDiff(none, path) == Ok([]) && x + [] == x;
  }

  lemma PairsOfTwo<K>(p: Pairing<Tree<K>>, q: Pairing<Tree<K>>, path: Path, x: seq<Entry<Path>>, y: seq<Entry<Path>>)
    requires KeyPairDiff(p, path) == Ok(x) && KeyPairDiff(q, path) == Ok(y)
    ensures PairsDiff([p, q], path) == Ok(x + y)
  {
    assert [p, q][1..] == [q];
    PairsOfOne(q, path, y);
  }

  /** Only what lies below two keys without values. */
  lemma OnlyBelow<K>(a: Tree<K>, c: Tree<K>, path: Path, below: seq<Entry<Path>>)
    requires BothReadable(a, c) && a.values == Ok([]) && c.values == Ok([])
    requires PairsDiff(KidPairs(a.kids, c.kids), path) == Ok(below)
    ensures TreeDiff(a, c, path) == Ok(below)
  {
    NoValues();
    assert [] + below == below;
  }

  lemma OneBelow<K>(k: K, n: string)
    ensures TreeDiff(Bare(k, n, [Bare(k, n, [])]), Bare(k, n, []), [n]) == Ok([Entry([n, n], KeyRemoved, [])])
  {
    var x := Bare(k, n, []);
    var kids: seq<Tree<K>> := [];
    assert [x][1..] == kids && Sort([x], TreeKey) == [x] && Sort(kids, TreeKey) == kids;
    BothThenLeft(x, x, x, TreeKey);
    assert [n] + [n] == [n, n];
    PairsOfOne(OnlyLeft(x), [n], [Entry([n, n], KeyRemoved, [])]);
    OnlyBelow(Bare(k, n, [x]), x, [n], [Entry([n, n], KeyRemoved, [])]);
  }

  /** `n` with a key of the same name below it, and `m`. */
  function LeftTree<K>(k: K, n: string, m: string): Tree<K> {
    Bare(k, [], [Bare(k, n, [Bare(k, n, [])]), Bare(k, m, [])])
  }

  /** `n` alone. */
  function RightTree<K>(k: K, n: string): Tree<K> {
    Bare(k, [], [Bare(k, n, [])])
  }

  lemma OvertakingLess(n: string, m: string)
    requires Overtakes(m, n)
    ensures Less(Upper(n), Upper(m))
  {
    var u, v := Upper(n), Upper(m);
    assert v == u + v[|u|..] && u == u + [];
    LessAfter(u, [], v[|u|..]);
  }

  lemma KidsPaired<K>(k: K, n: string, m: string)
    requires Overtakes(m, n)
    ensures var a, b, c := Bare(k, n, [Bare(k, n, [])]), Bare(k, m, []), Bare(k, n, []);
            KidPairs([a, b], [c]) == [Both(a, c), OnlyLeft(b)]
  {
    var a, b, c := Bare(k, n, [Bare(k, n, [])]), Bare(k, m, []), Bare(k, n, []);
    OvertakingLess(n, m);
    SortedTwo(a, b, TreeKey);
    SortedOne(c, TreeKey);
    BothThenLeft(a, b, c, TreeKey);
  }

  /** What comparing the two reports. */
  lemma OvertakingDiff<K>(k: K, n: string, m: string)
    requires Overtakes(m, n)
    ensures TreeDiff(LeftTree(k, n, m), RightTree(k, n), [])
            == Ok([Entry([n, n], KeyRemoved, []), Entry([m], KeyRemoved, [])])
  {
    var a, b, c := Bare(k, n, [Bare(k, n, [])]), Bare(k, m, []), Bare(k, n, []);
    var first, second := Entry([n, n], KeyRemoved, []), Entry([m], KeyRemoved, []);
    KidsPaired(k, n, m);
    OneBelow(k, n);
    assert [] + [n] == [n] && [] + [m] == [m] && [first] + [second] == [first, second];
    PairsOfTwo(Both(a, c), OnlyLeft(b), [], [first], [second]);
    OnlyBelow(LeftTree(k, n, m), RightTree(k, n), [], [first, second]);
  }

  lemma BareDistinct<K>(k: K, n: string, kids: seq<Tree<K>>)
    requires DistinctKeys(kids, TreeKey) && forall t | t in kids :: DistinctNames(t)
    ensures DistinctNames(Bare(k, n, kids))
  {
  }

  lemma BareNamed<K>(k: K, n: string, kids: seq<Tree<K>>, names: iset<string>)
    requires forall t | t in kids :: t.name in names && NamedFrom(t, names)
    ensures NamedFrom(Bare(k, n, kids), names)
  {
  }

  lemma OvertakingDistinct<K>(k: K, n: string, m: string)
    requires Overtakes(m, n)
    ensures DistinctNames(LeftTree(k, n, m)) && DistinctNames(RightTree(k, n))
  {
    var x, b := Bare(k, n, []), Bare(k, m, []);
    BareDistinct(k, n, []);
    BareDistinct(k, m, []);
    BareDistinct(k, n, [x]);
    BareDistinct(k, [], [x]);
    BareDistinct(k, [], [Bare(k, n, [x]), b]);
  }

  lemma OvertakingNamed<K>(k: K, n: string, m: string, names: iset<string>)
    requires n in names && m in names
    ensures NamedFrom(LeftTree(k, n, m), names) && NamedFrom(RightTree(k, n), names)
  {
    var x, b := Bare(k, n, []), Bare(k, m, []);
    BareNamed(k, n, [], names);
    BareNamed(k, m, [], names);
    BareNamed(k, n, [x], names);
    BareNamed(k, [], [x], names);
    BareNamed(k, [], [Bare(k, n, [x]), b], names);
  }

  /** Names that overtake give a comparison whose entries are not in written order. */
  lemma OvertakingTrees<K(!new)>(k: K, n: string, m: string, names: iset<string>)
    returns (l: Tree<K>, r: Tree<K>, es: seq<Entry<Path>>)
    requires n in names && m in names && Overtakes(m, n)
    ensures Compared(l, r, names, es)
    ensures es == [Entry([n, n], KeyRemoved, []), Entry([m], KeyRemoved, [])]
  {
    l, r := LeftTree(k, n, m), RightTree(k, n);
    es := [Entry([n, n], KeyRemoved, []), Entry([m], KeyRemoved, [])];
    OvertakingDiff(k, n, m);
    OvertakingDistinct(k, n, m);
    OvertakingNamed(k, n, m, names);
  }

  lemma OvertakenPath(n: string, m: string)
    requires Plain(n) && Plain(m) && Overtakes(m, n)
    ensures Less(Upper(Written([m])), Upper(Written([n, n]))) && !Less(Upper(Written([n, n])), Upper(Written([m])))
  {
    var u, v := Upper(n), Upper(m);
    var rest := v[|u|..];
    WrittenIsJoin([n, n]);
    WrittenIsJoin([m]);
    UpperOfJoin([n, n]);
    assert v == u + rest && [n, n][1..] == [n];
    LessAfter(u, rest, [SEP] + u);
    LessAsymmetric(v, u + ([SEP] + u));
  }

  lemma NotAlwaysInOrder<K(!new)>(k: K, names: iset<string>)
    returns (l: Tree<K>, r: Tree<K>, es: seq<Entry<Path>>)
    requires AllPlain(names) && !NoneOvertakes(names)
    ensures Compared(l, r, names, es) && !WrittenInOrder(es)
  {
    var n, m :| n in names && m in names && Overtakes(m, n);
    l, r, es := OvertakingTrees(k, n, m, names);
    OvertakenPath(n, m);
    assert !Less(Upper(Written(es[0].path)), Upper(Written(es[1].path)));
  }

  /** For names without separators, exactly when every comparison lists its entries by written path, up to case:
      when no name is another one followed by a character below the separator. */
  lemma WrittenOrderExact<K(!new)>(k: K, names: iset<string>)
    requires AllPlain(names)
    ensures NoneOvertakes(names) <==>
            forall l: Tree<K>, r: Tree<K>, es | Compared(l, r, names, es) :: WrittenInOrder(es)
  {
    if NoneOvertakes(names) {
      forall l: Tree<K>, r: Tree<K>, es | Compared(l, r, names, es) ensures WrittenInOrder(es) {
        OrderWhenNone(l, r, names, es);
      }
    } else {
      var l, r, es := NotAlwaysInOrder(k, names);
    }
  }

  // ----- the entry of the compared keys themselves, which is written as the name of the left one -----

  ghost predicate ListedInOrder(ws: seq<Entry<string>>) {
    forall i, j | 0 <= i < j < |ws| :: Less(Upper(ws[i].path), Upper(ws[j].path))
  }

  /** With that entry, the list is in order when it also comes before the next one as written. */
  lemma WholeListExact<K(!new)>(l: Tree<K>, r: Tree<K>, rootName: string, es: seq<Entry<Path>>)
    requires DistinctNames(l) && DistinctNames(r) && TreeDiff(l, r, []) == Ok(es)
    ensures ListedInOrder(WrittenAll(rootName, es)) <==>
            && WrittenInOrder(es)
            && (|es| > 1 && es[0].path == [] ==> Less(Upper(rootName), Upper(Written(es[1].path))))
  {
    var ws := WrittenAll(rootName, es);
    DiffOrdered(l, r, [], es);
    forall j | 0 < j < |es| ensures es[j].path != [] {
      assert PathLess(es[0].path, es[j].path);
    }
    if ListedInOrder(ws) {
      forall i, j | 0 <= i < j < |es| && es[i].path != []
        ensures Less(Upper(Written(es[i].path)), Upper(Written(es[j].path)))
      {
        assert Less(Upper(ws[i].path), Upper(ws[j].path));
      }
    }
    if WrittenInOrder(es) && (|es| > 1 && es[0].path == [] ==> Less(Upper(rootName), Upper(Written(es[1].path)))) {
      forall i, j | 0 <= i < j < |ws| ensures Less(Upper(ws[i].path), Upper(ws[j].path)) {
        if i == 0 && es[0].path == [] && j > 1 {
          LessTransitive(Upper(rootName), Upper(Written(es[1].path)), Upper(Written(es[j].path)));
        }
      }
    }
  }

  lemma RunNames()
    ensures Overtakes("RunOnce", "Run") && Plain("Run") && Plain("RunOnce")
  {
    assert Upper("Run") == "RUN" && Upper("RunOnce") == "RUNONCE" && "RUNONCE"[..3] == "RUN";
  }

  lemma OvertakingExample<K(!new)>(k: K, n: string, m: string) returns (l: Tree<K>, r: Tree<K>, es: seq<Entry<Path>>)
    requires Plain(n) && Plain(m) && Overtakes(m, n)
    ensures Compared(l, r, iset{n, m}, es)
    ensures es == [Entry([n, n], KeyRemoved, []), Entry([m], KeyRemoved, [])]
    ensures Less(Upper(Written(es[1].path)), Upper(Written(es[0].path)))
  {
    l, r, es := OvertakingTrees(k, n, m, iset{n, m});
    OvertakenPath(n, m);
  }

  /** A real case: `Run` with a key below it, and `RunOnce`. */
  lemma RunBeforeRunOnce<K(!new)>(k: K) returns (l: Tree<K>, r: Tree<K>, es: seq<Entry<Path>>)
    ensures Compared(l, r, iset{"Run", "RunOnce"}, es)
    ensures es == [Entry(["Run", "Run"], KeyRemoved, []), Entry(["RunOnce"], KeyRemoved, [])]
    ensures Less(Upper(Written(es[1].path)), Upper(Written(es[0].path)))
  {
    RunNames();
    l, r, es := OvertakingExample(k, "Run", "RunOnce");
  }
}
