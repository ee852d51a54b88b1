/** When the diff of two trees is empty: for all trees, whatever the names of their siblings
    (`winreg-diff/src/engine.rs`). */
module DiffEmpty {
  import opened Wrappers
  import opened Text
  import opened KeyGraphs
  import opened MergeJoin
  import opened Diff
  import opened DiffLaws

  /** One after the other, the same name up to case, with the same type and data. */
  ghost predicate ValuesMatch(ls: seq<ValueData>, rs: seq<ValueData>) {
    if ls == [] then rs == []
    else rs != [] && EqualFold(ls[0].name, rs[0].name) && SameContent(ls[0], rs[0]) && ValuesMatch(ls[1..], rs[1..])
  }

  /** Equal up to the case of names, the order of siblings whose names differ by more than case, and the names of
      the two roots. */
  ghost predicate TreesMatch<K>(l: Tree<K>, r: Tree<K>)
    decreases Size(l), 0
  {
    && BothReadable(l, r)
    && ValuesMatch(Sort(l.values.value, ValueKey), Sort(r.values.value, ValueKey))
    && (SortSize(l.kids); KidsMatch(Sort(l.kids, TreeKey), Sort(r.kids, TreeKey)))
  }

  ghost predicate KidsMatch<K>(ls: seq<Tree<K>>, rs: seq<Tree<K>>)
    decreases SumSizes(ls), 1
  {
    if ls == [] then rs == []
    else rs != [] && EqualFold(ls[0].name, rs[0].name) && TreesMatch(ls[0], rs[0]) && KidsMatch(ls[1..], rs[1..])
  }

  lemma FirstValues(ls: seq<ValueData>, rs: seq<ValueData>)
    ensures ls != [] && rs != [] ==> (EqualFold(ls[0].name, rs[0].name) <==> ValueKey(ls[0]) == ValueKey(rs[0]))
  {
    if ls != [] && rs != [] {
      FoldedEqual(ls[0].name, rs[0].name);
    }
  }

  lemma FirstKids<K>(ls: seq<Tree<K>>, rs: seq<Tree<K>>)
    ensures ls != [] && rs != [] ==> (EqualFold(ls[0].name, rs[0].name) <==> TreeKey(ls[0]) == TreeKey(rs[0]))
  {
    if ls != [] && rs != [] {
      FoldedEqual(ls[0].name, rs[0].name);
    }
  }

  lemma {:induction false} ValuesMatchEmpty(ls: seq<ValueData>, rs: seq<ValueData>)
    ensures PairDiffs(JoinSorted(ls, rs, ValueKey)) == [] <==> ValuesMatch(ls, rs)
  {
    if ls != [] && rs != [] && ValueKey(ls[0]) == ValueKey(rs[0]) {
      LessIrreflexive(ValueKey(ls[0]));
      ValuesMatchEmpty(ls[1..], rs[1..]);
      PairDiffsFirst(Both(ls[0], rs[0]), JoinSorted(ls[1..], rs[1..], ValueKey));
      SameContentExact(ls[0], rs[0]);
    }
    FirstValues(ls, rs);
  }

  lemma BothEmpty(a: seq<Entry<Path>>, b: seq<Entry<Path>>)
    ensures a + b == [] <==> a == [] && b == []
  {
  }

  /** The entries of the first pairing come first. */
  lemma FirstPair<K>(p: Pairing<Tree<K>>, rest: seq<Pairing<Tree<K>>>, path: Path)
    ensures PairsDiff([p] + rest, path) == Ok([]) <==> KeyPairDiff(p, path) == Ok([]) && PairsDiff(rest, path) == Ok([])
  {
    assert ([p] + rest)[0] == p && ([p] + rest)[1..] == rest;
    if KeyPairDiff(p, path).Ok? && PairsDiff(rest, path).Ok? {
      BothEmpty(KeyPairDiff(p, path).value, PairsDiff(rest, path).value);
    }
  }

  lemma {:induction false} KidsMatchEmpty<K>(ls: seq<Tree<K>>, rs: seq<Tree<K>>, path: Path)
    ensures PairsDiff(JoinSorted(ls, rs, TreeKey), path) == Ok([]) <==> KidsMatch(ls, rs)
    decreases SumSizes(ls), 1
  {
    if ls != [] && rs != [] && TreeKey(ls[0]) == TreeKey(rs[0]) {
      LessIrreflexive(TreeKey(ls[0]));
      MatchIffEmpty(ls[0], rs[0], path + [ls[0].name]);
      KidsMatchEmpty(ls[1..], rs[1..], path);
      FirstPair(Both(ls[0], rs[0]), JoinSorted(ls[1..], rs[1..], TreeKey), path);
    } else if ls != [] || rs != [] {
      var ps := JoinSorted(ls, rs, TreeKey);
      assert !ps[0].Both?;
      FirstPair(ps[0], ps[1..], path);
      assert ps == [ps[0]] + ps[1..];
    }
    FirstKids(ls, rs);
  }

  /** Nothing is reported exactly for trees that match. */
  lemma {:induction false} MatchIffEmpty<K>(l: Tree<K>, r: Tree<K>, path: Path)
    ensures TreeDiff(l, r, path) == Ok([]) <==> TreesMatch(l, r)
    decreases Size(l), 0
  {
    if BothReadable(l, r) {
      SortSize(l.kids);
      ValuesMatchEmpty(Sort(l.values.value, ValueKey), Sort(r.values.value, ValueKey));
      KidsMatchEmpty(Sort(l.kids, TreeKey), Sort(r.kids, TreeKey), path);
      if PairsDiff(KidPairs(l.kids, r.kids), path).Ok? {
        BothEmpty(Modified(path, ValueDiffs(l.values.value, r.values.value)),
                  PairsDiff(KidPairs(l.kids, r.kids), path).value);
      }
    }
  }

  // ----- trees that are alike as they stand -----

  /** The same names and values in the same places, all of them readable. */
  ghost predicate Alike<K>(l: Tree<K>, r: Tree<K>)
    decreases l
  {
    && BothReadable(l, r) && l.name == r.name && l.values == r.values && |l.kids| == |r.kids|
    && forall i | 0 <= i < |l.kids| :: Alike(l.kids[i], r.kids[i])
  }

  ghost predicate AllAlike<K>(ls: seq<Tree<K>>, rs: seq<Tree<K>>) {
    |ls| == |rs| && forall i | 0 <= i < |ls| :: Alike(ls[i], rs[i])
  }

  lemma {:induction false} ValuesMatchThemselves(vs: seq<ValueData>)
    ensures ValuesMatch(vs, vs)
  {
    if vs != [] {
      ValuesMatchThemselves(vs[1..]);
      SameContentExact(vs[0], vs[0]);
    }
  }

  lemma AlikeCons<K>(x: Tree<K>, y: Tree<K>, ls: seq<Tree<K>>, rs: seq<Tree<K>>)
    requires Alike(x, y) && AllAlike(ls, rs)
    ensures AllAlike([x] + ls, [y] + rs)
  {
    forall i | 0 <= i < |[x] + ls| ensures Alike(([x] + ls)[i], ([y] + rs)[i]) {
      if i > 0 {
        assert Alike(ls[i - 1], rs[i - 1]);
      }
    }
  }

  lemma AlikeParts<K>(ls: seq<Tree<K>>, rs: seq<Tree<K>>)
    requires AllAlike(ls, rs) && ls != []
    ensures Alike(ls[0], rs[0]) && TreeKey(ls[0]) == TreeKey(rs[0]) && AllAlike(ls[1..], rs[1..])
  {
    assert Alike(ls[0], rs[0]);
  }

  lemma KeyOfAlike<K>(x: Tree<K>, y: Tree<K>)
    requires Alike(x, y)
    ensures TreeKey(x) == TreeKey(y)
  {
  }

  lemma {:induction false} InsertAlike<K>(x: Tree<K>, y: Tree<K>, ls: seq<Tree<K>>, rs: seq<Tree<K>>)
    requires Alike(x, y) && AllAlike(ls, rs)
    ensures AllAlike(Insert(x, ls, TreeKey), Insert(y, rs, TreeKey))
  {
    KeyOfAlike(x, y);
    if ls != [] {
      AlikeParts(ls, rs);
      if Less(TreeKey(ls[0]), TreeKey(x)) {
        InsertAlike(x, y, ls[1..], rs[1..]);
        AlikeCons(ls[0], rs[0], Insert(x, ls[1..], TreeKey), Insert(y, rs[1..], TreeKey));
      } else {
        AlikeCons(x, y, ls, rs);
      }
    } else {
      AlikeCons(x, y, ls, rs);
    }
  }

  /** The sort is stable, so it treats both lists alike even where names repeat. */
  lemma {:induction false} SortAlike<K>(ls: seq<Tree<K>>, rs: seq<Tree<K>>)
    requires AllAlike(ls, rs)
    ensures AllAlike(Sort(ls, TreeKey), Sort(rs, TreeKey))
  {
    if ls != [] {
      SortAlike(ls[1..], rs[1..]);
      assert Alike(ls[0], rs[0]);
      InsertAlike(ls[0], rs[0], Sort(ls[1..], TreeKey), Sort(rs[1..], TreeKey));
    }
  }

  lemma {:induction false} AllAlikeMatch<K>(ls: seq<Tree<K>>, rs: seq<Tree<K>>)
    requires AllAlike(ls, rs)
    ensures KidsMatch(ls, rs)
    decreases SumSizes(ls), 1
  {
    if ls != [] {
      assert Alike(ls[0], rs[0]);
      AlikeMatch(ls[0], rs[0]);
      AllAlikeMatch(ls[1..], rs[1..]);
    }
  }

  lemma {:induction false} AlikeMatch<K>(l: Tree<K>, r: Tree<K>)
    requires Alike(l, r)
    ensures TreesMatch(l, r)
    decreases Size(l), 0
  {
    ValuesMatchThemselves(Sort(l.values.value, ValueKey));
    SortAlike(l.kids, r.kids);
    SortSize(l.kids);
    AllAlikeMatch(Sort(l.kids, TreeKey), Sort(r.kids, TreeKey));
  }

  lemma SameValuesAgree(vs: seq<ValueData>)
    ensures ValuesAgree(vs, vs)
  {
    forall v | v in vs ensures HasEqual(vs, v) && !NoValueNamed(vs, v.name) {
      SameContentExact(v, v);
      assert EqualFold(v.name, v.name);
    }
  }

  lemma SameNamesPresent<K>(ls: seq<Tree<K>>, rs: seq<Tree<K>>)
    requires AllAlike(ls, rs)
    ensures forall b | b in rs :: !NoTreeNamed(ls, b.name)
  {
    forall b | b in rs ensures !NoTreeNamed(ls, b.name) {
      var i :| 0 <= i < |rs| && rs[i] == b;
      assert Alike(ls[i], rs[i]) && EqualFold(ls[i].name, b.name);
    }
  }

  /** Trees that are alike are equivalent. */
  lemma {:induction false} AlikeEquivalent<K(!new)>(l: Tree<K>, r: Tree<K>)
    requires Alike(l, r)
    ensures Equivalent(l, r)
    decreases l
  {
    SameValuesAgree(l.values.value);
    SameNamesPresent(l.kids, r.kids);
    forall a | a in l.kids ensures exists b :: Corresponding(l, r, a, b) && Equivalent(a, b) {
      var i :| 0 <= i < |l.kids| && l.kids[i] == a;
      assert Alike(l.kids[i], r.kids[i]);
      AlikeEquivalent(a, r.kids[i]);
      assert Corresponding(l, r, a, r.kids[i]);
    }
  }
}
