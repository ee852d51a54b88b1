/** When a comparison of two trees fails, and with which error (`winreg-diff/src/engine.rs`). */
module DiffErrors {
  import opened Wrappers
  import opened Text
  import opened KeyGraphs
  import opened MergeJoin
  import opened Diff
  import opened DiffLaws
  import opened DiffOrder

  /** All keys that are compared can be read: these two, and below them those that correspond. */
  ghost predicate Succeeds<K(!new)>(l: Tree<K>, r: Tree<K>)
    decreases l
  {
    BothReadable(l, r) && forall a, b | Corresponding(l, r, a, b) :: Succeeds(a, b)
  }

  /** The first error: of the values on the left and on the right, of the subkeys on the left and on the right, then of
      the first subkeys, by their upper-cased names, whose comparison fails. */
  ghost predicate Fails<K(!new)>(l: Tree<K>, r: Tree<K>, e: HiveError)
    decreases l
  {
    if l.values.Err? then e == l.values.error
    else if r.values.Err? then e == r.values.error
    else if l.Broken? then e == l.error
    else if r.Broken? then e == r.error
    else exists a, b :: Corresponding(l, r, a, b) && FirstFailing(l, r, a) && Fails(a, b, e)
  }

  /** Subkeys with smaller names compare without error. */
  ghost predicate FirstFailing<K(!new)>(l: Tree<K>, r: Tree<K>, a: Tree<K>)
    requires BothReadable(l, r)
    decreases l, 0
  {
    forall c, d | Corresponding(l, r, c, d) && Less(Upper(c.name), Upper(a.name)) :: Succeeds(c, d)
  }

  lemma RestFails<K>(ps: seq<Pairing<Tree<K>>>, path: Path)
    requires PairsDiff(ps, path).Err?
    ensures ps != []
    ensures if KeyPairDiff(ps[0], path).Err? then KeyPairDiff(ps[0], path) == Err(PairsDiff(ps, path).error)
            else PairsDiff(ps[1..], path) == PairsDiff(ps, path)
  {
  }

  lemma {:induction false} PairsFail<K>(ps: seq<Pairing<Tree<K>>>, path: Path, e: HiveError) returns (i: nat)
    requires PairsDiff(ps, path) == Err(e)
    ensures i < |ps| && KeyPairDiff(ps[i], path) == Err(e)
    ensures forall j | 0 <= j < i :: KeyPairDiff(ps[j], path).Ok?
    decreases |ps|
  {
    RestFails(ps, path);
    i := 0;
    if KeyPairDiff(ps[0], path).Ok? {
      var k := PairsFail(ps[1..], path, e);
      i := k + 1;
      forall j | 0 <= j < i ensures KeyPairDiff(ps[j], path).Ok? {
        assert j > 0 ==> ps[j] == ps[1..][j - 1];
      }
    }
  }

  lemma {:induction false} PairsSucceed<K>(ps: seq<Pairing<Tree<K>>>, path: Path, i: nat)
    requires PairsDiff(ps, path).Ok? && i < |ps|
    ensures KeyPairDiff(ps[i], path).Ok?
  {
    if i > 0 {
      PairsSucceed(ps[1..], path, i - 1);
    }
  }

  /** A smaller name is served earlier. */
  lemma EarlierPair<K>(ps: seq<Pairing<Tree<K>>>, i: nat, j: nat)
    requires KeysIncrease(ps, TreeKey) && i < |ps| && j < |ps| && Less(ps[j].Key(TreeKey), ps[i].Key(TreeKey))
    ensures j < i
  {
    if i < j {
      LessAsymmetric(ps[i].Key(TreeKey), ps[j].Key(TreeKey));
    } else if i == j {
      LessIrreflexive(ps[i].Key(TreeKey));
    }
  }

  lemma PairOf<K(!new)>(l: Tree<K>, r: Tree<K>, ps: seq<Pairing<Tree<K>>>, a: Tree<K>, b: Tree<K>) returns (i: nat)
    requires BothReadable(l, r) && PairsUp(ps, l, r) && Corresponding(l, r, a, b)
    ensures i < |ps| && ps[i] == Both(a, b)
  {
    FoldedEqual(a.name, b.name);
    assert Both(a, b) in ps;
    i :| 0 <= i < |ps| && ps[i] == Both(a, b);
  }

  lemma OfPair<K(!new)>(l: Tree<K>, r: Tree<K>, ps: seq<Pairing<Tree<K>>>, i: nat)
    requires BothReadable(l, r) && PairsUp(ps, l, r) && i < |ps| && ps[i].Both?
    ensures Corresponding(l, r, ps[i].left, ps[i].right)
  {
    assert ps[i] in ps;
    FoldedEqual(ps[i].left.name, ps[i].right.name);
  }

  lemma PairParts<K(!new)>(l: Tree<K>, r: Tree<K>)
    requires BothReadable(l, r) && DistinctNames(l) && DistinctNames(r)
    ensures PairsUp(KidPairs(l.kids, r.kids), l, r) && KeysIncrease(KidPairs(l.kids, r.kids), TreeKey)
  {
    KidPairsUp(l, r);
    KidPairsIncrease(l, r);
  }

  lemma {:induction false} SucceedsExact<K(!new)>(l: Tree<K>, r: Tree<K>, path: Path)
    requires DistinctNames(l) && DistinctNames(r)
    ensures TreeDiff(l, r, path).Ok? <==> Succeeds(l, r)
    decreases l
  {
    if BothReadable(l, r) {
      var ps := KidPairs(l.kids, r.kids);
      PairParts(l, r);
      forall a, b | Corresponding(l, r, a, b) ensures TreeDiff(a, b, path + [a.name]).Ok? <==> Succeeds(a, b) {
        SucceedsExact(a, b, path + [a.name]);
      }
      if PairsDiff(ps, path).Ok? {
        forall a, b | Corresponding(l, r, a, b) ensures Succeeds(a, b) {
          var i := PairOf(l, r, ps, a, b);
          PairsSucceed(ps, path, i);
        }
      } else {
        var i := PairsFail(ps, path, PairsDiff(ps, path).error);
        OfPair(l, r, ps, i);
      }
    }
  }

  lemma FailingPair<K(!new)>(l: Tree<K>, r: Tree<K>, path: Path)
    requires BothReadable(l, r) && DistinctNames(l) && DistinctNames(r)
    requires PairsDiff(KidPairs(l.kids, r.kids), path).Err?
    ensures exists a, b :: Corresponding(l, r, a, b) && FirstFailing(l, r, a)
                           && TreeDiff(a, b, path + [a.name]) == Err(PairsDiff(KidPairs(l.kids, r.kids), path).error)
  {
    var ps := KidPairs(l.kids, r.kids);
    PairParts(l, r);
    var i := PairsFail(ps, path, PairsDiff(ps, path).error);
    OfPair(l, r, ps, i);
    var a, b := ps[i].left, ps[i].right;
    forall c, d | Corresponding(l, r, c, d) && Less(Upper(c.name), Upper(a.name)) ensures Succeeds(c, d) {
      var j := PairOf(l, r, ps, c, d);
      EarlierPair(ps, i, j);
      SucceedsExact(c, d, path + [c.name]);
    }
  }

  lemma {:induction false} FailsWith<K(!new)>(l: Tree<K>, r: Tree<K>, path: Path)
    requires DistinctNames(l) && DistinctNames(r) && TreeDiff(l, r, path).Err?
    ensures Fails(l, r, TreeDiff(l, r, path).error)
    decreases l
  {
    if BothReadable(l, r) {
      var e := PairsDiff(KidPairs(l.kids, r.kids), path).error;
      FailingPair(l, r, path);
      var a, b :| Corresponding(l, r, a, b) && FirstFailing(l, r, a) && TreeDiff(a, b, path + [a.name]) == Err(e);
      FailsWith(a, b, path + [a.name]);
    }
  }

  lemma FirstToFail<K(!new)>(l: Tree<K>, r: Tree<K>, path: Path, a: Tree<K>, b: Tree<K>, e: HiveError)
    requires BothReadable(l, r) && DistinctNames(l) && DistinctNames(r) && Corresponding(l, r, a, b)
    requires FirstFailing(l, r, a) && TreeDiff(a, b, path + [a.name]) == Err(e)
    ensures PairsDiff(KidPairs(l.kids, r.kids), path) == Err(e)
  {
    var ps := KidPairs(l.kids, r.kids);
    PairParts(l, r);
    var i := PairOf(l, r, ps, a, b);
    if PairsDiff(ps, path).Ok? {
      PairsSucceed(ps, path, i);
    }
    var k := PairsFail(ps, path, PairsDiff(ps, path).error);
    if k < i {
      OfPair(l, r, ps, k);
      SucceedsExact(ps[k].left, ps[k].right, path + [ps[k].left.name]);
    }
  }

  lemma {:induction false} FailureReported<K(!new)>(l: Tree<K>, r: Tree<K>, path: Path, e: HiveError)
    requires DistinctNames(l) && DistinctNames(r) && Fails(l, r, e)
    ensures TreeDiff(l, r, path) == Err(e)
    decreases l
  {
    if BothReadable(l, r) {
      var a, b :| Corresponding(l, r, a, b) && FirstFailing(l, r, a) && Fails(a, b, e);
      FailureReported(a, b, path + [a.name], e);
      FirstToFail(l, r, path, a, b, e);
    }
  }

  /** A comparison fails exactly with the first error there is. */
  lemma FailsExact<K(!new)>(l: Tree<K>, r: Tree<K>, path: Path, e: HiveError)
    requires DistinctNames(l) && DistinctNames(r)
    ensures TreeDiff(l, r, path) == Err(e) <==> Fails(l, r, e)
  {
    if TreeDiff(l, r, path) == Err(e) {
      FailsWith(l, r, path);
    }
    if Fails(l, r, e) {
      FailureReported(l, r, path, e);
    }
  }
}
