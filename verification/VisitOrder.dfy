/** The orders in which the iterators visit keys, told by where the keys are in the tree (`winreg-core/src/iter.rs`). */
module VisitOrder {
  import opened Wrappers
  import opened Sequences
  import opened KeyGraphs

  /** What iteration yields for one key: the key, or the error of reading its subkey list. */
  function Outcome<K>(t: Tree<K>): Result<K> {
    match t
    case Node(key, _, _, _) => Ok(key)
    case Broken(_, _, _, e) => Err(e)
  }

  function KidsOf<K>(t: Tree<K>): (kids: seq<Tree<K>>)
    ensures SumSizes(kids) == Size(t) - 1
  {
    match t
    case Node(_, _, _, kids) => kids
    case Broken(_, _, _, _) => []
  }

  // ----- the two orders -----

  /** Each tree of the list in turn, a key before everything below it. */
  function PreOrder<K>(ts: seq<Tree<K>>): seq<Result<K>>
    decreases SumSizes(ts)
  {
    if ts == [] then []
    else
      [Outcome(ts[0])] + PreOrder(KidsOf(ts[0])) + PreOrder(ts[1..])
  }

  function Level<K>(ts: seq<Tree<K>>): (r: seq<Result<K>>)
    ensures |r| == |ts|
  {
    seq(|ts|, i requires 0 <= i < |ts| => Outcome(ts[i]))
  }

  function NextLevel<K>(ts: seq<Tree<K>>): seq<Tree<K>> {
    if ts == [] then [] else KidsOf(ts[0]) + NextLevel(ts[1..])
  }

  lemma {:induction false} NextLevelSize<K>(ts: seq<Tree<K>>)
    ensures SumSizes(NextLevel(ts)) + |ts| == SumSizes(ts)
  {
    if ts != [] {
      NextLevelSize(ts[1..]);
      SumSizesAppend(KidsOf(ts[0]), NextLevel(ts[1..]));
    }
  }

  /** All of one level before any of the next. */
  function LevelOrder<K>(ts: seq<Tree<K>>): seq<Result<K>>
    decreases SumSizes(ts)
  {
    if ts == [] then []
    else
      NextLevelSize(ts);
      Level(ts) + LevelOrder(NextLevel(ts))
  }

  // ----- places in a tree -----

  /** Which child to take, from the top of a list of trees down. */
  type Place = seq<nat>

  ghost predicate InTrees<K>(ts: seq<Tree<K>>, p: Place)
    decreases |p|
  {
    p != [] && p[0] < |ts| && (|p| == 1 || (ts[p[0]].Node? && InTrees(ts[p[0]].kids, p[1..])))
  }

  ghost function TreeAt<K>(ts: seq<Tree<K>>, p: Place): Tree<K>
    requires InTrees(ts, p)
    decreases |p|
  {
    if |p| == 1 then ts[p[0]] else TreeAt(ts[p[0]].kids, p[1..])
  }

  /** A key, or the error of reading what is below it. */
  ghost predicate Shows<K>(t: Tree<K>, r: Result<K>) {
    match t
    case Node(key, _, _, _) => r == Ok(key)
    case Broken(_, _, _, e) => r == Err(e)
  }

  ghost predicate ShowsAt<K>(ts: seq<Tree<K>>, p: Place, r: Result<K>) {
    InTrees(ts, p) && Shows(TreeAt(ts, p), r)
  }

  /** Where two places differ, the one that turns to the earlier child comes first; a place comes before those below. */
  predicate Before(p: Place, q: Place) {
    q != [] && (p == [] || p[0] < q[0] || (p[0] == q[0] && Before(p[1..], q[1..])))
  }

  /** The same among places of one depth; places less deep come before deeper ones. */
  predicate Above(p: Place, q: Place) {
    |p| < |q| || (|p| == |q| && Before(p, q))
  }

  /** Every place once, and what is visited there. */
  ghost predicate VisitsAt<K>(ts: seq<Tree<K>>, ps: seq<Place>, out: seq<Result<K>>) {
    && |out| == |ps|
    && (forall p :: p in ps <==> InTrees(ts, p))
    && forall i | 0 <= i < |ps| :: ShowsAt(ts, ps[i], out[i])
  }

  // ----- depth first -----

  ghost predicate PlacedFrom<K>(ts: seq<Tree<K>>, k: nat, ps: seq<Place>, out: seq<Result<K>>) {
    && |out| == |ps| && (forall i, j | 0 <= i < j < |ps| :: Before(ps[i], ps[j]))
    && (forall p :: p in ps <==> InTrees(ts, p) && p[0] >= k)
    && forall i | 0 <= i < |ps| :: ShowsAt(ts, ps[i], out[i])
  }

  lemma ShowAppend<K>(root: seq<Tree<K>>, ps: seq<Place>, out: seq<Result<K>>, qs: seq<Place>, more: seq<Result<K>>)
    requires |out| == |ps| && forall i | 0 <= i < |ps| :: ShowsAt(root, ps[i], out[i])
    requires |more| == |qs| && forall i | 0 <= i < |qs| :: ShowsAt(root, qs[i], more[i])
    ensures forall i | 0 <= i < |ps + qs| :: ShowsAt(root, (ps + qs)[i], (out + more)[i])
  {
  }

  ghost function Below(k: nat, ps: seq<Place>): (qs: seq<Place>)
    ensures |qs| == |ps| && forall i | 0 <= i < |ps| :: qs[i] == [k] + ps[i]
  {
    seq(|ps|, i requires 0 <= i < |ps| => [k] + ps[i])
  }

  lemma BelowHas(k: nat, ps: seq<Place>, q: Place)
    ensures q in Below(k, ps) <==> q != [] && q[0] == k && q[1..] in ps
  {
    if q in Below(k, ps) {
      var i :| 0 <= i < |ps| && Below(k, ps)[i] == q;
      assert q[1..] == ps[i];
    }
    if q != [] && q[0] == k && q[1..] in ps {
      var i :| 0 <= i < |ps| && ps[i] == q[1..];
      assert Below(k, ps)[i] == q;
    }
  }

  lemma BelowShows<K>(ts: seq<Tree<K>>, k: nat, ps: seq<Place>, out: seq<Result<K>>)
    requires k < |ts| && PlacedFrom(KidsOf(ts[k]), 0, ps, out)
    ensures |out| == |ps| && forall i, j | 0 <= i < j < |ps| :: Before(Below(k, ps)[i], Below(k, ps)[j])
    ensures forall i | 0 <= i < |ps| :: ShowsAt(ts, Below(k, ps)[i], out[i])
  {
    var qs := Below(k, ps);
    forall i | 0 <= i < |ps| ensures qs[i][1..] == ps[i] && ShowsAt(ts, qs[i], out[i]) {
      assert ShowsAt(KidsOf(ts[k]), ps[i], out[i]);
    }
  }

  lemma InBelow<K>(ts: seq<Tree<K>>, k: nat, p: Place)
    requires k < |ts|
    ensures InTrees(ts, p) && p[0] == k <==>
              p == [k] || (p != [] && p[0] == k && InTrees(KidsOf(ts[k]), p[1..]))
  {
    if p != [] && p[0] == k && |p| == 1 {
      assert p == [k];
    }
  }

  /** The places of one tree, then those of the trees after it. */
  lemma FirstTreeFirst<K>(ts: seq<Tree<K>>, k: nat, below: seq<Place>, kidsOut: seq<Result<K>>, later: seq<Place>,
                          laterOut: seq<Result<K>>)
    requires k < |ts| && PlacedFrom(KidsOf(ts[k]), 0, below, kidsOut)
    requires PlacedFrom(ts, k + 1, later, laterOut)
    ensures PlacedFrom(ts, k, [[k]] + Below(k, below) + later, [Outcome(ts[k])] + kidsOut + laterOut)
  {
    var qs := Below(k, below);
    var ps, out := [[k]] + qs + later, [Outcome(ts[k])] + kidsOut + laterOut;
    BelowShows(ts, k, below, kidsOut);
    forall p ensures p in ps <==> InTrees(ts, p) && p[0] >= k {
      BelowHas(k, below, p);
      InBelow(ts, k, p);
      assert p in ps <==> p == [k] || p in qs || p in later;
    }
    forall i, j | 0 <= i < j < |ps| ensures Before(ps[i], ps[j]) {
      if j > |qs| {
        assert later[j - 1 - |qs|] in later;
      }
    }
    assert ShowsAt(ts, [k], Outcome(ts[k]));
    ShowAppend(ts, [[k]], [Outcome(ts[k])], qs, kidsOut);
    ShowAppend(ts, [[k]] + qs, [Outcome(ts[k])] + kidsOut, later, laterOut);
  }

  lemma NoTrees<K>(ts: seq<Tree<K>>, k: nat)
    requires k >= |ts|
    ensures PlacedFrom(ts, k, [], [])
  {
  }

  lemma {:induction false} PreOrderFrom<K>(ts: seq<Tree<K>>, k: nat) returns (ps: seq<Place>)
    requires k <= |ts|
    ensures PlacedFrom(ts, k, ps, PreOrder(ts[k..]))
    decreases SumSizes(ts[k..]), |ts| - k
  {
    ps := [];
    if k == |ts| {
      NoTrees(ts, k);
    } else {
      var kids := KidsOf(ts[k]);
      SuffixHead(ts, k);
      assert kids[0..] == kids;
      var below := PreOrderFrom(kids, 0);
      var later := PreOrderFrom(ts, k + 1);
      FirstTreeFirst(ts, k, below, PreOrder(kids), later, PreOrder(ts[k + 1..]));
      ps := [[k]] + Below(k, below) + later;
    }
  }

  /** Depth first: every place once, one that lies above or turns to an earlier child first. */
  ghost predicate VisitsDeep<K>(t: Tree<K>, out: seq<Result<K>>) {
    exists ps :: VisitsAt([t], ps, out) && forall i, j | 0 <= i < j < |ps| :: Before(ps[i], ps[j])
  }

  lemma PreOrderExact<K>(t: Tree<K>)
    ensures VisitsDeep(t, PreOrder([t]))
  {
    assert [t][0..] == [t];
    var ps := PreOrderFrom([t], 0);
    assert VisitsAt([t], ps, PreOrder([t]));
  }

  // ----- breadth first -----

  /** These trees are those at the places of one depth, in order. */
  ghost predicate IsLevel<K>(root: seq<Tree<K>>, depth: nat, ps: seq<Place>, ts: seq<Tree<K>>) {
    && |ts| == |ps| && (forall i, j | 0 <= i < j < |ps| :: Before(ps[i], ps[j]))
    && (forall p :: p in ps <==> InTrees(root, p) && |p| == depth)
    && forall i | 0 <= i < |ps| :: Holds(root, ps[i], ts[i])
  }

  ghost predicate Holds<K>(root: seq<Tree<K>>, p: Place, t: Tree<K>) {
    InTrees(root, p) && TreeAt(root, p) == t
  }

  lemma {:induction false} ChildPlace<K>(root: seq<Tree<K>>, p: Place, j: nat)
    requires p != []
    ensures InTrees(root, p + [j]) <==> InTrees(root, p) && j < |KidsOf(TreeAt(root, p))|
    ensures InTrees(root, p + [j]) ==> TreeAt(root, p + [j]) == KidsOf(TreeAt(root, p))[j]
    decreases |p|
  {
    if p[0] < |root| {
      assert (p + [j])[1..] == p[1..] + [j];
      if |p| > 1 && root[p[0]].Node? {
        ChildPlace(root[p[0]].kids, p[1..], j);
      }
    }
  }

  lemma {:induction false} BeforeBelow(p: Place, q: Place, a: Place, b: Place)
    requires |p| == |q| && Before(p, q)
    ensures Before(p + a, q + b)
  {
    assert p != [] && (p + a)[0] == p[0] && (q + b)[0] == q[0];
    if p[0] == q[0] {
      assert (p + a)[1..] == p[1..] + a && (q + b)[1..] == q[1..] + b;
      BeforeBelow(p[1..], q[1..], a, b);
    }
  }

  lemma {:induction false} BeforeSibling(p: Place, i: nat, j: nat)
    requires i < j
    ensures Before(p + [i], p + [j])
  {
    if p != [] {
      assert (p + [i])[1..] == p[1..] + [i] && (p + [j])[1..] == p[1..] + [j];
      BeforeSibling(p[1..], i, j);
    } else {
      assert p + [i] == [i] && p + [j] == [j];
    }
  }

  /** The places right below those from `k` on. */
  ghost predicate NextFrom<K>(root: seq<Tree<K>>, ps: seq<Place>, k: nat, qs: seq<Place>, kids: seq<Tree<K>>)
    requires k <= |ps|
  {
    && |kids| == |qs| && (forall i, j | 0 <= i < j < |qs| :: Before(qs[i], qs[j]))
    && (forall q :: q in qs <==> IsNext(root, ps, k, q))
    && forall i | 0 <= i < |qs| :: Holds(root, qs[i], kids[i])
  }

  ghost predicate IsNext<K>(root: seq<Tree<K>>, ps: seq<Place>, k: nat, q: Place)
    requires k <= |ps|
  {
    InTrees(root, q) && q[..|q| - 1] in ps[k..]
  }

  ghost function Children(p: Place, n: nat): (qs: seq<Place>)
    ensures |qs| == n && forall j | 0 <= j < n :: qs[j] == p + [j]
  {
    seq(n, j requires 0 <= j < n => p + [j])
  }

  lemma ChildrenHave<K>(root: seq<Tree<K>>, p: Place, t: Tree<K>, q: Place)
    requires p != [] && Holds(root, p, t)
    ensures q in Children(p, |KidsOf(t)|) <==> InTrees(root, q) && q[..|q| - 1] == p
  {
    var kids := KidsOf(t);
    if q in Children(p, |kids|) {
      var j :| 0 <= j < |kids| && Children(p, |kids|)[j] == q;
      ChildPlace(root, p, j);
      assert q[..|q| - 1] == p;
    }
    if InTrees(root, q) && q[..|q| - 1] == p {
      var j := q[|q| - 1];
      assert q == p + [j];
      ChildPlace(root, p, j);
      assert Children(p, |kids|)[j] == q;
    }
  }

  lemma ChildrenHold<K>(root: seq<Tree<K>>, p: Place, t: Tree<K>)
    requires p != [] && Holds(root, p, t)
    ensures var qs, kids := Children(p, |KidsOf(t)|), KidsOf(t);
            && (forall i, j | 0 <= i < j < |qs| :: Before(qs[i], qs[j]))
            && forall i | 0 <= i < |qs| :: Holds(root, qs[i], kids[i])
  {
    var n := |KidsOf(t)|;
    forall i, j | 0 <= i < j < n ensures Before(Children(p, n)[i], Children(p, n)[j]) {
      BeforeSibling(p, i, j);
    }
    forall i | 0 <= i < n ensures Holds(root, Children(p, n)[i], KidsOf(t)[i]) {
      ChildPlace(root, p, i);
    }
  }

  /** The children of the place `k` come before those of the places after it. */
  lemma ChildrenFirst<K>(root: seq<Tree<K>>, ps: seq<Place>, k: nat, q: Place, later: Place)
    requires k < |ps| && forall i, j | 0 <= i < j < |ps| :: |ps[i]| == |ps[j]| && Before(ps[i], ps[j])
    requires q != [] && q[..|q| - 1] == ps[k] && later != [] && later[..|later| - 1] in ps[k + 1..]
    ensures Before(q, later)
  {
    var i :| 0 <= i < |ps[k + 1..]| && ps[k + 1..][i] == later[..|later| - 1];
    assert ps[k + 1 + i] == later[..|later| - 1];
    assert q == ps[k] + [q[|q| - 1]] && later == ps[k + 1 + i] + [later[|later| - 1]];
    BeforeBelow(ps[k], ps[k + 1 + i], [q[|q| - 1]], [later[|later| - 1]]);
  }

  lemma NextHas<K>(root: seq<Tree<K>>, ps: seq<Place>, k: nat, t: Tree<K>, q: Place)
    requires k < |ps| && ps[k] != [] && Holds(root, ps[k], t)
    ensures IsNext(root, ps, k, q) <==> q in Children(ps[k], |KidsOf(t)|) || IsNext(root, ps, k + 1, q)
  {
    SuffixHead(ps, k);
    ChildrenHave(root, ps[k], t, q);
  }

  lemma NextOrdered<K>(root: seq<Tree<K>>, ps: seq<Place>, k: nat, t: Tree<K>, later: seq<Place>)
    requires k < |ps| && forall i, j | 0 <= i < j < |ps| :: |ps[i]| == |ps[j]| && Before(ps[i], ps[j])
    requires ps[k] != [] && Holds(root, ps[k], t) && forall q | q in later :: IsNext(root, ps, k + 1, q)
    ensures forall q, r | q in Children(ps[k], |KidsOf(t)|) && r in later :: Before(q, r)
  {
    forall q, r | q in Children(ps[k], |KidsOf(t)|) && r in later ensures Before(q, r) {
      ChildrenHave(root, ps[k], t, q);
      assert IsNext(root, ps, k + 1, r);
      ChildrenFirst(root, ps, k, q, r);
    }
  }

  lemma HoldAppend<K>(root: seq<Tree<K>>, qs: seq<Place>, kids: seq<Tree<K>>, later: seq<Place>,
                      laterKids: seq<Tree<K>>)
    requires |kids| == |qs| && forall i | 0 <= i < |qs| :: Holds(root, qs[i], kids[i])
    requires |laterKids| == |later| && forall i | 0 <= i < |later| :: Holds(root, later[i], laterKids[i])
    ensures forall i | 0 <= i < |qs + later| :: Holds(root, (qs + later)[i], (kids + laterKids)[i])
  {
  }

  lemma NextFirst<K>(root: seq<Tree<K>>, ps: seq<Place>, k: nat, t: Tree<K>, later: seq<Place>, laterKids: seq<Tree<K>>)
    requires k < |ps| && forall i, j | 0 <= i < j < |ps| :: |ps[i]| == |ps[j]| && Before(ps[i], ps[j])
    requires ps[k] != [] && Holds(root, ps[k], t) && NextFrom(root, ps, k + 1, later, laterKids)
    ensures NextFrom(root, ps, k, Children(ps[k], |KidsOf(t)|) + later, KidsOf(t) + laterKids)
  {
    var qs := Children(ps[k], |KidsOf(t)|);
    ChildrenHold(root, ps[k], t);
    forall q ensures q in qs + later <==> IsNext(root, ps, k, q) {
      NextHas(root, ps, k, t, q);
      assert q in qs + later <==> q in qs || q in later;
    }
    NextOrdered(root, ps, k, t, later);
    AppendOrdered(qs, later);
    HoldAppend(root, qs, KidsOf(t), later, laterKids);
  }

  lemma SameDepth<K>(root: seq<Tree<K>>, depth: nat, ps: seq<Place>, ts: seq<Tree<K>>)
    requires IsLevel(root, depth, ps, ts)
    ensures forall i | 0 <= i < |ps| :: |ps[i]| == depth
  {
    forall i | 0 <= i < |ps| ensures |ps[i]| == depth {
      assert ps[i] in ps;
    }
  }

  lemma AppendOrdered(a: seq<Place>, b: seq<Place>)
    requires forall i, j | 0 <= i < j < |a| :: Before(a[i], a[j])
    requires forall i, j | 0 <= i < j < |b| :: Before(b[i], b[j])
    requires forall q, r | q in a && r in b :: Before(q, r)
    ensures forall i, j | 0 <= i < j < |a + b| :: Before((a + b)[i], (a + b)[j])
  {
    forall i, j | 0 <= i < j < |a + b| ensures Before((a + b)[i], (a + b)[j]) {
      if i < |a| <= j {
        assert a[i] in a && b[j - |a|] in b;
      }
    }
  }

  lemma {:induction false} NextPlaces<K>(root: seq<Tree<K>>, depth: nat, ps: seq<Place>, ts: seq<Tree<K>>, k: nat)
    returns (qs: seq<Place>)
    requires depth > 0 && IsLevel(root, depth, ps, ts) && k <= |ps|
    ensures NextFrom(root, ps, k, qs, NextLevel(ts[k..]))
    decreases |ps| - k
  {
    qs := [];
    if k < |ps| {
      SuffixHead(ts, k);
      SameDepth(root, depth, ps, ts);
      assert Holds(root, ps[k], ts[k]);
      var later := NextPlaces(root, depth, ps, ts, k + 1);
      NextFirst(root, ps, k, ts[k], later, NextLevel(ts[k + 1..]));
      qs := Children(ps[k], |KidsOf(ts[k])|) + later;
    }
  }

  lemma {:induction false} PrefixPlace<K>(root: seq<Tree<K>>, q: Place)
    requires InTrees(root, q) && |q| > 1
    ensures InTrees(root, q[..|q| - 1])
  {
    var p := q[..|q| - 1];
    assert q == p + [q[|q| - 1]];
    ChildPlace(root, p, q[|q| - 1]);
  }

  lemma NextIsLevel<K>(root: seq<Tree<K>>, depth: nat, ps: seq<Place>, ts: seq<Tree<K>>) returns (qs: seq<Place>)
    requires depth > 0 && IsLevel(root, depth, ps, ts)
    ensures IsLevel(root, depth + 1, qs, NextLevel(ts))
  {
    assert ts[0..] == ts && ps[0..] == ps;
    qs := NextPlaces(root, depth, ps, ts, 0);
    forall q ensures q in qs <==> InTrees(root, q) && |q| == depth + 1 {
      if InTrees(root, q) && |q| == depth + 1 {
        PrefixPlace(root, q);
      }
      assert q in qs <==> IsNext(root, ps, 0, q);
    }
  }

  /** Every place from this depth on, level by level. */
  ghost predicate PlacedBelow<K>(root: seq<Tree<K>>, depth: nat, ps: seq<Place>, out: seq<Result<K>>) {
    && |out| == |ps| && (forall i, j | 0 <= i < j < |ps| :: Above(ps[i], ps[j]))
    && (forall p :: p in ps <==> InTrees(root, p) && |p| >= depth)
    && forall i | 0 <= i < |ps| :: ShowsAt(root, ps[i], out[i])
  }

  lemma LevelAbove<K>(root: seq<Tree<K>>, depth: nat, ps: seq<Place>, ts: seq<Tree<K>>, deeper: seq<Place>)
    requires IsLevel(root, depth, ps, ts) && forall i, j | 0 <= i < j < |deeper| :: Above(deeper[i], deeper[j])
    requires forall p | p in deeper :: |p| > depth
    ensures forall i, j | 0 <= i < j < |ps + deeper| :: Above((ps + deeper)[i], (ps + deeper)[j])
  {
    SameDepth(root, depth, ps, ts);
    forall i, j | 0 <= i < j < |ps + deeper| ensures Above((ps + deeper)[i], (ps + deeper)[j]) {
      if i < |ps| <= j {
        assert deeper[j - |ps|] in deeper;
      }
    }
  }

  lemma LevelShows<K>(root: seq<Tree<K>>, depth: nat, ps: seq<Place>, ts: seq<Tree<K>>)
    requires IsLevel(root, depth, ps, ts)
    ensures forall i | 0 <= i < |ps| :: ShowsAt(root, ps[i], Level(ts)[i])
  {
    forall i | 0 <= i < |ps| ensures ShowsAt(root, ps[i], Level(ts)[i]) {
      assert Holds(root, ps[i], ts[i]);
    }
  }

  lemma LevelFirst<K>(root: seq<Tree<K>>, depth: nat, ps: seq<Place>, ts: seq<Tree<K>>, deeper: seq<Place>,
                      out: seq<Result<K>>)
    requires IsLevel(root, depth, ps, ts) && PlacedBelow(root, depth + 1, deeper, out)
    ensures PlacedBelow(root, depth, ps + deeper, Level(ts) + out)
  {
    LevelAbove(root, depth, ps, ts, deeper);
    LevelShows(root, depth, ps, ts);
    ShowAppend(root, ps, Level(ts), deeper, out);
    forall p ensures p in ps + deeper <==> InTrees(root, p) && |p| >= depth {
      assert p in ps + deeper <==> p in ps || p in deeper;
    }
  }

  lemma {:induction false} NoneDeeper<K>(root: seq<Tree<K>>, depth: nat, p: Place)
    requires depth > 0 && forall q :: !(InTrees(root, q) && |q| == depth)
    ensures !(InTrees(root, p) && |p| >= depth)
  {
    if InTrees(root, p) && |p| > depth {
      PrefixPlace(root, p);
      NoneDeeper(root, depth, p[..|p| - 1]);
    }
  }

  lemma {:induction false} LevelOrderFrom<K>(root: seq<Tree<K>>, depth: nat, ps: seq<Place>, ts: seq<Tree<K>>)
    returns (all: seq<Place>)
    requires depth > 0 && IsLevel(root, depth, ps, ts)
    ensures PlacedBelow(root, depth, all, LevelOrder(ts))
    decreases SumSizes(ts)
  {
    if ts == [] {
      all := [];
      forall q ensures !(InTrees(root, q) && |q| == depth) {
        assert q !in ps;
      }
      forall p ensures !(InTrees(root, p) && |p| >= depth) {
        NoneDeeper(root, depth, p);
      }
    } else {
      NextLevelSize(ts);
      var qs := NextIsLevel(root, depth, ps, ts);
      var deeper := LevelOrderFrom(root, depth + 1, qs, NextLevel(ts));
      LevelFirst(root, depth, ps, ts, deeper, LevelOrder(NextLevel(ts)));
      all := ps + deeper;
    }
  }

  /** Breadth first: every place once, less deep ones first, and among those of one depth the one that turns to an
      earlier child. */
  ghost predicate VisitsWide<K>(t: Tree<K>, out: seq<Result<K>>) {
    exists ps :: VisitsAt([t], ps, out) && forall i, j | 0 <= i < j < |ps| :: Above(ps[i], ps[j])
  }

  lemma LevelOrderExact<K>(t: Tree<K>)
    ensures VisitsWide(t, LevelOrder([t]))
  {
    forall p ensures p in [[0]] <==> InTrees([t], p) && |p| == 1 {
      if InTrees([t], p) && |p| == 1 {
        assert p == [0];
      }
    }
    assert IsLevel([t], 1, [[0]], [t]);
    var ps := LevelOrderFrom([t], 1, [[0]], [t]);
    assert VisitsAt([t], ps, LevelOrder([t]));
  }
}
