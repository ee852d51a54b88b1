/** How much space the cells of a build take, computed from the paths and values alone
    (`winreg-testutil/src/lib.rs`). */
module Footprints {
  import opened Sequences
  import opened Text
  import opened Allocation
  import opened KeyTrees
  import opened Preorders
  import opened ValueLayouts

  const ROOT_NAME: string := "CMI-root"

  /** The space of a node with this name. */
  function NodeSpace(name: string): nat { CellSpace(76 + |Utf8(name)|) }

  /** The space of a leaf for so many children: none needs none. */
  function LeafSpace(count: nat): nat {
    if count == 0 then 0 else CellSpace(4 + 8 * count)
  }

  /** The values of a key and their list: no values need none. */
  function ListSpace(vals: seq<TreeValue>): nat {
    if vals == [] then 0 else KeyValuesSpace(vals)
  }

  /** The security descriptor's cell of 48 bytes and the root node's of 88. */
  const ROOT_SPACE: nat := 136

  /** The node of a key, the leaf of its children, and its values. */
  function PathSpace(keys: seq<string>, values: seq<TestValue>, p: string): nat {
    NodeSpace(NameOf(p)) + LeafSpace(|ChildNames(keys, values, p)|) + ListSpace(ValuesAt(values, p))
  }

  function PathsSpace(keys: seq<string>, values: seq<TestValue>, ps: seq<string>): nat {
    if ps == [] then 0 else PathsSpace(keys, values, ps[..|ps| - 1]) + PathSpace(keys, values, ps[|ps| - 1])
  }

  /** The space of all cells: those of the root, then those of every path that is mentioned. */
  function Footprint(keys: seq<string>, values: seq<TestValue>): nat {
    ROOT_SPACE + LeafSpace(|ChildNames(keys, values, [])|) + PathsSpace(keys, values, AllPaths(keys, values))
  }

  // ----- costs by path -----

  ghost predicate NodeCosts(cost: string -> nat) {
    forall parent, n {:trigger cost(Child(parent, n))} | GoodChild(parent, n) :: cost(Child(parent, n)) == NodeSpace(n)
  }

  ghost predicate LeafCosts(cost: string -> nat, t: KeyTree) {
    forall p :: cost(p) == LeafSpace(|t.Kids(p)|)
  }

  /** What each path costs for its node, its leaf and its values. */
  datatype Costs = Costs(node: string -> nat, leaf: string -> nat, list: string -> nat) {
    ghost predicate Of(t: KeyTree) {
      && (forall p :: node(p) == NodeSpace(NameOf(p))) && (forall p :: leaf(p) == LeafSpace(|t.Kids(p)|))
      && (forall p :: list(p) == ListSpace(t.Vals(p)))
    }

    ghost predicate Fits(t: KeyTree) {
      NodeCosts(node) && LeafCosts(leaf, t) && ValueCosts(list, t)
    }
  }

  lemma {:induction false} CostsOf(t: KeyTree, keys: seq<string>, values: seq<TestValue>) returns (costs: Costs)
    requires IsTreeOf(t, keys, values)
    ensures costs.Of(t) && costs.Fits(t)
  {
    costs := Costs(p => NodeSpace(NameOf(p)), p => LeafSpace(|t.Kids(p)|), p => ListSpace(t.Vals(p)));
    forall parent, n | GoodChild(parent, n) ensures costs.node(Child(parent, n)) == NodeSpace(n) {
      ChildParts(parent, n);
    }
    forall p | p in t.values ensures costs.list(p) == KeyValuesSpace(t.values[p]) {
      assert Matches(t, AllPaths(keys, values), values, p);
    }
  }

  // ----- sums over the keys that have values -----

  function Others(whole: seq<string>, part: seq<string>): seq<string> {
    if whole == [] then []
    else
      var x := whole[|whole| - 1];
      Others(whole[..|whole| - 1], part) + if x in part then [] else [x]
  }

  lemma {:induction false} OthersAre(whole: seq<string>, part: seq<string>)
    requires Distinct(whole)
    ensures Distinct(Others(whole, part)) && forall x :: x in Others(whole, part) <==> x in whole && x !in part
  {
    if whole != [] {
      var init, x := whole[..|whole| - 1], whole[|whole| - 1];
      OthersAre(init, part);
      assert whole == init + [x];
    }
  }

  lemma TotalOver(f: string -> nat, part: seq<string>, whole: seq<string>)
    requires Distinct(part) && Distinct(whole) && (forall x | x in part :: x in whole)
    requires forall x | x in whole && x !in part :: f(x) == 0
    ensures Total(f, part) == Total(f, whole)
  {
    var others := Others(whole, part);
    OthersAre(whole, part);
    DistinctConcat(part, others);
    TotalSame(f, part + others, whole);
    TotalAppend(f, part, others);
    TotalZero(f, others);
  }

  lemma {:induction false} ListsOverAll(t: KeyTree, keys: seq<string>, values: seq<TestValue>, cost: string -> nat,
                                        paths: seq<string>)
    requires IsTreeOf(t, keys, values) && forall p :: cost(p) == ListSpace(t.Vals(p))
    requires Distinct(paths) && forall p :: p in paths <==> p in t.values
    ensures Total(cost, paths) == Total(cost, AllPaths(keys, values))
  {
    var all := AllPaths(keys, values);
    AllPathsDistinct(keys, values);
    forall p | p in paths ensures p in all {
      assert Matches(t, all, values, p);
      ValuesMentioned(values, p);
    }
    TotalOver(cost, paths, all);
  }

  lemma {:induction false} ValuesMentioned(values: seq<TestValue>, p: string)
    requires ValuesAt(values, p) != []
    ensures exists v :: v in values && v.keyPath == p
  {
    var n := |values| - 1;
    if values[n].keyPath == p {
      assert values[n] in values;
    } else {
      ValuesMentioned(values[..n], p);
      var v :| v in values[..n] && v.keyPath == p;
      assert v in values;
    }
  }

  // ----- the sum of all costs -----

  lemma {:induction false} CostAt(t: KeyTree, keys: seq<string>, values: seq<TestValue>, costs: Costs, p: string)
    requires IsTreeOf(t, keys, values) && costs.Of(t) && p != []
    ensures costs.node(p) + costs.leaf(p) + costs.list(p) == PathSpace(keys, values, p)
  {
    assert Matches(t, AllPaths(keys, values), values, p);
  }

  lemma {:induction false} SumOfCosts(t: KeyTree, keys: seq<string>, values: seq<TestValue>, costs: Costs,
                                      ps: seq<string>)
    requires IsTreeOf(t, keys, values) && costs.Of(t) && [] !in ps
    ensures Total(costs.node, ps) + Total(costs.leaf, ps) + Total(costs.list, ps) == PathsSpace(keys, values, ps)
  {
    if ps != [] {
      var n := |ps| - 1;
      assert ps[n] in ps;
      SumOfCosts(t, keys, values, costs, ps[..n]);
      CostAt(t, keys, values, costs, ps[n]);
    }
  }

  /** The space that the recursions and the value loop take. */
  function SpaceTaken(t: KeyTree, bound: nat, costs: Costs, paths: seq<string>): nat {
    var visited := PreorderBelow(t, [], t.rootChildren, bound);
    ROOT_SPACE + Total(costs.node, visited) + Total(costs.list, paths)
    + LeafSpace(|t.rootChildren|) + Total(costs.leaf, visited)
  }

  /** What the recursions and the value loop add up to. */
  lemma {:induction false} FootprintExact(t: KeyTree, keys: seq<string>, values: seq<TestValue>, bound: nat,
                                          costs: Costs, paths: seq<string>)
    requires GoodInput(keys, values) && IsTreeOf(t, keys, values) && Bounded(t, bound) && costs.Of(t)
    requires Distinct(paths) && forall p :: p in paths <==> p in t.values
    ensures SpaceTaken(t, bound, costs, paths) == Footprint(keys, values)
  {
    var visited, all := PreorderBelow(t, [], t.rootChildren, bound), AllPaths(keys, values);
    VisitsExact(t, keys, values, bound);
    AllPathsDistinct(keys, values);
    AllPathsNotEmpty(keys, values);
    TotalSame(costs.node, visited, all);
    TotalSame(costs.leaf, visited, all);
    ListsOverAll(t, keys, values, costs.list, paths);
    SumOfCosts(t, keys, values, costs, all);
  }
}
