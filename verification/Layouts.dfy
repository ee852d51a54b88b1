/** The first pass of a build: a cell for every key, value and list (`TestHiveBuilder::build`, step 2, in
    `winreg-testutil/src/lib.rs`). */
module Layouts {
  import opened Bytes
  import opened Sequences
  import opened Text
  import opened Records
  import opened Allocation
  import opened Footprints
  import opened KeyTrees
  import opened Preorders
  import opened ValueLayouts

  // ----- recursion over the tree -----

  ghost predicate Covers(parent: string, children: seq<string>, seen: set<string>) {
    forall i | 0 <= i < |children| :: Child(parent, children[i]) in seen
  }

  /** A set of paths that holds the children of each of its members. */
  ghost predicate Closed(t: KeyTree, seen: set<string>) {
    forall p | p in seen :: p != [] && Covers(p, t.Kids(p), seen)
  }

  lemma {:induction false} ClosedUnion(t: KeyTree, a: set<string>, b: set<string>)
    requires Closed(t, a) && Closed(t, b)
    ensures Closed(t, a + b)
  {
    forall p | p in a + b ensures Covers(p, t.Kids(p), a + b) {
      if p in a {
        assert Covers(p, t.Kids(p), a);
      } else {
        assert Covers(p, t.Kids(p), b);
      }
    }
  }

  /** Adding a child whose own children are covered. */
  lemma {:induction false} ClosedAdd(t: KeyTree, seen: set<string>, p: string)
    requires Closed(t, seen) && p != [] && Covers(p, t.Kids(p), seen)
    ensures Closed(t, seen + {p})
  {
    forall q | q in seen + {p} ensures Covers(q, t.Kids(q), seen + {p}) {
      if q in seen {
        assert Covers(q, t.Kids(q), seen);
      }
    }
  }

  /** Every path of the tree is in every closed set that covers the top level. */
  lemma {:induction false} ClosedHoldsAll(t: KeyTree, keys: seq<string>, values: seq<TestValue>, seen: set<string>,
                                          p: string)
    requires GoodInput(keys, values) && IsTreeOf(t, keys, values)
    requires Closed(t, seen) && Covers([], t.rootChildren, seen) && p in AllPaths(keys, values)
    ensures p in seen
    decreases |p|
  {
    AllPathsParented(keys, values);
    assert HasParent(AllPaths(keys, values), p);
    NameHasNoSep(p);
    WholePath(p);
    KidsOf(t, keys, values, ParentPath(p), NameOf(p));
    if LastSep(p) > 0 {
      ClosedHoldsAll(t, keys, values, seen, ParentPath(p));
      assert Covers(ParentPath(p), t.Kids(ParentPath(p)), seen);
    }
  }

  /** The tree's own paths are such a set. */
  lemma {:induction false} AllClosed(t: KeyTree, keys: seq<string>, values: seq<TestValue>) returns (nodes: set<string>)
    requires GoodInput(keys, values) && IsTreeOf(t, keys, values)
    ensures nodes == (set p | p in AllPaths(keys, values)) && Closed(t, nodes) && Covers([], t.rootChildren, nodes)
  {
    nodes := set p | p in AllPaths(keys, values);
    forall p, i | 0 <= i < |t.Kids(p)| ensures Child(p, t.Kids(p)[i]) in nodes {
      KidsOf(t, keys, values, p, t.Kids(p)[i]);
    }
    AllPathsNotEmpty(keys, values);
    assert t.rootChildren == t.Kids([]);
  }

  // ----- key nodes -----

  /** The body of the node cell for a path, before linking. */
  ghost predicate BodiesFor(bodyOf: string -> Buf, lastWritten: u64) {
    forall parent, n {:trigger bodyOf(Child(parent, n))} | GoodChild(parent, n) ::
      bodyOf(Child(parent, n)) == NodeBody(Utf8(n), false, lastWritten)
  }

  /** Every path is mapped to a node cell. */
  ghost predicate NodesLaid(cells: seq<AllocatedCell>, roles: seq<Role>, ids: map<string, nat>, bodyOf: string -> Buf) {
    forall p | p in ids :: p != [] && Laid(cells, roles, ids[p], NodeRole(p), bodyOf(p))
  }

  lemma {:induction false} NodesGrow(cells: seq<AllocatedCell>, roles: seq<Role>, ids: map<string, nat>,
                                     bodyOf: string -> Buf, more: seq<AllocatedCell>, moreRoles: seq<Role>)
    requires NodesLaid(cells, roles, ids, bodyOf) && cells <= more && roles <= moreRoles && |more| == |moreRoles|
    ensures NodesLaid(more, moreRoles, ids, bodyOf)
  {
  }

  /** The names of the tree fit, if the input is to. */
  ghost predicate NameFits(fits: bool, name: string) {
    fits ==> |Utf8(name)| <= 0xFFFF
  }

  lemma {:induction false} NamesFit(t: KeyTree, fits: bool, p: string, i: nat)
    requires (fits ==> FieldsFit(t)) && i < |t.Kids(p)|
    ensures NameFits(fits, t.Kids(p)[i])
  {
  }

  lemma {:induction false} KidsFit(t: KeyTree, fits: bool, p: string)
    requires fits ==> FieldsFit(t)
    ensures fits ==> |t.Kids(p)| <= 0xFFFF
  {
  }

  /** The cost of a key and of what is below it. */
  lemma SubtreeCost(t: KeyTree, cost: string -> nat, p: string, bound: nat)
    requires |p| <= bound
    ensures Total(cost, Preorder(t, p, bound)) == cost(p) + Total(cost, PreorderBelow(t, p, t.Kids(p), bound))
  {
    TotalAppend(cost, [p], PreorderBelow(t, p, t.Kids(p), bound));
    TotalOne(cost, p);
  }

  lemma {:induction false} NextCost(t: KeyTree, cost: string -> nat, path: string, i: nat, bound: nat)
    requires Bounded(t, bound) && i < |t.Kids(path)| && |path| <= bound
    ensures |Child(path, t.Kids(path)[i])| <= bound
    ensures Total(cost, PreorderBelow(t, path, t.Kids(path)[..i + 1], bound))
         == Total(cost, PreorderBelow(t, path, t.Kids(path)[..i], bound))
           + Total(cost, Preorder(t, Child(path, t.Kids(path)[i]), bound))
  {
    PreorderNext(t, path, i, bound);
    TotalAppend(cost, PreorderBelow(t, path, t.Kids(path)[..i], bound),
                Preorder(t, Child(path, t.Kids(path)[i]), bound));
  }

  method AllocChild(alloc: Allocator, parentPath: string, name: string, before: map<string, nat>,
                    ghost bodyOf: string -> Buf)
    returns (ids: map<string, nat>)
    requires alloc.Valid() && NodesLaid(alloc.cells, alloc.roles, before, bodyOf) && GoodChild(parentPath, name)
    requires BodiesFor(bodyOf, alloc.keyFiletime) && NameFits(alloc.fits, name)
    modifies alloc
    ensures alloc.Valid() && alloc.Grown() && NodesLaid(alloc.cells, alloc.roles, ids, bodyOf)
    ensures ids.Keys == before.Keys + {Child(parentPath, name)} && alloc.pos == old(alloc.pos) + NodeSpace(name)
  {
    var id := alloc.AllocNk(Utf8(name), false, Child(parentPath, name));
    NodesGrow(old(alloc.cells), old(alloc.roles), before, bodyOf, alloc.cells, alloc.roles);
    ids := before[Child(parentPath, name) := id];
  }

  method AllocChildren(alloc: Allocator, t: KeyTree, children: seq<string>, parentPath: string,
                       before: map<string, nat>, ghost bodyOf: string -> Buf, ghost bound: nat,
                       ghost cost: string -> nat)
    returns (ids: map<string, nat>, ghost seen: set<string>)
    requires alloc.Valid() && NodesLaid(alloc.cells, alloc.roles, before, bodyOf)
    requires Bounded(t, bound) && |parentPath| <= bound && children == t.Kids(parentPath)
    requires BodiesFor(bodyOf, alloc.keyFiletime) && NodeCosts(cost) && (alloc.fits ==> FieldsFit(t))
    modifies alloc
    ensures alloc.pos == old(alloc.pos) + Total(cost, PreorderBelow(t, parentPath, children, bound))
    ensures alloc.Valid() && alloc.Grown() && NodesLaid(alloc.cells, alloc.roles, ids, bodyOf)
    ensures before.Keys <= ids.Keys && seen <= ids.Keys && Closed(t, seen) && Covers(parentPath, children, seen)
    decreases bound - |parentPath|, 1
  {
    ids, seen := before, {};
    for i := 0 to |children|
      invariant alloc.Valid() && alloc.Grown() && NodesLaid(alloc.cells, alloc.roles, ids, bodyOf)
      invariant before.Keys <= ids.Keys && seen <= ids.Keys && Closed(t, seen)
                && Covers(parentPath, children[..i], seen)
      invariant alloc.pos == old(alloc.pos) + Total(cost, PreorderBelow(t, parentPath, children[..i], bound))
    {
      NextCost(t, cost, parentPath, i, bound);
      ids, seen := AllocNext(alloc, t, children, i, parentPath, ids, bodyOf, bound, cost, seen);
    }
    assert children[..|children|] == children;
  }

  /** The next child of a key. */
  method AllocNext(alloc: Allocator, t: KeyTree, children: seq<string>, i: nat, parentPath: string,
                   before: map<string, nat>, ghost bodyOf: string -> Buf, ghost bound: nat, ghost cost: string -> nat,
                   ghost seen0: set<string>)
    returns (ids: map<string, nat>, ghost seen: set<string>)
    requires alloc.Valid() && NodesLaid(alloc.cells, alloc.roles, before, bodyOf)
    requires Bounded(t, bound) && |parentPath| <= bound && children == t.Kids(parentPath) && i < |children|
    requires BodiesFor(bodyOf, alloc.keyFiletime) && NodeCosts(cost) && (alloc.fits ==> FieldsFit(t))
    requires seen0 <= before.Keys && Closed(t, seen0) && Covers(parentPath, children[..i], seen0)
    requires |Child(parentPath, children[i])| <= bound
    modifies alloc
    ensures alloc.pos == old(alloc.pos) + Total(cost, Preorder(t, Child(parentPath, children[i]), bound))
    ensures alloc.Valid() && alloc.Grown() && NodesLaid(alloc.cells, alloc.roles, ids, bodyOf)
    ensures before.Keys <= ids.Keys && seen <= ids.Keys && Closed(t, seen)
            && Covers(parentPath, children[..i + 1], seen)
    decreases bound - |parentPath|, 0
  {
    ghost var more;
    LongerThanParent(t, parentPath, i, bound);
    NamesFit(t, alloc.fits, parentPath, i);
    ids, more := AllocSubtree(alloc, t, parentPath, children[i], before, bodyOf, bound, cost);
    seen := SeenMore(t, parentPath, children, i, seen0, more);
  }

  /** A child's cell, and the cells of everything below it. */
  method AllocSubtree(alloc: Allocator, t: KeyTree, parentPath: string, name: string, before: map<string, nat>,
                      ghost bodyOf: string -> Buf, ghost bound: nat, ghost cost: string -> nat)
    returns (ids: map<string, nat>, ghost seen: set<string>)
    requires alloc.Valid() && NodesLaid(alloc.cells, alloc.roles, before, bodyOf)
    requires Bounded(t, bound) && GoodChild(parentPath, name) && |Child(parentPath, name)| <= bound
    requires BodiesFor(bodyOf, alloc.keyFiletime) && NodeCosts(cost) && NameFits(alloc.fits, name)
             && (alloc.fits ==> FieldsFit(t))
    modifies alloc
    ensures alloc.pos == old(alloc.pos) + Total(cost, Preorder(t, Child(parentPath, name), bound))
    ensures alloc.Valid() && alloc.Grown() && NodesLaid(alloc.cells, alloc.roles, ids, bodyOf)
    ensures before.Keys <= ids.Keys && seen <= ids.Keys && Closed(t, seen) && Child(parentPath, name) in seen
    decreases bound - |Child(parentPath, name)|, 2
  {
    var fullPath := Child(parentPath, name);
    SubtreeCost(t, cost, fullPath, bound);
    ids := AllocChild(alloc, parentPath, name, before, bodyOf);
    seen := {};
    if fullPath in t.children && t.children[fullPath] != [] {
      ids, seen := AllocChildren(alloc, t, t.children[fullPath], fullPath, ids, bodyOf, bound, cost);
    }
    ClosedAdd(t, seen, fullPath);
    seen := seen + {fullPath};
  }

  lemma {:induction false} SeenMore(t: KeyTree, parent: string, children: seq<string>, i: nat, seen: set<string>,
                                    more: set<string>) returns (r: set<string>)
    requires i < |children| && Covers(parent, children[..i], seen) && Closed(t, seen) && Closed(t, more)
    requires Child(parent, children[i]) in more
    ensures r == seen + more && Closed(t, r) && Covers(parent, children[..i + 1], r)
  {
    r := seen + more;
    ClosedUnion(t, seen, more);
    forall j | 0 <= j < i + 1 ensures Child(parent, children[j]) in r {
      if j < i {
        assert children[..i][j] == children[j];
      }
    }
  }

  // ----- subkey lists -----

  /** Every path is mapped to an empty list with room for its children. */
  ghost predicate LeavesLaid(cells: seq<AllocatedCell>, roles: seq<Role>, ids: map<string, nat>, t: KeyTree) {
    forall p | p in ids :: Laid(cells, roles, ids[p], LeafRole(p), LeafBody(|t.Kids(p)|))
  }

  /** Every one of these keys that has children has a list. */
  ghost predicate ListedAll(t: KeyTree, seen: set<string>, ids: map<string, nat>) {
    forall p | p in seen && t.Kids(p) != [] :: p in ids
  }

  lemma {:induction false} LeavesGrow(cells: seq<AllocatedCell>, roles: seq<Role>, ids: map<string, nat>, t: KeyTree,
                                      more: seq<AllocatedCell>, moreRoles: seq<Role>)
    requires LeavesLaid(cells, roles, ids, t) && cells <= more && roles <= moreRoles && |more| == |moreRoles|
    ensures LeavesLaid(more, moreRoles, ids, t)
  {
  }

  method AllocLhCells(alloc: Allocator, t: KeyTree, children: seq<string>, parentPath: string, before: map<string, nat>,
                      ghost bound: nat, ghost cost: string -> nat)
    returns (ids: map<string, nat>, ghost seen: set<string>)
    requires alloc.Valid() && LeavesLaid(alloc.cells, alloc.roles, before, t)
    requires Bounded(t, bound) && |parentPath| <= bound && children == t.Kids(parentPath)
    requires LeafCosts(cost, t) && (alloc.fits ==> FieldsFit(t))
    modifies alloc
    ensures alloc.pos == old(alloc.pos) + Total(cost, PreorderBelow(t, parentPath, children, bound))
    ensures alloc.Valid() && alloc.Grown() && LeavesLaid(alloc.cells, alloc.roles, ids, t)
    ensures before.Keys <= ids.Keys && ListedAll(t, seen, ids) && Closed(t, seen) && Covers(parentPath, children, seen)
    decreases bound - |parentPath|, 1
  {
    ids, seen := before, {};
    for i := 0 to |children|
      invariant alloc.Valid() && alloc.Grown() && LeavesLaid(alloc.cells, alloc.roles, ids, t)
      invariant before.Keys <= ids.Keys && ListedAll(t, seen, ids) && Closed(t, seen)
                && Covers(parentPath, children[..i], seen)
      invariant alloc.pos == old(alloc.pos) + Total(cost, PreorderBelow(t, parentPath, children[..i], bound))
    {
      NextCost(t, cost, parentPath, i, bound);
      ids, seen := AllocNextLh(alloc, t, children, i, parentPath, ids, bound, cost, seen);
    }
    assert children[..|children|] == children;
  }

  /** The lists at and below the next child of a key. */
  method AllocNextLh(alloc: Allocator, t: KeyTree, children: seq<string>, i: nat, parentPath: string,
                     before: map<string, nat>, ghost bound: nat, ghost cost: string -> nat, ghost seen0: set<string>)
    returns (ids: map<string, nat>, ghost seen: set<string>)
    requires alloc.Valid() && LeavesLaid(alloc.cells, alloc.roles, before, t)
    requires Bounded(t, bound) && |parentPath| <= bound && children == t.Kids(parentPath) && i < |children|
    requires LeafCosts(cost, t) && (alloc.fits ==> FieldsFit(t))
    requires ListedAll(t, seen0, before) && Closed(t, seen0) && Covers(parentPath, children[..i], seen0)
    requires |Child(parentPath, children[i])| <= bound
    modifies alloc
    ensures alloc.pos == old(alloc.pos) + Total(cost, Preorder(t, Child(parentPath, children[i]), bound))
    ensures alloc.Valid() && alloc.Grown() && LeavesLaid(alloc.cells, alloc.roles, ids, t)
    ensures before.Keys <= ids.Keys && ListedAll(t, seen, ids) && Closed(t, seen)
            && Covers(parentPath, children[..i + 1], seen)
    decreases bound - |parentPath|, 0
  {
    ghost var more;
    LongerThanParent(t, parentPath, i, bound);
    ids, more := AllocLhSubtree(alloc, t, Child(parentPath, children[i]), before, bound, cost);
    seen := SeenMore(t, parentPath, children, i, seen0, more);
  }

  /** The list of a key that has children. */
  method AllocLeaf(alloc: Allocator, t: KeyTree, p: string, before: map<string, nat>) returns (ids: map<string, nat>)
    requires alloc.Valid() && LeavesLaid(alloc.cells, alloc.roles, before, t)
    requires t.Kids(p) != [] && (alloc.fits ==> |t.Kids(p)| <= 0xFFFF)
    modifies alloc
    ensures alloc.Valid() && alloc.Grown() && LeavesLaid(alloc.cells, alloc.roles, ids, t)
    ensures ids.Keys == before.Keys + {p} && alloc.pos == old(alloc.pos) + LeafSpace(|t.Kids(p)|)
  {
    var id := alloc.AllocLh(|t.Kids(p)|, p);
    LeavesGrow(old(alloc.cells), old(alloc.roles), before, t, alloc.cells, alloc.roles);
    ids := before[p := id];
  }

  /** The cost of a key's leaf and of the leaves below it. */
  lemma {:induction false} LeafCost(t: KeyTree, cost: string -> nat, p: string, bound: nat)
    requires LeafCosts(cost, t) && |p| <= bound
    ensures Total(cost, Preorder(t, p, bound))
            == LeafSpace(|t.Kids(p)|) + Total(cost, PreorderBelow(t, p, t.Kids(p), bound))
    ensures t.Kids(p) == [] ==> Total(cost, Preorder(t, p, bound)) == 0
  {
    SubtreeCost(t, cost, p, bound);
  }

  /** The list of a key that has children, and the lists of the keys below it. */
  method AllocLhSubtree(alloc: Allocator, t: KeyTree, fullPath: string, before: map<string, nat>, ghost bound: nat,
                        ghost cost: string -> nat)
    returns (ids: map<string, nat>, ghost seen: set<string>)
    requires alloc.Valid() && LeavesLaid(alloc.cells, alloc.roles, before, t)
    requires Bounded(t, bound) && fullPath != [] && |fullPath| <= bound
    requires LeafCosts(cost, t) && (alloc.fits ==> FieldsFit(t))
    modifies alloc
    ensures alloc.Valid() && alloc.Grown() && LeavesLaid(alloc.cells, alloc.roles, ids, t)
    ensures before.Keys <= ids.Keys && ListedAll(t, seen, ids) && Closed(t, seen) && fullPath in seen
    ensures alloc.pos == old(alloc.pos) + Total(cost, Preorder(t, fullPath, bound))
    decreases bound - |fullPath|, 2
  {
    ids, seen := before, {};
    LeafCost(t, cost, fullPath, bound);
    KidsFit(t, alloc.fits, fullPath);
    if fullPath in t.children && t.children[fullPath] != [] {
      ids := AllocLeaf(alloc, t, fullPath, before);
      ids, seen := AllocLhCells(alloc, t, t.children[fullPath], fullPath, ids, bound, cost);
    }
    ClosedAdd(t, seen, fullPath);
    seen := seen + {fullPath};
  }

  // ----- the whole first pass -----

  /** The cells of a build by what they are for; numbers index `cells`. */
  datatype Layout = Layout(
    cells: seq<AllocatedCell>,
    end: nat,
    skId: nat,
    rootId: nat,
    nkIds: map<string, nat>,
    vkIds: map<string, seq<nat>>,
    listIds: map<string, nat>,
    data: DataCells,
    lhIds: map<string, nat>)

  ghost predicate KeysPlaced(l: Layout, roles: seq<Role>, t: KeyTree, all: seq<string>, bodyOf: string -> Buf,
                             lastWritten: u64)
  {
    && Laid(l.cells, roles, l.skId, SecurityRole, SecurityBody(MINIMAL_DESCRIPTOR))
    && Laid(l.cells, roles, l.rootId, NodeRole([]), NodeBody(Utf8(ROOT_NAME), true, lastWritten))
    && NodesLaid(l.cells, roles, l.nkIds, bodyOf) && (forall p | p in all :: p in l.nkIds)
    && LeavesLaid(l.cells, roles, l.lhIds, t) && (forall p | p in all && t.Kids(p) != [] :: p in l.lhIds)
    && (t.rootChildren != [] ==> [] in l.lhIds)
  }

  ghost predicate ValuesPlaced(l: Layout, roles: seq<Role>, t: KeyTree, paths: seq<string>) {
    && PointersLaid(l.cells, roles, l.data.ids) && LinksLaid(l.cells, roles, l.data.links)
    && KeysLaid(l.cells, roles, l.data, t, l.vkIds, l.listIds, paths)
    && l.listIds.Keys == l.vkIds.Keys <= t.values.Keys && forall p | p in t.values :: p in paths
  }

  lemma RootFits()
    ensures |MINIMAL_DESCRIPTOR| == 20 && |Utf8(ROOT_NAME)| == 8
    ensures CellSpace(40) + CellSpace(84) == ROOT_SPACE
  {
    AsReadShort(ROOT_NAME);
  }

  /** The security descriptor and the root node. */
  method LayOutTop(alloc: Allocator, descriptor: Buf, name: Buf) returns (skId: nat, rootId: nat)
    requires alloc.Valid() && 20 + |descriptor| <= MAX_BODY && |name| <= 0xFFFF
    modifies alloc
    ensures alloc.Valid() && alloc.Grown()
            && alloc.pos == old(alloc.pos) + CellSpace(20 + |descriptor|) + CellSpace(76 + |name|)
    ensures Laid(alloc.cells, alloc.roles, skId, SecurityRole, SecurityBody(descriptor))
    ensures Laid(alloc.cells, alloc.roles, rootId, NodeRole([]), NodeBody(name, true, alloc.keyFiletime))
  {
    skId := alloc.AllocSk(descriptor);
    rootId := alloc.AllocNk(name, true, []);
  }

  method LayOutRoot(alloc: Allocator) returns (skId: nat, rootId: nat)
    requires alloc.Valid()
    modifies alloc
    ensures alloc.Valid() && alloc.Grown() && alloc.pos == old(alloc.pos) + ROOT_SPACE
    ensures Laid(alloc.cells, alloc.roles, skId, SecurityRole, SecurityBody(MINIMAL_DESCRIPTOR))
    ensures Laid(alloc.cells, alloc.roles, rootId, NodeRole([]), NodeBody(Utf8(ROOT_NAME), true, alloc.keyFiletime))
  {
    RootFits();
    skId, rootId := LayOutTop(alloc, MINIMAL_DESCRIPTOR, Utf8(ROOT_NAME));
  }

  method LayOutKeys(alloc: Allocator, t: KeyTree, ghost bodyOf: string -> Buf, ghost bound: nat,
                    ghost cost: string -> nat)
    returns (skId: nat, rootId: nat, nkIds: map<string, nat>, ghost seen: set<string>)
    requires alloc.Valid() && Bounded(t, bound) && BodiesFor(bodyOf, alloc.keyFiletime)
    requires NodeCosts(cost) && (alloc.fits ==> FieldsFit(t))
    modifies alloc
    ensures alloc.Valid()
    ensures alloc.pos == old(alloc.pos) + ROOT_SPACE + Total(cost, PreorderBelow(t, [], t.rootChildren, bound))
    ensures Laid(alloc.cells, alloc.roles, skId, SecurityRole, SecurityBody(MINIMAL_DESCRIPTOR))
    ensures Laid(alloc.cells, alloc.roles, rootId, NodeRole([]), NodeBody(Utf8(ROOT_NAME), true, alloc.keyFiletime))
    ensures NodesLaid(alloc.cells, alloc.roles, nkIds, bodyOf)
    ensures seen <= nkIds.Keys && Closed(t, seen) && Covers([], t.rootChildren, seen)
  {
    skId, rootId := LayOutRoot(alloc);
    ghost var cells, roles := alloc.cells, alloc.roles;
    nkIds, seen := AllocChildren(alloc, t, t.rootChildren, [], map[], bodyOf, bound, cost);
    LaidLater(cells, roles, skId, alloc.cells, alloc.roles);
    LaidLater(cells, roles, rootId, alloc.cells, alloc.roles);
  }

  lemma LaidLater(cells: seq<AllocatedCell>, roles: seq<Role>, id: nat, more: seq<AllocatedCell>, moreRoles: seq<Role>)
    requires id < |cells| == |roles| && cells <= more && roles <= moreRoles
    ensures id < |more| && id < |moreRoles| && more[id] == cells[id] && moreRoles[id] == roles[id]
  {
  }

  method LayOutLists(alloc: Allocator, t: KeyTree, ghost bound: nat, ghost cost: string -> nat)
    returns (lhIds: map<string, nat>, ghost seen: set<string>)
    requires alloc.Valid() && Bounded(t, bound) && LeafCosts(cost, t) && (alloc.fits ==> FieldsFit(t))
    modifies alloc
    ensures alloc.Valid() && alloc.Grown()
    ensures alloc.pos == old(alloc.pos) + LeafSpace(|t.rootChildren|)
            + Total(cost, PreorderBelow(t, [], t.rootChildren, bound))
    ensures LeavesLaid(alloc.cells, alloc.roles, lhIds, t) && (t.rootChildren != [] ==> [] in lhIds)
    ensures ListedAll(t, seen, lhIds) && Closed(t, seen) && Covers([], t.rootChildren, seen)
  {
    lhIds := map[];
    KidsFit(t, alloc.fits, []);
    if t.rootChildren != [] {
      lhIds := AllocLeaf(alloc, t, [], lhIds);
    }
    lhIds, seen := AllocLhCells(alloc, t, t.rootChildren, [], lhIds, bound, cost);
  }

  /** What was laid out before the last lists is still there. */
  lemma {:induction false} AllPlaced(l: Layout, roles: seq<Role>, t: KeyTree, keys: seq<string>, values: seq<TestValue>,
                                     bodyOf: string -> Buf, lastWritten: u64, paths: seq<string>, seen: set<string>,
                                     listed: set<string>, cells1: seq<AllocatedCell>, roles1: seq<Role>,
                                     cells2: seq<AllocatedCell>, roles2: seq<Role>)
    requires GoodInput(keys, values) && IsTreeOf(t, keys, values)
    requires cells1 <= cells2 <= l.cells && roles1 <= roles2 <= roles && |roles1| == |cells1| && |roles2| == |cells2|
             && |roles| == |l.cells|
    requires Laid(cells1, roles1, l.skId, SecurityRole, SecurityBody(MINIMAL_DESCRIPTOR))
    requires Laid(cells1, roles1, l.rootId, NodeRole([]), NodeBody(Utf8(ROOT_NAME), true, lastWritten))
    requires NodesLaid(cells1, roles1, l.nkIds, bodyOf) && LeavesLaid(l.cells, roles, l.lhIds, t)
             && (t.rootChildren != [] ==> [] in l.lhIds)
    requires seen <= l.nkIds.Keys && Closed(t, seen) && Covers([], t.rootChildren, seen)
    requires ListedAll(t, listed, l.lhIds) && Closed(t, listed) && Covers([], t.rootChildren, listed)
    ensures KeysPlaced(l, roles, t, AllPaths(keys, values), bodyOf, lastWritten)
  {
    LaidLater(cells1, roles1, l.skId, l.cells, roles);
    LaidLater(cells1, roles1, l.rootId, l.cells, roles);
    NodesGrow(cells1, roles1, l.nkIds, bodyOf, l.cells, roles);
    forall p | p in AllPaths(keys, values) ensures p in seen && p in listed {
      ClosedHoldsAll(t, keys, values, seen, p);
      ClosedHoldsAll(t, keys, values, listed, p);
    }
  }

  lemma {:induction false} AllValuesPlaced(l: Layout, roles: seq<Role>, t: KeyTree, paths: seq<string>,
                                           cells2: seq<AllocatedCell>, roles2: seq<Role>)
    requires cells2 <= l.cells && roles2 <= roles && |roles2| == |cells2| && |roles| == |l.cells|
    requires PointersLaid(cells2, roles2, l.data.ids) && LinksLaid(cells2, roles2, l.data.links)
    requires KeysLaid(cells2, roles2, l.data, t, l.vkIds, l.listIds, paths)
    requires l.listIds.Keys == l.vkIds.Keys <= t.values.Keys && forall p :: p in paths <==> p in t.values
    ensures ValuesPlaced(l, roles, t, paths)
  {
    PointersGrow(cells2, roles2, l.data.ids, l.cells, roles);
    LinksGrow(cells2, roles2, l.data.links, l.cells, roles);
    KeysGrow(cells2, roles2, l.data, t, l.vkIds, l.listIds, paths, l.cells, roles, l.data);
  }

  /** The cells of all keys, values and lists, and no others: they take exactly the space computed from the input,
      and are small if the input fits. */
  method LayOut(t: KeyTree, lastWritten: u64, ghost keys: seq<string>, ghost values: seq<TestValue>,
                ghost bodyOf: string -> Buf, ghost bound: nat)
    returns (l: Layout, ghost roles: seq<Role>, ghost paths: seq<string>)
    requires GoodInput(keys, values) && IsTreeOf(t, keys, values) && Bounded(t, bound)
    requires BodiesFor(bodyOf, lastWritten)
    ensures Tiled(l.cells, l.end) && |roles| == |l.cells|
    ensures l.end == Footprint(keys, values) && (FieldsFit(t) ==> AllSmall(l.cells))
    ensures KeysPlaced(l, roles, t, AllPaths(keys, values), bodyOf, lastWritten) && ValuesPlaced(l, roles, t, paths)
  {
    ghost var costs := CostsOf(t, keys, values);
    l, roles, paths := LayOutCells(t, lastWritten, keys, values, bodyOf, bound, costs.node, costs.list, costs.leaf);
    FootprintExact(t, keys, values, bound, costs, paths);
  }

  method LayOutCells(t: KeyTree, lastWritten: u64, ghost keys: seq<string>, ghost values: seq<TestValue>,
                     ghost bodyOf: string -> Buf, ghost bound: nat, ghost nodeCost: string -> nat,
                     ghost listCost: string -> nat, ghost leafCost: string -> nat)
    returns (l: Layout, ghost roles: seq<Role>, ghost paths: seq<string>)
    requires GoodInput(keys, values) && IsTreeOf(t, keys, values) && Bounded(t, bound)
    requires BodiesFor(bodyOf, lastWritten) && NodeCosts(nodeCost) && ValueCosts(listCost, t) && LeafCosts(leafCost, t)
    ensures Tiled(l.cells, l.end) && |roles| == |l.cells| && (FieldsFit(t) ==> AllSmall(l.cells))
    ensures l.end == ROOT_SPACE + Total(nodeCost, PreorderBelow(t, [], t.rootChildren, bound)) + Total(listCost, paths)
                     + LeafSpace(|t.rootChildren|) + Total(leafCost, PreorderBelow(t, [], t.rootChildren, bound))
    ensures Distinct(paths) && forall p :: p in paths <==> p in t.values
    ensures KeysPlaced(l, roles, t, AllPaths(keys, values), bodyOf, lastWritten) && ValuesPlaced(l, roles, t, paths)
  {
    var alloc := new Allocator(lastWritten, FieldsFit(t));
    ghost var seen, listed, cells1, roles1, cells2, roles2;
    l, paths, seen, listed, cells1, roles1, cells2, roles2 :=
      LayOutPasses(alloc, t, bodyOf, bound, nodeCost, listCost, leafCost);
    roles := alloc.roles;
    AllPlaced(l, roles, t, keys, values, bodyOf, lastWritten, paths, seen, listed, cells1, roles1, cells2, roles2);
    AllValuesPlaced(l, roles, t, paths, cells2, roles2);
  }

  /** The keys, then the values, then the lists. */
  method LayOutPasses(alloc: Allocator, t: KeyTree, ghost bodyOf: string -> Buf, ghost bound: nat,
                      ghost nodeCost: string -> nat, ghost listCost: string -> nat, ghost leafCost: string -> nat)
    returns (l: Layout, ghost paths: seq<string>, ghost seen: set<string>, ghost listed: set<string>,
             ghost cells1: seq<AllocatedCell>, ghost roles1: seq<Role>, ghost cells2: seq<AllocatedCell>,
             ghost roles2: seq<Role>)
    requires alloc.Valid() && alloc.pos == 0 && Bounded(t, bound)
    requires BodiesFor(bodyOf, alloc.keyFiletime) && (alloc.fits ==> FieldsFit(t))
    requires NodeCosts(nodeCost) && ValueCosts(listCost, t) && LeafCosts(leafCost, t)
    modifies alloc
    ensures alloc.Valid() && l.cells == alloc.cells && l.end == alloc.pos
    ensures l.end == ROOT_SPACE + Total(nodeCost, PreorderBelow(t, [], t.rootChildren, bound)) + Total(listCost, paths)
                     + LeafSpace(|t.rootChildren|) + Total(leafCost, PreorderBelow(t, [], t.rootChildren, bound))
    ensures Distinct(paths) && forall p :: p in paths <==> p in t.values
    ensures cells1 <= cells2 <= l.cells && roles1 <= roles2 <= alloc.roles && |roles1| == |cells1|
            && |roles2| == |cells2|
    ensures Laid(cells1, roles1, l.skId, SecurityRole, SecurityBody(MINIMAL_DESCRIPTOR))
    ensures Laid(cells1, roles1, l.rootId, NodeRole([]), NodeBody(Utf8(ROOT_NAME), true, alloc.keyFiletime))
    ensures NodesLaid(cells1, roles1, l.nkIds, bodyOf) && LeavesLaid(l.cells, alloc.roles, l.lhIds, t)
    ensures t.rootChildren != [] ==> [] in l.lhIds
    ensures seen <= l.nkIds.Keys && Closed(t, seen) && Covers([], t.rootChildren, seen)
    ensures ListedAll(t, listed, l.lhIds) && Closed(t, listed) && Covers([], t.rootChildren, listed)
    ensures PointersLaid(cells2, roles2, l.data.ids) && LinksLaid(cells2, roles2, l.data.links)
    ensures KeysLaid(cells2, roles2, l.data, t, l.vkIds, l.listIds, paths)
            && l.listIds.Keys == l.vkIds.Keys <= t.values.Keys
  {
    var lhIds;
    l, paths, seen, cells1, roles1 := LayOutKeysValues(alloc, t, bodyOf, bound, nodeCost, listCost);
    cells2, roles2 := alloc.cells, alloc.roles;
    lhIds, listed := LayOutLists(alloc, t, bound, leafCost);
    l := l.(cells := alloc.cells, end := alloc.pos, lhIds := lhIds);
  }

  method LayOutKeysValues(alloc: Allocator, t: KeyTree, ghost bodyOf: string -> Buf, ghost bound: nat,
                          ghost nodeCost: string -> nat, ghost listCost: string -> nat)
    returns (l: Layout, ghost paths: seq<string>, ghost seen: set<string>, ghost cells1: seq<AllocatedCell>,
             ghost roles1: seq<Role>)
    requires alloc.Valid() && alloc.pos == 0 && Bounded(t, bound)
    requires BodiesFor(bodyOf, alloc.keyFiletime) && NodeCosts(nodeCost) && ValueCosts(listCost, t)
    requires alloc.fits ==> FieldsFit(t)
    modifies alloc
    ensures alloc.Valid()
    ensures alloc.pos == ROOT_SPACE + Total(nodeCost, PreorderBelow(t, [], t.rootChildren, bound))
            + Total(listCost, paths)
    ensures Distinct(paths) && forall p :: p in paths <==> p in t.values
    ensures cells1 <= alloc.cells && roles1 <= alloc.roles && |roles1| == |cells1|
    ensures Laid(cells1, roles1, l.skId, SecurityRole, SecurityBody(MINIMAL_DESCRIPTOR))
    ensures Laid(cells1, roles1, l.rootId, NodeRole([]), NodeBody(Utf8(ROOT_NAME), true, alloc.keyFiletime))
    ensures NodesLaid(cells1, roles1, l.nkIds, bodyOf)
    ensures seen <= l.nkIds.Keys && Closed(t, seen) && Covers([], t.rootChildren, seen)
    ensures PointersLaid(alloc.cells, alloc.roles, l.data.ids) && LinksLaid(alloc.cells, alloc.roles, l.data.links)
    ensures KeysLaid(alloc.cells, alloc.roles, l.data, t, l.vkIds, l.listIds, paths)
    ensures l.listIds.Keys == l.vkIds.Keys <= t.values.Keys
  {
    var skId, rootId, nkIds, vkIds, listIds, data;
    skId, rootId, nkIds, seen := LayOutKeys(alloc, t, bodyOf, bound, nodeCost);
    cells1, roles1 := alloc.cells, alloc.roles;
    vkIds, listIds, data, paths := AllocValues(alloc, t, listCost);
    l := Layout([], 0, skId, rootId, nkIds, vkIds, listIds, data, map[]);
  }
}
