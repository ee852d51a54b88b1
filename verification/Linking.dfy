/** The second pass of a build: writing cell offsets into the links between cells
    (`TestHiveBuilder::build`, step 4, in `winreg-testutil/src/lib.rs`). */
module Linking {
  import opened Wrappers
  import opened Bytes
  import opened Text
  import opened Cells
  import opened Records
  import opened Allocation
  import opened KeyTrees
  import opened Preorders
  import opened Layouts
  import opened Images

  /** The offset by which other cells refer to cell `id`. */
  function Offset(cells: seq<AllocatedCell>, id: nat): u32 {
    if id < |cells| then CellOffset(cells[id]) else 0
  }

  function NodeId(l: Layout, path: string): nat {
    if path == [] then l.rootId else if path in l.nkIds then l.nkIds[path] else 0
  }

  // ----- what a pass leaves alone -----

  /** The kinds of cells; each pass writes to cells of its own kind. */
  function Kind(r: Role): nat {
    match r
    case SecurityRole => 0
    case NodeRole(p) => if p == [] then 6 else 1
    case ValueRole(_, _) => 2
    case ListRole(_) => 3
    case LeafRole(_) => 4
    case DataRole => 5
    case BigRole(_) => 7
    case SegmentListRole(_) => 8
  }

  /** Only bodies of cells of this kind have changed. */
  ghost predicate OnlyKind(before: seq<Buf>, after: seq<Buf>, roles: seq<Role>, kind: nat) {
    && |before| == |after| == |roles|
    && forall i | 0 <= i < |roles| && Kind(roles[i]) != kind :: after[i] == before[i]
  }

  // ----- progress over cells that are found by path -----

  /** Different paths have different cells. */
  ghost predicate OneToOne(ids: map<string, nat>) {
    forall p, q | p in ids && q in ids && ids[p] == ids[q] :: p == q
  }

  /** Each of these cells has its body from before the pass, or the one it is to get. */
  ghost predicate Progress(bodies: seq<Buf>, ids: map<string, nat>, start: string -> Buf, goal: string -> Buf) {
    forall p | p in ids :: ids[p] < |bodies| && (bodies[ids[p]] == start(p) || bodies[ids[p]] == goal(p))
  }

  ghost predicate Finished(bodies: seq<Buf>, ids: map<string, nat>, goal: string -> Buf, seen: set<string>) {
    forall p | p in seen && p in ids :: ids[p] < |bodies| && bodies[ids[p]] == goal(p)
  }

  /** Finishing one more cell. */
  lemma {:induction false} FinishOne(bodies: seq<Buf>, after: seq<Buf>, ids: map<string, nat>, start: string -> Buf,
                                     goal: string -> Buf, p: string, seen: set<string>)
    requires OneToOne(ids) && Progress(bodies, ids, start, goal) && p in ids && after == bodies[ids[p] := goal(p)]
    requires Finished(bodies, ids, goal, seen)
    ensures Progress(after, ids, start, goal) && Finished(after, ids, goal, seen + {p})
  {
    forall q | q in seen + {p} && q in ids ensures after[ids[q]] == goal(q) {
      assert ids[q] == ids[p] ==> q == p;
    }
  }

  // ----- key nodes -----

  function SubkeyLinks(l: Layout, t: KeyTree, path: string): Option<(u32, u32)> {
    if t.Kids(path) != [] && path in l.lhIds then Some((Offset(l.cells, l.lhIds[path]), AsU32(|t.Kids(path)|)))
       else None
  }

  function ValueLinks(l: Layout, path: string): Option<(u32, u32)> {
    if path in l.vkIds && l.vkIds[path] != [] && path in l.listIds then
      Some((Offset(l.cells, l.listIds[path]), AsU32(|l.vkIds[path]|)))
    else None
  }

  /** The links of a key below `parent`. */
  function LinksOf(l: Layout, t: KeyTree, parent: string, path: string): Links {
    Links(Offset(l.cells, NodeId(l, parent)), Offset(l.cells, l.skId), SubkeyLinks(l, t, path), ValueLinks(l, path))
  }

  /** What each node is to become. */
  ghost predicate NodeGoals(l: Layout, t: KeyTree, start: string -> Buf, goal: string -> Buf) {
    forall parent, n {:trigger goal(Child(parent, n))} | GoodChild(parent, n) ::
      |start(Child(parent, n))| >= 48 && goal(Child(parent, n))
        == LinkedBody(start(Child(parent, n)), LinksOf(l, t, parent, Child(parent, n)))
  }

  ghost predicate AllOfKind(ids: map<string, nat>, roles: seq<Role>, kind: nat) {
    forall p | p in ids :: ids[p] < |roles| && Kind(roles[ids[p]]) == kind
  }

  /** Offset and count of a list, if there is one. */
  method PatchList(img: Image, id: nat, list: nat, count: nat, entry: Option<(u32, u32)>)
    requires img.Valid() && id < |img.cells| && id < |img.bodies| && list + 4 <= |img.bodies[id]|
             && count + 4 <= |img.bodies[id]|
    modifies img, img.buf
    ensures img.Valid() && img.bodies == old(img.bodies)[id := PutList(old(img.bodies)[id], list, count, entry)]
  {
    if entry.Some? {
      img.Patch(id, list, entry.value.0);
      img.Patch(id, count, entry.value.1);
    } else {
      assert img.bodies == old(img.bodies)[id := old(img.bodies)[id]];
    }
  }

  /** Writes the links of a node, whether or not they were written before. */
  method LinkNode(img: Image, id: nat, w: Links, ghost start: Buf)
    requires img.Valid() && id < |img.cells| && id < |img.bodies| && |start| >= 48
    requires img.bodies[id] == start || img.bodies[id] == LinkedBody(start, w)
    modifies img, img.buf
    ensures img.Valid() && img.bodies == old(img.bodies)[id := LinkedBody(start, w)]
  {
    LinkedTwice(start, w);
    ghost var bodies, b := img.bodies, img.bodies[id];
    img.Patch(id, NK_PARENT, w.parent);
    img.Patch(id, NK_SECURITY, w.security);
    PatchList(img, id, NK_SUBKEYS_LIST, NK_SUBKEY_COUNT, w.subkeys);
    PatchList(img, id, NK_VALUES_LIST, NK_VALUE_COUNT, w.values);
    assert img.bodies == bodies[id := LinkedBody(b, w)];
  }

  method LinkChildren(img: Image, l: Layout, t: KeyTree, children: seq<string>, parentPath: string,
                      ghost nodes: set<string>, ghost start: string -> Buf, ghost goal: string -> Buf,
                      ghost roles: seq<Role>, ghost bound: nat, ghost before: set<string>)
    returns (ghost seen: set<string>)
    requires img.Valid() && img.cells == l.cells && |roles| == |l.cells| == |img.bodies|
    requires OneToOne(l.nkIds) && AllOfKind(l.nkIds, roles, 1) && NodeGoals(l, t, start, goal)
    requires Progress(img.bodies, l.nkIds, start, goal) && Finished(img.bodies, l.nkIds, goal, before)
    requires Bounded(t, bound) && |parentPath| <= bound && children == t.Kids(parentPath)
    requires nodes <= l.nkIds.Keys && Closed(t, nodes) && Covers(parentPath, children, nodes)
    modifies img, img.buf
    ensures img.Valid() && OnlyKind(old(img.bodies), img.bodies, roles, 1)
    ensures Progress(img.bodies, l.nkIds, start, goal) && Finished(img.bodies, l.nkIds, goal, before + seen)
    ensures Closed(t, seen) && Covers(parentPath, children, seen)
    decreases bound - |parentPath|, 0
  {
    seen := {};
    assert before + seen == before;
    for i := 0 to |children|
      invariant img.Valid() && OnlyKind(old(img.bodies), img.bodies, roles, 1)
      invariant Progress(img.bodies, l.nkIds, start, goal) && Finished(img.bodies, l.nkIds, goal, before + seen)
      invariant Closed(t, seen) && Covers(parentPath, children[..i], seen)
    {
      ghost var more := LinkSubtree(img, l, t, parentPath, children[i], nodes, start, goal, roles, bound,
                                    before + seen);
      ghost var was := seen;
      seen := SeenMore(t, parentPath, children, i, seen, more);
      assert before + was + more == before + seen;
    }
    assert children[..|children|] == children;
  }

  method LinkSubtree(img: Image, l: Layout, t: KeyTree, parentPath: string, name: string, ghost nodes: set<string>,
                     ghost start: string -> Buf, ghost goal: string -> Buf, ghost roles: seq<Role>, ghost bound: nat,
                     ghost before: set<string>)
    returns (ghost seen: set<string>)
    requires img.Valid() && img.cells == l.cells && |roles| == |l.cells| == |img.bodies|
    requires OneToOne(l.nkIds) && AllOfKind(l.nkIds, roles, 1) && NodeGoals(l, t, start, goal)
    requires Progress(img.bodies, l.nkIds, start, goal) && Finished(img.bodies, l.nkIds, goal, before)
    requires Bounded(t, bound) && GoodChild(parentPath, name) && |Child(parentPath, name)| <= bound
    requires nodes <= l.nkIds.Keys && Closed(t, nodes) && Child(parentPath, name) in nodes
    modifies img, img.buf
    ensures img.Valid() && OnlyKind(old(img.bodies), img.bodies, roles, 1)
    ensures Progress(img.bodies, l.nkIds, start, goal) && Finished(img.bodies, l.nkIds, goal, before + seen)
    ensures Closed(t, seen) && Child(parentPath, name) in seen
    decreases bound - |Child(parentPath, name)|, 1
  {
    var fullPath := Child(parentPath, name);
    var id := l.nkIds[fullPath];
    ghost var linked := goal(Child(parentPath, name));
    assert linked == LinkedBody(start(fullPath), LinksOf(l, t, parentPath, fullPath));
    LinkNode(img, id, LinksOf(l, t, parentPath, fullPath), start(fullPath));
    FinishOne(old(img.bodies), img.bodies, l.nkIds, start, goal, fullPath, before);
    seen := {};
    assert before + {fullPath} + seen == before + {fullPath};
    if fullPath in t.children && t.children[fullPath] != [] {
      seen := LinkChildren(img, l, t, t.children[fullPath], fullPath, nodes, start, goal, roles, bound,
                           before + {fullPath});
    }
    ClosedAdd(t, seen, fullPath);
    assert before + {fullPath} + seen == before + (seen + {fullPath});
    seen := seen + {fullPath};
  }

  // ----- subkey lists -----

  /** `lh_hash` of a name. */
  function NameHash(n: string): u32 {
    HashOf(Utf8(Upper(n)))
  }

  function ElementOf(l: Layout, path: string, n: string): LhElement {
    LhElement(Offset(l.cells, NodeId(l, Child(path, n))), NameHash(n))
  }

  /** The list elements for the children of `path`. */
  function ElementsOf(l: Layout, path: string, children: seq<string>): (es: seq<LhElement>)
    ensures |es| == |children|
    ensures forall k | 0 <= k < |children| :: es[k] == ElementOf(l, path, children[k])
  {
    seq(|children|, k requires 0 <= k < |children| => ElementOf(l, path, children[k]))
  }

  ghost predicate LeafGoals(l: Layout, t: KeyTree, start: string -> Buf, goal: string -> Buf) {
    forall p {:trigger goal(p)} ::
      |start(p)| == 4 + 8 * |t.Kids(p)| && goal(p) == PutElements(start(p), ElementsOf(l, p, t.Kids(p)))
  }

  lemma {:induction false} PutElementsMore(b: Buf, es: seq<LhElement>, i: nat)
    requires i < |es| && 4 + 8 * |es| <= |b|
    ensures PutElements(b, es[..i + 1]) == PutElement(PutElements(b, es[..i]), i, es[i])
  {
    assert es[..i + 1][..i] == es[..i];
  }

  method PatchElement(img: Image, id: nat, k: nat, e: LhElement)
    requires img.Valid() && id < |img.cells| && id < |img.bodies| && 12 + 8 * k <= |img.bodies[id]|
    modifies img, img.buf
    ensures img.Valid() && img.bodies == old(img.bodies)[id := PutElement(old(img.bodies)[id], k, e)]
  {
    img.Patch(id, 4 + 8 * k, e.keyOffset);
    img.Patch(id, 8 + 8 * k, e.nameHash);
  }

  method MakeElement(l: Layout, path: string, n: string) returns (e: LhElement)
    requires Child(path, n) != [] && Child(path, n) in l.nkIds && l.nkIds[Child(path, n)] < |l.cells|
    ensures e == ElementOf(l, path, n)
  {
    var nkId := l.nkIds[Child(path, n)];
    var hash := LhHash(n);
    e := LhElement(CellOffset(l.cells[nkId]), hash);
  }

  /** These children have node cells. */
  ghost predicate HaveNodes(l: Layout, path: string, children: seq<string>) {
    forall i | 0 <= i < |children| ::
      Child(path, children[i]) != [] && Child(path, children[i]) in l.nkIds
        && l.nkIds[Child(path, children[i])] < |l.cells|
  }

  method WriteElements(img: Image, l: Layout, id: nat, children: seq<string>, path: string)
    requires img.Valid() && id < |img.cells| && id < |img.bodies| && HaveNodes(l, path, children)
    requires 4 + 8 * |children| <= |img.bodies[id]|
    modifies img, img.buf
    ensures img.Valid() && img.bodies == old(img.bodies)[id :=
              PutElements(old(img.bodies)[id], ElementsOf(l, path, children))]
  {
    ghost var es, bodies, b := ElementsOf(l, path, children), img.bodies, img.bodies[id];
    assert bodies == bodies[id := b];
    for i := 0 to |children|
      invariant img.Valid() && img.bodies == bodies[id := PutElements(b, es[..i])]
    {
      var e := MakeElement(l, path, children[i]);
      PatchElement(img, id, i, e);
      PutElementsMore(b, es, i);
    }
    assert es[..|children|] == es;
  }

  /** `fill_lh`: fills a subkey list, whether or not it was filled before. */
  method FillLh(img: Image, l: Layout, id: nat, children: seq<string>, path: string, ghost start: Buf)
    requires img.Valid() && id < |img.cells| && id < |img.bodies| && HaveNodes(l, path, children)
    requires |start| == 4 + 8 * |children|
    requires img.bodies[id] == start || img.bodies[id] == PutElements(start, ElementsOf(l, path, children))
    modifies img, img.buf
    ensures img.Valid() && img.bodies == old(img.bodies)[id := PutElements(start, ElementsOf(l, path, children))]
  {
    PutElementsTwice(start, ElementsOf(l, path, children));
    WriteElements(img, l, id, children, path);
  }

  lemma {:induction false} NodesBelow(l: Layout, t: KeyTree, nodes: set<string>, path: string, roles: seq<Role>,
                                      bound: nat)
    requires Bounded(t, bound) && nodes <= l.nkIds.Keys && Covers(path, t.Kids(path), nodes)
    requires AllOfKind(l.nkIds, roles, 1) && |roles| == |l.cells|
    ensures HaveNodes(l, path, t.Kids(path))
  {
    forall i | 0 <= i < |t.Kids(path)| ensures Child(path, t.Kids(path)[i]) != [] {
      assert GoodChild(path, t.Kids(path)[i]);
    }
  }

  method FillLhRecursive(img: Image, l: Layout, t: KeyTree, children: seq<string>, parentPath: string,
                         ghost nodes: set<string>, ghost start: string -> Buf, ghost goal: string -> Buf,
                         ghost roles: seq<Role>, ghost bound: nat, ghost before: set<string>)
    returns (ghost seen: set<string>)
    requires img.Valid() && img.cells == l.cells && |roles| == |l.cells| == |img.bodies|
    requires OneToOne(l.lhIds) && AllOfKind(l.lhIds, roles, 4) && AllOfKind(l.nkIds, roles, 1)
             && LeafGoals(l, t, start, goal)
    requires Progress(img.bodies, l.lhIds, start, goal) && Finished(img.bodies, l.lhIds, goal, before)
    requires Bounded(t, bound) && |parentPath| <= bound && children == t.Kids(parentPath)
    requires nodes <= l.nkIds.Keys && Closed(t, nodes) && Covers(parentPath, children, nodes)
    modifies img, img.buf
    ensures img.Valid() && OnlyKind(old(img.bodies), img.bodies, roles, 4)
    ensures Progress(img.bodies, l.lhIds, start, goal) && Finished(img.bodies, l.lhIds, goal, before + seen)
    ensures Closed(t, seen) && Covers(parentPath, children, seen)
    decreases bound - |parentPath|, 0
  {
    seen := {};
    assert before + seen == before;
    for i := 0 to |children|
      invariant img.Valid() && OnlyKind(old(img.bodies), img.bodies, roles, 4)
      invariant Progress(img.bodies, l.lhIds, start, goal) && Finished(img.bodies, l.lhIds, goal, before + seen)
      invariant Closed(t, seen) && Covers(parentPath, children[..i], seen)
    {
      assert GoodChild(parentPath, t.Kids(parentPath)[i]);
      ghost var more := FillSubtree(img, l, t, Child(parentPath, children[i]), nodes, start, goal, roles, bound,
                                    before + seen);
      ghost var was := seen;
      seen := SeenMore(t, parentPath, children, i, seen, more);
      assert before + was + more == before + seen;
    }
    assert children[..|children|] == children;
  }

  method FillSubtree(img: Image, l: Layout, t: KeyTree, fullPath: string, ghost nodes: set<string>,
                     ghost start: string -> Buf, ghost goal: string -> Buf, ghost roles: seq<Role>, ghost bound: nat,
                     ghost before: set<string>)
    returns (ghost seen: set<string>)
    requires img.Valid() && img.cells == l.cells && |roles| == |l.cells| == |img.bodies|
    requires OneToOne(l.lhIds) && AllOfKind(l.lhIds, roles, 4) && AllOfKind(l.nkIds, roles, 1)
             && LeafGoals(l, t, start, goal)
    requires Progress(img.bodies, l.lhIds, start, goal) && Finished(img.bodies, l.lhIds, goal, before)
    requires Bounded(t, bound) && fullPath != [] && |fullPath| <= bound
    requires nodes <= l.nkIds.Keys && Closed(t, nodes) && fullPath in nodes
    modifies img, img.buf
    ensures img.Valid() && OnlyKind(old(img.bodies), img.bodies, roles, 4)
    ensures Progress(img.bodies, l.lhIds, start, goal) && Finished(img.bodies, l.lhIds, goal, before + seen)
    ensures Closed(t, seen) && fullPath in seen
    decreases bound - |fullPath|, 1
  {
    seen := {};
    ghost var filled := goal(fullPath);
    if fullPath in t.children && t.children[fullPath] != [] {
      FillAt(img, l, t, fullPath, nodes, start, goal, roles, bound, before);
      seen := FillLhRecursive(img, l, t, t.children[fullPath], fullPath, nodes, start, goal, roles, bound,
                              before + {fullPath});
    }
    ClosedAdd(t, seen, fullPath);
    assert before + {fullPath} + seen == before + (seen + {fullPath});
    seen := seen + {fullPath};
  }

  /** The list of one key, if it has one. */
  method FillAt(img: Image, l: Layout, t: KeyTree, path: string, ghost nodes: set<string>, ghost start: string -> Buf,
                ghost goal: string -> Buf, ghost roles: seq<Role>, ghost bound: nat, ghost before: set<string>)
    requires img.Valid() && img.cells == l.cells && |roles| == |l.cells| == |img.bodies|
    requires OneToOne(l.lhIds) && AllOfKind(l.lhIds, roles, 4) && AllOfKind(l.nkIds, roles, 1)
             && LeafGoals(l, t, start, goal)
    requires Progress(img.bodies, l.lhIds, start, goal) && Finished(img.bodies, l.lhIds, goal, before)
    requires Bounded(t, bound) && nodes <= l.nkIds.Keys && Covers(path, t.Kids(path), nodes)
    modifies img, img.buf
    ensures img.Valid() && OnlyKind(old(img.bodies), img.bodies, roles, 4)
    ensures Progress(img.bodies, l.lhIds, start, goal) && Finished(img.bodies, l.lhIds, goal, before + {path})
  {
    if path in l.lhIds {
      NodesBelow(l, t, nodes, path, roles, bound);
      ghost var filled := goal(path);
      FillLh(img, l, l.lhIds[path], t.Kids(path), path, start(path));
      FinishOne(old(img.bodies), img.bodies, l.lhIds, start, goal, path, before);
    }
  }
}
