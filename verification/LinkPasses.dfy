/** The second pass of a build as a whole (`TestHiveBuilder::build`, step 4, in `winreg-testutil/src/lib.rs`). */
module LinkPasses {
  import opened Wrappers
  import opened Bytes
  import opened Text
  import opened Records
  import opened Allocation
  import opened Footprints
  import opened KeyTrees
  import opened Preorders
  import opened ValueLayouts
  import opened Layouts
  import opened Images
  import opened Linking
  import opened ValueLinking

  // ----- keys -----

  /** The root is its own parent. */
  function RootLinks(l: Layout, t: KeyTree): Links {
    Links(Offset(l.cells, l.rootId), Offset(l.cells, l.skId), SubkeyLinks(l, t, []), None)
  }

  ghost predicate RootLinked(bodies: seq<Buf>, l: Layout, t: KeyTree, lastWritten: u64) {
    l.rootId < |bodies|
    && bodies[l.rootId] == LinkedBody(NodeBody(Utf8(ROOT_NAME), true, lastWritten), RootLinks(l, t))
  }

  ghost predicate NodesLinked(bodies: seq<Buf>, l: Layout, all: seq<string>, goal: string -> Buf) {
    forall p | p in all :: p in l.nkIds && l.nkIds[p] < |bodies| && bodies[l.nkIds[p]] == goal(p)
  }

  ghost predicate LeavesFilled(bodies: seq<Buf>, l: Layout, t: KeyTree, all: seq<string>, goal: string -> Buf) {
    forall p | (p in all || p == []) && t.Kids(p) != [] ::
      p in l.lhIds && l.lhIds[p] < |bodies| && bodies[l.lhIds[p]] == goal(p)
  }

  /** Cells of this kind are as they were. */
  ghost predicate Keeps(before: seq<Buf>, after: seq<Buf>, roles: seq<Role>, kind: nat) {
    && |before| == |after| == |roles|
    && forall i | 0 <= i < |roles| && Kind(roles[i]) == kind :: after[i] == before[i]
  }

  /** Roles that the key passes are concerned with, and plain data. */
  predicate OfKeys(r: Role) {
    Kind(r) in {0, 1, 4, 5, 6}
  }

  ghost predicate KeepsKeys(before: seq<Buf>, after: seq<Buf>, roles: seq<Role>) {
    && |before| == |after| == |roles|
    && forall i | 0 <= i < |roles| && OfKeys(roles[i]) :: after[i] == before[i]
  }

  ghost predicate KeepsValues(before: seq<Buf>, after: seq<Buf>, roles: seq<Role>) {
    && |before| == |after| == |roles|
    && forall i | 0 <= i < |roles| && !OfKeys(roles[i]) :: after[i] == before[i]
  }

  lemma {:induction false} NodesApart(cells: seq<AllocatedCell>, roles: seq<Role>, ids: map<string, nat>,
                                      bodyOf: string -> Buf)
    requires NodesLaid(cells, roles, ids, bodyOf)
    ensures OneToOne(ids) && AllOfKind(ids, roles, 1)
  {
    forall p, q | p in ids && q in ids && ids[p] == ids[q] ensures p == q {
      assert NodeRole(p) == NodeRole(q);
    }
  }

  lemma {:induction false} LeavesApart(cells: seq<AllocatedCell>, roles: seq<Role>, ids: map<string, nat>, t: KeyTree)
    requires LeavesLaid(cells, roles, ids, t)
    ensures OneToOne(ids) && AllOfKind(ids, roles, 4)
  {
    forall p, q | p in ids && q in ids && ids[p] == ids[q] ensures p == q {
      assert LeafRole(p) == LeafRole(q);
    }
  }

  method LinkRoot(img: Image, l: Layout, t: KeyTree, ghost roles: seq<Role>, ghost lastWritten: u64)
    requires img.Valid() && img.cells == l.cells && |roles| == |l.cells| && img.bodies == Bodies(l.cells)
    requires Laid(l.cells, roles, l.rootId, NodeRole([]), NodeBody(Utf8(ROOT_NAME), true, lastWritten))
    modifies img, img.buf
    ensures img.Valid() && RootLinked(img.bodies, l, t, lastWritten) && OnlyKind(old(img.bodies), img.bodies, roles, 6)
  {
    LinkNode(img, l.rootId, RootLinks(l, t), l.cells[l.rootId].body);
  }

  /** The only security descriptor is the next and the previous one of itself. */
  method LinkSecurity(img: Image, l: Layout, ghost roles: seq<Role>)
    requires img.Valid() && img.cells == l.cells && |roles| == |l.cells| == |img.bodies|
    requires l.skId < |roles| && roles[l.skId] == SecurityRole && |img.bodies[l.skId]| >= 20
    modifies img, img.buf
    ensures img.Valid() && OnlyKind(old(img.bodies), img.bodies, roles, 0)
  {
    var skOff := CellOffset(l.cells[l.skId]);
    img.Patch(l.skId, SK_FLINK, skOff);
    img.Patch(l.skId, SK_BLINK, skOff);
  }

  method LinkNodes(img: Image, l: Layout, t: KeyTree, ghost roles: seq<Role>, ghost start: string -> Buf,
                   ghost goal: string -> Buf, ghost bound: nat, ghost keys: seq<string>, ghost values: seq<TestValue>)
    requires GoodInput(keys, values) && IsTreeOf(t, keys, values) && Bounded(t, bound)
    requires img.Valid() && img.cells == l.cells && |roles| == |l.cells|
    requires NodesLaid(l.cells, roles, l.nkIds, start) && (forall p | p in AllPaths(keys, values) :: p in l.nkIds)
    requires Keeps(Bodies(l.cells), img.bodies, roles, 1) && NodeGoals(l, t, start, goal)
    modifies img, img.buf
    ensures img.Valid() && OnlyKind(old(img.bodies), img.bodies, roles, 1)
    ensures NodesLinked(img.bodies, l, AllPaths(keys, values), goal)
  {
    NodesApart(l.cells, roles, l.nkIds, start);
    NodesStart(img.bodies, l, roles, start, goal);
    ghost var nodes := AllClosed(t, keys, values);
    ghost var seen := LinkChildren(img, l, t, t.rootChildren, [], nodes, start, goal, roles, bound, {});
    forall p | p in AllPaths(keys, values) ensures p in seen {
      ClosedHoldsAll(t, keys, values, seen, p);
    }
  }

  lemma {:induction false} NodesStart(bodies: seq<Buf>, l: Layout, roles: seq<Role>, start: string -> Buf,
                                      goal: string -> Buf)
    requires NodesLaid(l.cells, roles, l.nkIds, start) && Keeps(Bodies(l.cells), bodies, roles, 1)
    ensures Progress(bodies, l.nkIds, start, goal)
  {
    forall p | p in l.nkIds ensures bodies[l.nkIds[p]] == start(p) {
      assert Laid(l.cells, roles, l.nkIds[p], NodeRole(p), start(p));
    }
  }

  lemma {:induction false} LeavesStart(bodies: seq<Buf>, l: Layout, t: KeyTree, roles: seq<Role>, start: string -> Buf,
                                       goal: string -> Buf)
    requires LeavesLaid(l.cells, roles, l.lhIds, t) && Keeps(Bodies(l.cells), bodies, roles, 4)
    requires forall p :: start(p) == LeafBody(|t.Kids(p)|)
    ensures Progress(bodies, l.lhIds, start, goal)
  {
    forall p | p in l.lhIds ensures bodies[l.lhIds[p]] == start(p) {
      assert Laid(l.cells, roles, l.lhIds[p], LeafRole(p), LeafBody(|t.Kids(p)|));
    }
  }

  method FillLeaves(img: Image, l: Layout, t: KeyTree, ghost roles: seq<Role>, ghost start: string -> Buf,
                    ghost goal: string -> Buf, ghost nodeBodies: string -> Buf, ghost bound: nat,
                    ghost keys: seq<string>, ghost values: seq<TestValue>)
    requires GoodInput(keys, values) && IsTreeOf(t, keys, values) && Bounded(t, bound)
    requires img.Valid() && img.cells == l.cells && |roles| == |l.cells|
    requires NodesLaid(l.cells, roles, l.nkIds, nodeBodies) && (forall p | p in AllPaths(keys, values) :: p in l.nkIds)
    requires LeavesLaid(l.cells, roles, l.lhIds, t)
             && (forall p | p in AllPaths(keys, values) && t.Kids(p) != [] :: p in l.lhIds)
    requires t.rootChildren != [] ==> [] in l.lhIds
    requires Keeps(Bodies(l.cells), img.bodies, roles, 4) && LeafGoals(l, t, start, goal)
    requires forall p :: start(p) == LeafBody(|t.Kids(p)|)
    modifies img, img.buf
    ensures img.Valid() && OnlyKind(old(img.bodies), img.bodies, roles, 4)
    ensures LeavesFilled(img.bodies, l, t, AllPaths(keys, values), goal)
  {
    NodesApart(l.cells, roles, l.nkIds, nodeBodies);
    LeavesApart(l.cells, roles, l.lhIds, t);
    LeavesStart(img.bodies, l, t, roles, start, goal);
    ghost var nodes := AllClosed(t, keys, values);
    FillAt(img, l, t, [], nodes, start, goal, roles, bound, {});
    ghost var seen := FillLhRecursive(img, l, t, t.rootChildren, [], nodes, start, goal, roles, bound, {[]});
    forall p | p in AllPaths(keys, values) ensures p in seen {
      ClosedHoldsAll(t, keys, values, seen, p);
    }
  }

  /** Data cells are as allocated. */
  ghost predicate DataKept(bodies: seq<Buf>, l: Layout, roles: seq<Role>) {
    && |bodies| == |roles| == |l.cells|
    && forall i | 0 <= i < |roles| && roles[i] == DataRole :: bodies[i] == l.cells[i].body
  }

  lemma {:induction false} KeepsOther(start: seq<Buf>, before: seq<Buf>, after: seq<Buf>, roles: seq<Role>,
                                      changed: nat, kind: nat)
    requires Keeps(start, before, roles, kind) && OnlyKind(before, after, roles, changed) && changed != kind
    ensures Keeps(start, after, roles, kind)
  {
  }

  /** A pass over nodes or leaves leaves the root, the data and the value cells alone. */
  lemma {:induction false} RootAndDataStay(before: seq<Buf>, after: seq<Buf>, l: Layout, t: KeyTree, roles: seq<Role>,
                                           lastWritten: u64, changed: nat)
    requires RootLinked(before, l, t, lastWritten) && l.rootId < |roles| && Kind(roles[l.rootId]) == 6
    requires KeepsValues(Bodies(l.cells), before, roles) && DataKept(before, l, roles)
    requires OnlyKind(before, after, roles, changed) && changed in {1, 4}
    ensures RootLinked(after, l, t, lastWritten) && KeepsValues(Bodies(l.cells), after, roles)
            && DataKept(after, l, roles)
  {
    assert after[l.rootId] == before[l.rootId];
  }

  lemma {:induction false} NodesStay(before: seq<Buf>, after: seq<Buf>, l: Layout, all: seq<string>, roles: seq<Role>,
                                     goal: string -> Buf)
    requires NodesLinked(before, l, all, goal) && AllOfKind(l.nkIds, roles, 1) && OnlyKind(before, after, roles, 4)
    ensures NodesLinked(after, l, all, goal)
  {
  }

  lemma {:induction false} RootsLinked(b1: seq<Buf>, b2: seq<Buf>, l: Layout, t: KeyTree, roles: seq<Role>,
                                       lastWritten: u64)
    requires RootLinked(b1, l, t, lastWritten) && l.rootId < |roles| && roles[l.rootId] == NodeRole([])
    requires OnlyKind(Bodies(l.cells), b1, roles, 6) && OnlyKind(b1, b2, roles, 0)
    ensures RootLinked(b2, l, t, lastWritten) && Kind(roles[l.rootId]) == 6
    ensures Keeps(Bodies(l.cells), b2, roles, 1) && Keeps(Bodies(l.cells), b2, roles, 4)
    ensures KeepsValues(Bodies(l.cells), b2, roles) && DataKept(b2, l, roles)
  {
    assert b2[l.rootId] == b1[l.rootId];
  }

  method LinkRoots(img: Image, l: Layout, t: KeyTree, ghost roles: seq<Role>, ghost lastWritten: u64)
    requires img.Valid() && img.cells == l.cells && |roles| == |l.cells| && img.bodies == Bodies(l.cells)
    requires Laid(l.cells, roles, l.rootId, NodeRole([]), NodeBody(Utf8(ROOT_NAME), true, lastWritten))
    requires Laid(l.cells, roles, l.skId, SecurityRole, SecurityBody(MINIMAL_DESCRIPTOR))
    modifies img, img.buf
    ensures img.Valid() && RootLinked(img.bodies, l, t, lastWritten) && Kind(roles[l.rootId]) == 6
    ensures Keeps(Bodies(l.cells), img.bodies, roles, 1) && Keeps(Bodies(l.cells), img.bodies, roles, 4)
    ensures KeepsValues(Bodies(l.cells), img.bodies, roles) && DataKept(img.bodies, l, roles)
  {
    LinkRoot(img, l, t, roles, lastWritten);
    ghost var b1 := img.bodies;
    LinkSecurity(img, l, roles);
    RootsLinked(b1, img.bodies, l, t, roles, lastWritten);
  }

  method LinkKeys(img: Image, l: Layout, t: KeyTree, ghost roles: seq<Role>, ghost lastWritten: u64,
                  ghost start: string -> Buf, ghost goal: string -> Buf, ghost leafStart: string -> Buf,
                  ghost leafGoal: string -> Buf, ghost bound: nat, ghost keys: seq<string>,
                  ghost values: seq<TestValue>)
    requires GoodInput(keys, values) && IsTreeOf(t, keys, values) && Bounded(t, bound)
    requires img.Valid() && img.cells == l.cells && |roles| == |l.cells| && img.bodies == Bodies(l.cells)
    requires KeysPlaced(l, roles, t, AllPaths(keys, values), start, lastWritten)
    requires NodeGoals(l, t, start, goal) && LeafGoals(l, t, leafStart, leafGoal)
             && forall p :: leafStart(p) == LeafBody(|t.Kids(p)|)
    modifies img, img.buf
    ensures img.Valid() && KeepsValues(Bodies(l.cells), img.bodies, roles) && DataKept(img.bodies, l, roles)
    ensures RootLinked(img.bodies, l, t, lastWritten) && Kind(roles[l.rootId]) == 6
    ensures NodesLinked(img.bodies, l, AllPaths(keys, values), goal) && AllOfKind(l.nkIds, roles, 1)
    ensures LeavesFilled(img.bodies, l, t, AllPaths(keys, values), leafGoal) && AllOfKind(l.lhIds, roles, 4)
  {
    NodesApart(l.cells, roles, l.nkIds, start);
    LeavesApart(l.cells, roles, l.lhIds, t);
    LinkRoots(img, l, t, roles, lastWritten);
    ghost var b1 := img.bodies;
    LinkNodes(img, l, t, roles, start, goal, bound, keys, values);
    ghost var b2 := img.bodies;
    KeepsOther(Bodies(l.cells), b1, b2, roles, 1, 4);
    FillLeaves(img, l, t, roles, leafStart, leafGoal, start, bound, keys, values);
    RootAndDataStay(b1, b2, l, t, roles, lastWritten, 1);
    RootAndDataStay(b2, img.bodies, l, t, roles, lastWritten, 4);
    NodesStay(b2, img.bodies, l, AllPaths(keys, values), roles, goal);
  }

  // ----- values -----

  ghost predicate ListsFilled(bodies: seq<Buf>, l: Layout, goal: string -> Buf) {
    forall p | p in l.vkIds :: p in l.listIds && l.listIds[p] < |bodies| && bodies[l.listIds[p]] == goal(p)
  }

  /** Value cells whose data is elsewhere point to it. */
  ghost predicate PointersFilled(bodies: seq<Buf>, l: Layout, goal: nat -> Buf) {
    forall vk | vk in l.data.ids :: vk < |bodies| && bodies[vk] == goal(vk)
  }

  ghost predicate RecordsLinked(bodies: seq<Buf>, l: Layout) {
    forall j | 0 <= j < |l.data.links| :: Connected(bodies, l, l.data.links[j])
  }

  /** Resident data is in the value cells. */
  ghost predicate DataInlined(bodies: seq<Buf>, l: Layout, t: KeyTree) {
    forall p, i | p in t.values && p in l.vkIds && 0 <= i < |l.vkIds[p]| && i < |t.values[p]|
             && |t.values[p][i].data| <= 4 ::
      Inlined(bodies, l, l.vkIds[p][i], t.values[p][i].data)
  }

  ghost predicate Inlined(bodies: seq<Buf>, l: Layout, vk: nat, data: Buf)
    requires |data| <= 4
  {
    vk < |bodies| && vk < |l.cells| && |l.cells[vk].body| >= 20 && bodies[vk] == ResidentBody(l.cells[vk].body, data)
  }

  /** What the first pass says about the values of one key. */
  lemma {:induction false} KeyFacts(l: Layout, roles: seq<Role>, t: KeyTree, paths: seq<string>, p: string)
    requires ValuesPlaced(l, roles, t, paths) && p in t.values
    ensures p in l.vkIds && p in l.listIds && KeyLaid(l.cells, roles, l.data, t.values[p], p, l.vkIds[p], l.listIds[p])
  {
    KeyLaidAt(l.cells, roles, l.data, t, l.vkIds, l.listIds, paths, p);
  }

  lemma {:induction false} ListsApart(l: Layout, roles: seq<Role>, t: KeyTree, paths: seq<string>)
    requires ValuesPlaced(l, roles, t, paths) && |roles| == |l.cells|
    ensures OneToOne(l.listIds) && AllOfKind(l.listIds, roles, 3)
  {
    forall p | p in l.listIds ensures l.listIds[p] < |roles| && roles[l.listIds[p]] == ListRole(p) {
      KeyFacts(l, roles, t, paths, p);
    }
    forall p, q | p in l.listIds && q in l.listIds && l.listIds[p] == l.listIds[q] ensures p == q {
      assert ListRole(p) == ListRole(q);
    }
  }

  lemma {:induction false} ValueRoles(l: Layout, roles: seq<Role>, t: KeyTree, paths: seq<string>)
    requires ValuesPlaced(l, roles, t, paths) && |roles| == |l.cells|
    ensures RolesOfValues(l, t, roles) && IdsInside(l)
  {
    forall p | p in t.values
      ensures p in l.vkIds && |l.vkIds[p]| == |t.values[p]|
      ensures forall i | 0 <= i < |l.vkIds[p]| :: l.vkIds[p][i] < |roles| && roles[l.vkIds[p][i]] == ValueRole(p, i)
    {
      KeyFacts(l, roles, t, paths, p);
      forall i | 0 <= i < |l.vkIds[p]| ensures l.vkIds[p][i] < |roles| && roles[l.vkIds[p][i]] == ValueRole(p, i) {
        assert ValueLaid(l.cells, roles, l.data, p, i, t.values[p][i], l.vkIds[p][i]);
      }
    }
  }

  lemma {:induction false} ListsStart(bodies: seq<Buf>, l: Layout, roles: seq<Role>, t: KeyTree, paths: seq<string>,
                                      start: string -> Buf)
    requires ValuesPlaced(l, roles, t, paths) && Keeps(Bodies(l.cells), bodies, roles, 3)
    requires forall p | p in l.vkIds :: start(p) == Zeros(4 * |l.vkIds[p]|)
    ensures Pending(bodies, l.listIds, start, l.vkIds.Keys)
  {
    forall p | p in l.vkIds.Keys ensures p in l.listIds && l.listIds[p] < |bodies| && bodies[l.listIds[p]] == start(p) {
      KeyFacts(l, roles, t, paths, p);
      assert Laid(l.cells, roles, l.listIds[p], ListRole(p), Zeros(4 * |t.values[p]|));
    }
  }

  lemma {:induction false} RecordsStart(bodies: seq<Buf>, l: Layout, roles: seq<Role>, t: KeyTree, paths: seq<string>)
    requires ValuesPlaced(l, roles, t, paths) && Keeps(Bodies(l.cells), bodies, roles, 7)
             && Keeps(Bodies(l.cells), bodies, roles, 8)
    ensures forall j | 0 <= j < |l.data.links| :: Unlinked(bodies, l, l.data.links[j])
  {
    forall j | 0 <= j < |l.data.links| ensures Unlinked(bodies, l, l.data.links[j]) {
      assert LinkLaid(l.cells, roles, j, l.data.links[j]);
    }
  }

  /** The value cells that hold their data themselves. */
  ghost function ResidentIds(l: Layout, t: KeyTree): set<nat> {
    set p, i | p in t.values && p in l.vkIds && 0 <= i < |l.vkIds[p]| && i < |t.values[p]|
        && |t.values[p][i].data| <= 4 :: l.vkIds[p][i]
  }

  lemma {:induction false} ResidentFacts(l: Layout, roles: seq<Role>, t: KeyTree, paths: seq<string>, id: nat)
    requires ValuesPlaced(l, roles, t, paths) && |roles| == |l.cells| && id in ResidentIds(l, t)
    ensures id < |roles| && ResidentData(t, roles[id]).Some? && |l.cells[id].body| >= 20 && id !in l.data.ids
            && Kind(roles[id]) == 2
  {
    var p, i :| p in t.values && p in l.vkIds && 0 <= i < |l.vkIds[p]| && i < |t.values[p]|
      && |t.values[p][i].data| <= 4 && l.vkIds[p][i] == id;
    KeyFacts(l, roles, t, paths, p);
    assert ValueLaid(l.cells, roles, l.data, p, i, t.values[p][i], id);
  }

  lemma {:induction false} InliningStart(bodies: seq<Buf>, l: Layout, roles: seq<Role>, t: KeyTree, paths: seq<string>)
    requires ValuesPlaced(l, roles, t, paths) && |roles| == |l.cells| == |bodies|
    requires forall i | 0 <= i < |roles| && Kind(roles[i]) == 2 && i !in l.data.ids :: bodies[i] == l.cells[i].body
    ensures Inlining(bodies, l, t, roles, ResidentIds(l, t), {})
            && HoldsResidents(ResidentIds(l, t), l, t, t.values.Keys)
  {
    forall id | id in ResidentIds(l, t)
      ensures id < |roles| && bodies[id] == l.cells[id].body && |l.cells[id].body| >= 20
              && ResidentData(t, roles[id]).Some?
    {
      ResidentFacts(l, roles, t, paths, id);
    }
  }

  // ----- what one loop has done stays done in the next -----

  lemma {:induction false} ListsKept(before: seq<Buf>, after: seq<Buf>, l: Layout, roles: seq<Role>,
                                     goal: string -> Buf)
    requires ListsFilled(before, l, goal) && AllOfKind(l.listIds, roles, 3) && Keeps(before, after, roles, 3)
    ensures ListsFilled(after, l, goal)
  {
  }

  lemma {:induction false} PointersKept(before: seq<Buf>, after: seq<Buf>, l: Layout, goal: nat -> Buf)
    requires PointersFilled(before, l, goal) && |before| == |after|
             && forall vk | vk in l.data.ids && vk < |before| :: after[vk] == before[vk]
    ensures PointersFilled(after, l, goal)
  {
  }

  lemma {:induction false} RecordsKept(before: seq<Buf>, after: seq<Buf>, l: Layout, roles: seq<Role>)
    requires RecordsLinked(before, l) && LinksLaid(l.cells, roles, l.data.links)
    requires Keeps(before, after, roles, 7) && Keeps(before, after, roles, 8)
    ensures RecordsLinked(after, l)
  {
    forall j | 0 <= j < |l.data.links| ensures Connected(after, l, l.data.links[j]) {
      assert Connected(before, l, l.data.links[j]) && LinkLaid(l.cells, roles, j, l.data.links[j]);
    }
  }

  lemma {:induction false} InliningDone(bodies: seq<Buf>, l: Layout, t: KeyTree, roles: seq<Role>, done: set<nat>)
    requires Inlining(bodies, l, t, roles, ResidentIds(l, t), done) && HoldsResidents(done, l, t, t.values.Keys)
    requires RolesOfValues(l, t, roles)
    ensures DataInlined(bodies, l, t)
  {
    forall p, i | p in t.values && p in l.vkIds && 0 <= i < |l.vkIds[p]| && i < |t.values[p]|
             && |t.values[p][i].data| <= 4
      ensures Inlined(bodies, l, l.vkIds[p][i], t.values[p][i].data)
    {
      var id := l.vkIds[p][i];
      assert id in ResidentIds(l, t) && p in t.values.Keys && id in done;
      assert roles[id] == ValueRole(p, i);
    }
  }

  /** The lists of values, and the data offsets. */
  method LinkLists(img: Image, l: Layout, t: KeyTree, ghost roles: seq<Role>, ghost paths: seq<string>,
                   ghost listStart: string -> Buf, ghost listGoal: string -> Buf, ghost pointerGoal: nat -> Buf)
    requires img.Valid() && img.cells == l.cells && |roles| == |l.cells| && ValuesPlaced(l, roles, t, paths)
    requires KeepsValues(Bodies(l.cells), img.bodies, roles)
    requires ListGoals(l, listStart, listGoal) && PointerGoals(l, pointerGoal)
    requires forall p | p in l.vkIds :: listStart(p) == Zeros(4 * |l.vkIds[p]|)
    modifies img, img.buf
    ensures img.Valid() && KeepsKeys(old(img.bodies), img.bodies, roles)
    ensures ListsFilled(img.bodies, l, listGoal) && PointersFilled(img.bodies, l, pointerGoal)
    ensures Keeps(Bodies(l.cells), img.bodies, roles, 7) && Keeps(Bodies(l.cells), img.bodies, roles, 8)
    ensures forall i | 0 <= i < |roles| && Kind(roles[i]) == 2 && i !in l.data.ids :: img.bodies[i] == l.cells[i].body
  {
    ListsApart(l, roles, t, paths);
    ValueRoles(l, roles, t, paths);
    ListsStart(img.bodies, l, roles, t, paths, listStart);
    FillLists(img, l, listStart, listGoal, roles);
    ghost var b1 := img.bodies;
    FillDataOffsets(img, l, pointerGoal, roles);
    ListsKept(b1, img.bodies, l, roles, listGoal);
  }

  /** The big-data records. */
  method LinkBigData(img: Image, l: Layout, t: KeyTree, ghost roles: seq<Role>, ghost paths: seq<string>)
    requires img.Valid() && img.cells == l.cells && |roles| == |l.cells| == |img.bodies|
             && ValuesPlaced(l, roles, t, paths)
    requires Keeps(Bodies(l.cells), img.bodies, roles, 7) && Keeps(Bodies(l.cells), img.bodies, roles, 8)
    modifies img, img.buf
    ensures img.Valid() && OnlyRecords(old(img.bodies), img.bodies, roles) && RecordsLinked(img.bodies, l)
  {
    RecordsStart(img.bodies, l, roles, t, paths);
    LinkRecords(img, l, roles);
  }

  /** The resident data. */
  method InlineData(img: Image, l: Layout, t: KeyTree, ghost roles: seq<Role>, ghost paths: seq<string>)
    requires img.Valid() && img.cells == l.cells && |roles| == |l.cells| == |img.bodies|
             && ValuesPlaced(l, roles, t, paths)
    requires forall i | 0 <= i < |roles| && Kind(roles[i]) == 2 && i !in l.data.ids :: img.bodies[i] == l.cells[i].body
    modifies img, img.buf
    ensures img.Valid() && OnlyThese(old(img.bodies), img.bodies, ResidentIds(l, t)) && DataInlined(img.bodies, l, t)
  {
    ValueRoles(l, roles, t, paths);
    InliningStart(img.bodies, l, roles, t, paths);
    ghost var done := InlineAll(img, l, t, roles, ResidentIds(l, t));
    InliningDone(img.bodies, l, t, roles, done);
  }

  /** Writing resident data touches no list, no pointer and no key. */
  lemma {:induction false} InliningApart(before: seq<Buf>, after: seq<Buf>, l: Layout, t: KeyTree, roles: seq<Role>,
                                         paths: seq<string>)
    requires ValuesPlaced(l, roles, t, paths) && |roles| == |l.cells| == |before|
             && OnlyThese(before, after, ResidentIds(l, t))
    ensures KeepsKeys(before, after, roles)
    ensures Keeps(before, after, roles, 3) && Keeps(before, after, roles, 7) && Keeps(before, after, roles, 8)
    ensures forall vk | vk in l.data.ids && vk < |before| :: after[vk] == before[vk]
  {
    forall i | 0 <= i < |roles| && (Kind(roles[i]) != 2 || i in l.data.ids) ensures after[i] == before[i] {
      if i in ResidentIds(l, t) {
        ResidentFacts(l, roles, t, paths, i);
      }
    }
  }

  /** The big-data records, and the resident data. */
  method LinkData(img: Image, l: Layout, t: KeyTree, ghost roles: seq<Role>, ghost paths: seq<string>,
                  ghost listGoal: string -> Buf, ghost pointerGoal: nat -> Buf)
    requires img.Valid() && img.cells == l.cells && |roles| == |l.cells| == |img.bodies|
             && ValuesPlaced(l, roles, t, paths)
    requires ListsFilled(img.bodies, l, listGoal) && PointersFilled(img.bodies, l, pointerGoal)
    requires Keeps(Bodies(l.cells), img.bodies, roles, 7) && Keeps(Bodies(l.cells), img.bodies, roles, 8)
    requires forall i | 0 <= i < |roles| && Kind(roles[i]) == 2 && i !in l.data.ids :: img.bodies[i] == l.cells[i].body
    modifies img, img.buf
    ensures img.Valid() && KeepsKeys(old(img.bodies), img.bodies, roles)
    ensures ListsFilled(img.bodies, l, listGoal) && PointersFilled(img.bodies, l, pointerGoal)
    ensures RecordsLinked(img.bodies, l) && DataInlined(img.bodies, l, t)
  {
    ghost var b2 := img.bodies;
    LinkBigData(img, l, t, roles, paths);
    ghost var b3 := img.bodies;
    InlineData(img, l, t, roles, paths);
    InliningApart(b3, img.bodies, l, t, roles, paths);
    DataDone(b2, b3, img.bodies, l, t, roles, paths, listGoal, pointerGoal);
  }

  lemma {:induction false} DataDone(b2: seq<Buf>, b3: seq<Buf>, b4: seq<Buf>, l: Layout, t: KeyTree, roles: seq<Role>,
                                    paths: seq<string>, listGoal: string -> Buf, pointerGoal: nat -> Buf)
    requires ValuesPlaced(l, roles, t, paths) && |roles| == |l.cells|
    requires ListsFilled(b2, l, listGoal) && PointersFilled(b2, l, pointerGoal) && OnlyRecords(b2, b3, roles)
             && RecordsLinked(b3, l)
    requires KeepsKeys(b3, b4, roles) && Keeps(b3, b4, roles, 3) && Keeps(b3, b4, roles, 7) && Keeps(b3, b4, roles, 8)
    requires forall vk | vk in l.data.ids && vk < |b3| :: b4[vk] == b3[vk]
    ensures KeepsKeys(b2, b4, roles) && RecordsLinked(b4, l)
    ensures ListsFilled(b4, l, listGoal) && PointersFilled(b4, l, pointerGoal)
  {
    ListsApart(l, roles, t, paths);
    ListsKept(b2, b3, l, roles, listGoal);
    ListsKept(b3, b4, l, roles, listGoal);
    PointersKept(b2, b3, l, pointerGoal);
    PointersKept(b3, b4, l, pointerGoal);
    RecordsKept(b3, b4, l, roles);
  }

  // ----- the whole pass -----

  lemma {:induction false} KeysKept(before: seq<Buf>, after: seq<Buf>, l: Layout, t: KeyTree, roles: seq<Role>,
                                    all: seq<string>, lastWritten: u64, goal: string -> Buf, leafGoal: string -> Buf)
    requires KeepsKeys(before, after, roles) && DataKept(before, l, roles)
    requires RootLinked(before, l, t, lastWritten) && l.rootId < |roles| && Kind(roles[l.rootId]) == 6
    requires NodesLinked(before, l, all, goal) && AllOfKind(l.nkIds, roles, 1)
    requires LeavesFilled(before, l, t, all, leafGoal) && AllOfKind(l.lhIds, roles, 4)
    ensures RootLinked(after, l, t, lastWritten) && DataKept(after, l, roles)
    ensures NodesLinked(after, l, all, goal) && LeavesFilled(after, l, t, all, leafGoal)
  {
    assert after[l.rootId] == before[l.rootId];
  }

  method LinkCells(img: Image, l: Layout, t: KeyTree, ghost roles: seq<Role>, ghost paths: seq<string>,
                   ghost lastWritten: u64, ghost start: string -> Buf, ghost goal: string -> Buf,
                   ghost leafStart: string -> Buf, ghost leafGoal: string -> Buf, ghost listStart: string -> Buf,
                   ghost listGoal: string -> Buf, ghost pointerGoal: nat -> Buf, ghost bound: nat,
                   ghost keys: seq<string>, ghost values: seq<TestValue>)
    requires GoodInput(keys, values) && IsTreeOf(t, keys, values) && Bounded(t, bound)
    requires img.Valid() && img.cells == l.cells && |roles| == |l.cells| && img.bodies == Bodies(l.cells)
    requires KeysPlaced(l, roles, t, AllPaths(keys, values), start, lastWritten) && ValuesPlaced(l, roles, t, paths)
    requires NodeGoals(l, t, start, goal) && LeafGoals(l, t, leafStart, leafGoal)
             && forall p :: leafStart(p) == LeafBody(|t.Kids(p)|)
    requires ListGoals(l, listStart, listGoal) && PointerGoals(l, pointerGoal)
    requires forall p | p in l.vkIds :: listStart(p) == Zeros(4 * |l.vkIds[p]|)
    modifies img, img.buf
    ensures img.Valid() && DataKept(img.bodies, l, roles)
    ensures RootLinked(img.bodies, l, t, lastWritten) && NodesLinked(img.bodies, l, AllPaths(keys, values), goal)
    ensures LeavesFilled(img.bodies, l, t, AllPaths(keys, values), leafGoal)
    ensures ListsFilled(img.bodies, l, listGoal) && PointersFilled(img.bodies, l, pointerGoal)
    ensures RecordsLinked(img.bodies, l) && DataInlined(img.bodies, l, t)
  {
    ghost var all := AllPaths(keys, values);
    LinkKeys(img, l, t, roles, lastWritten, start, goal, leafStart, leafGoal, bound, keys, values);
    ghost var b1 := img.bodies;
    LinkLists(img, l, t, roles, paths, listStart, listGoal, pointerGoal);
    KeysKept(b1, img.bodies, l, t, roles, all, lastWritten, goal, leafGoal);
    ghost var b2 := img.bodies;
    LinkData(img, l, t, roles, paths, listGoal, pointerGoal);
    KeysKept(b2, img.bodies, l, t, roles, all, lastWritten, goal, leafGoal);
  }
}
