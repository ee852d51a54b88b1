/** Building a hive (`TestHiveBuilder::build` in `winreg-testutil/src/lib.rs`). */
module Builder {
  import opened Bytes
  import opened Text
  import opened Header
  import opened Records
  import opened Allocation
  import opened Footprints
  import opened KeyTrees
  import opened Preorders
  import opened ValueLayouts
  import opened Layouts
  import opened Images
  import opened Headers
  import opened Linking
  import opened ValueLinking
  import opened LinkPasses

  // ----- what the build leaves in each kind of cell -----

  /** The node for the child `n` of `parent`. */
  ghost predicate NodeFinal(bodies: seq<Buf>, l: Layout, t: KeyTree, lastWritten: u64, parent: string, n: string) {
    var p := Child(parent, n);
    && p != [] && p in l.nkIds && l.nkIds[p] < |bodies|
    && bodies[l.nkIds[p]] == LinkedBody(NodeBody(Utf8(n), false, lastWritten), LinksOf(l, t, parent, p))
  }

  ghost predicate LeafFinal(bodies: seq<Buf>, l: Layout, t: KeyTree, p: string) {
    && p in l.lhIds && l.lhIds[p] < |bodies|
    && bodies[l.lhIds[p]] == PutElements(LeafBody(|t.Kids(p)|), ElementsOf(l, p, t.Kids(p)))
  }

  ghost predicate ListFinal(bodies: seq<Buf>, l: Layout, p: string) {
    && p in l.vkIds && p in l.listIds && l.listIds[p] < |bodies|
    && bodies[l.listIds[p]] == PutOffsets(Zeros(4 * |l.vkIds[p]|), OffsetsOf(l.cells, l.vkIds[p]))
  }

  ghost predicate PointerFinal(bodies: seq<Buf>, l: Layout, vk: nat)
    requires vk in l.data.ids
  {
    && vk < |bodies| && vk < |l.cells| && |l.cells[vk].body| >= 20
    && bodies[vk] == Put32(l.cells[vk].body, VK_DATA_OFFSET, Offset(l.cells, l.data.ids[vk]))
  }

  ghost predicate KeysFinal(bodies: seq<Buf>, l: Layout, t: KeyTree, lastWritten: u64) {
    && RootLinked(bodies, l, t, lastWritten)
    && (forall parent, n {:trigger NodeFinal(bodies, l, t, lastWritten, parent, n)} | n in t.Kids(parent) ::
          NodeFinal(bodies, l, t, lastWritten, parent, n))
    && (forall p {:trigger LeafFinal(bodies, l, t, p)} | t.Kids(p) != [] :: LeafFinal(bodies, l, t, p))
  }

  ghost predicate ValuesFinal(bodies: seq<Buf>, l: Layout, t: KeyTree) {
    && (forall p {:trigger ListFinal(bodies, l, p)} | p in t.values :: ListFinal(bodies, l, p))
    && (forall vk {:trigger PointerFinal(bodies, l, vk)} | vk in l.data.ids :: PointerFinal(bodies, l, vk))
    && RecordsLinked(bodies, l) && DataInlined(bodies, l, t)
  }

  // ----- what each cell starts from and is to become, as functions of the path -----

  lemma {:induction false} StartBodies(lastWritten: u64) returns (start: string -> Buf)
    ensures BodiesFor(start, lastWritten)
  {
    start := p => NodeBody(Utf8(NameOf(p)), false, lastWritten);
    forall parent, n | GoodChild(parent, n) ensures start(Child(parent, n)) == NodeBody(Utf8(n), false, lastWritten) {
      ChildParts(parent, n);
    }
  }

  lemma {:induction false} GoalBodies(l: Layout, t: KeyTree, start: string -> Buf, lastWritten: u64)
    returns (goal: string -> Buf)
    requires BodiesFor(start, lastWritten)
    ensures NodeGoals(l, t, start, goal)
  {
    goal := p => if |start(p)| >= 48 then LinkedBody(start(p), LinksOf(l, t, ParentPath(p), p)) else [];
    forall parent, n | GoodChild(parent, n)
      ensures |start(Child(parent, n))| >= 48
      ensures goal(Child(parent, n)) == LinkedBody(start(Child(parent, n)), LinksOf(l, t, parent, Child(parent, n)))
    {
      ChildParts(parent, n);
      assert start(Child(parent, n)) == NodeBody(Utf8(n), false, lastWritten);
    }
  }

  lemma {:induction false} LeafBodies(l: Layout, t: KeyTree) returns (start: string -> Buf, goal: string -> Buf)
    ensures LeafGoals(l, t, start, goal) && forall p :: start(p) == LeafBody(|t.Kids(p)|)
  {
    start := p => LeafBody(|t.Kids(p)|);
    goal := p => PutElements(LeafBody(|t.Kids(p)|), ElementsOf(l, p, t.Kids(p)));
  }

  lemma {:induction false} ListBodies(l: Layout) returns (start: string -> Buf, goal: string -> Buf)
    ensures ListGoals(l, start, goal) && forall p | p in l.vkIds :: start(p) == Zeros(4 * |l.vkIds[p]|)
  {
    start := p => if p in l.vkIds then Zeros(4 * |l.vkIds[p]|) else [];
    goal := p => if p in l.vkIds then PutOffsets(Zeros(4 * |l.vkIds[p]|), OffsetsOf(l.cells, l.vkIds[p])) else [];
  }

  lemma {:induction false} PointerBodies(l: Layout, roles: seq<Role>) returns (goal: nat -> Buf)
    requires PointersLaid(l.cells, roles, l.data.ids)
    ensures PointerGoals(l, goal)
  {
    goal := vk =>
      if vk in l.data.ids && vk < |l.cells| && |l.cells[vk].body| >= 20 then
        Put32(l.cells[vk].body, VK_DATA_OFFSET, Offset(l.cells, l.data.ids[vk]))
      else [];
  }

  lemma {:induction false} KeysFinished(bodies: seq<Buf>, l: Layout, t: KeyTree, lastWritten: u64, keys: seq<string>,
                                        values: seq<TestValue>, start: string -> Buf, goal: string -> Buf,
                                        leafStart: string -> Buf, leafGoal: string -> Buf)
    requires GoodInput(keys, values) && IsTreeOf(t, keys, values) && RootLinked(bodies, l, t, lastWritten)
    requires BodiesFor(start, lastWritten) && NodeGoals(l, t, start, goal)
             && NodesLinked(bodies, l, AllPaths(keys, values), goal)
    requires LeafGoals(l, t, leafStart, leafGoal) && (forall p :: leafStart(p) == LeafBody(|t.Kids(p)|))
    requires LeavesFilled(bodies, l, t, AllPaths(keys, values), leafGoal)
    ensures KeysFinal(bodies, l, t, lastWritten)
  {
    forall parent, n | n in t.Kids(parent) ensures NodeFinal(bodies, l, t, lastWritten, parent, n) {
      KidsOf(t, keys, values, parent, n);
      var linked := goal(Child(parent, n));
      assert start(Child(parent, n)) == NodeBody(Utf8(n), false, lastWritten);
    }
    forall p | t.Kids(p) != [] ensures LeafFinal(bodies, l, t, p) {
      ParentPresent(t, keys, values, p);
      var filled := leafGoal(p);
      assert leafStart(p) == LeafBody(|t.Kids(p)|);
    }
  }

  /** A key with children is the root or one of the paths. */
  lemma {:induction false} ParentPresent(t: KeyTree, keys: seq<string>, values: seq<TestValue>, p: string)
    requires GoodInput(keys, values) && IsTreeOf(t, keys, values) && t.Kids(p) != []
    ensures p == [] || p in AllPaths(keys, values)
  {
    var n := t.Kids(p)[0];
    assert n in t.Kids(p);
    KidsOf(t, keys, values, p, n);
    ChildParts(p, n);
    if p != [] {
      AllPathsParented(keys, values);
      assert HasParent(AllPaths(keys, values), Child(p, n));
      LastSepOf(p, n);
    }
  }

  // ----- bounds and names -----

  lemma {:induction false} TreeBounded(t: KeyTree, keys: seq<string>, values: seq<TestValue>)
    requires GoodInput(keys, values) && IsTreeOf(t, keys, values)
    ensures Bounded(t, MaxLength(AllPaths(keys, values)))
  {
    forall p, i | 0 <= i < |t.Kids(p)|
      ensures GoodChild(p, t.Kids(p)[i]) && |Child(p, t.Kids(p)[i])| <= MaxLength(AllPaths(keys, values))
    {
      KidsOf(t, keys, values, p, t.Kids(p)[i]);
      MaxLengthBounds(AllPaths(keys, values), Child(p, t.Kids(p)[i]));
    }
  }

  // ----- the finished file -----

  /** What is left of the bin is one free cell, unless nothing is left. */
  ghost predicate TailFree(s: Buf, end: nat) {
    var at := BASE_SIZE + HBIN_DATA + end;
    at <= |s| && (|s| - at >= 8 ==> U32At(s, at) == |s| - at)
  }

  ghost predicate FileFinished(s: Buf, l: Layout) {
    && |s| == BASE_SIZE + Align4096(HBIN_DATA + l.end)
    && BaseFields(s, Offset(l.cells, l.rootId), AsU32(|s| - BASE_SIZE)) && ValidChecksum(s)
    && BinFields(s, AsU32(|s| - BASE_SIZE)) && TailFree(s, l.end)
  }

  ghost predicate NodeRoles(l: Layout, roles: seq<Role>) {
    && |roles| == |l.cells|
    && l.rootId < |roles| && roles[l.rootId] == NodeRole([])
    && forall p | p in l.nkIds :: l.nkIds[p] < |roles| && roles[l.nkIds[p]] == NodeRole(p)
  }

  /** The cells take the space computed from the input, and none is too large for its size field if the input fits. */
  ghost predicate SpaceExact(l: Layout, t: KeyTree, keys: seq<string>, values: seq<TestValue>) {
    l.end == Footprint(keys, values) && (FieldsFit(t) ==> AllSmall(l.cells))
  }

  /** The bytes of a build, with the cells they hold. */
  ghost predicate IsBuilt(s: Buf, keys: seq<string>, values: seq<TestValue>, lastWritten: u64, t: KeyTree, l: Layout,
                          roles: seq<Role>, paths: seq<string>, bodies: seq<Buf>) {
    && IsTreeOf(t, keys, values) && Tiled(l.cells, l.end) && NodeRoles(l, roles) && ValuesPlaced(l, roles, t, paths)
    && Holds(s, l.cells, bodies) && SizesHold(s, l.cells)
    && KeysFinal(bodies, l, t, lastWritten) && ValuesFinal(bodies, l, t) && DataKept(bodies, l, roles)
    && FileFinished(s, l) && SpaceExact(l, t, keys, values)
  }

  /** The free cell at the end of the bin. */
  method WriteTail(buf: array<byte>, content: nat)
    requires buf.Length == BASE_SIZE + Align4096(content)
    modifies buf
    ensures KeepsRange(old(buf[..]), buf[..], 0, BASE_SIZE + content)
    ensures buf.Length - BASE_SIZE - content >= 8 ==>
            U32At(buf[..], BASE_SIZE + content) == buf.Length - BASE_SIZE - content
  {
    var freeSize := Align4096(content) - content;
    if freeSize >= 8 {
      ghost var s := buf[..];
      WriteU32(buf, BASE_SIZE + content, freeSize);
      Put32Read(s, BASE_SIZE + content, freeSize);
    }
  }

  lemma {:induction false} TailKept(s: Buf, r: Buf, end: nat)
    requires TailFree(s, end) && KeepsRange(s, r, BASE_SIZE + HBIN_DATA, |s|)
    ensures TailFree(r, end)
  {
  }

  /** Steps 5 and 6, and the free cell before them. */
  method WriteHeaders(buf: array<byte>, l: Layout)
    requires buf.Length == BASE_SIZE + Align4096(HBIN_DATA + l.end) && l.rootId < |l.cells|
    modifies buf
    ensures KeepsRange(old(buf[..]), buf[..], BASE_SIZE + HBIN_DATA, BASE_SIZE + HBIN_DATA + l.end)
    ensures FileFinished(buf[..], l)
  {
    WriteTail(buf, HBIN_DATA + l.end);
    ghost var s1 := buf[..];
    var binSize := AsU32(Align4096(HBIN_DATA + l.end));
    WriteBinHeader(buf, binSize);
    ghost var s2 := buf[..];
    TailKept(s1, s2, l.end);
    WriteBaseBlock(buf, CellOffset(l.cells[l.rootId]), binSize);
    BinKept(s2, buf[..], binSize);
    TailKept(s2, buf[..], l.end);
  }

  /** `TestHiveBuilder::build`. An empty first component would give a key the root's path. */
  method Build(keys: seq<string>, values: seq<TestValue>, keyFiletime: u64)
    returns (buf: array<byte>, ghost t: KeyTree, ghost l: Layout, ghost roles: seq<Role>, ghost paths: seq<string>,
             ghost bodies: seq<Buf>)
    requires GoodInput(keys, values)
    ensures fresh(buf) && IsBuilt(buf[..], keys, values, keyFiletime, t, l, roles, paths, bodies)
  {
    var tree := FromPaths(keys, values);
    ghost var bound := MaxLength(AllPaths(keys, values));
    TreeBounded(tree, keys, values);
    ghost var start := StartBodies(keyFiletime);
    var layout;
    layout, roles, paths := LayOut(tree, keyFiletime, keys, values, start, bound);
    t, l := tree, layout;
    assert NodeRoles(l, roles);
    buf, bodies := WriteAndLink(tree, layout, roles, paths, keyFiletime, start, bound, keys, values);
  }

  method WriteAndLink(t: KeyTree, l: Layout, ghost roles: seq<Role>, ghost paths: seq<string>, ghost lastWritten: u64,
                      ghost start: string -> Buf, ghost bound: nat, ghost keys: seq<string>,
                      ghost values: seq<TestValue>)
    returns (buf: array<byte>, ghost bodies: seq<Buf>)
    requires GoodInput(keys, values) && IsTreeOf(t, keys, values) && Bounded(t, bound)
    requires Tiled(l.cells, l.end) && |roles| == |l.cells| && BodiesFor(start, lastWritten)
    requires KeysPlaced(l, roles, t, AllPaths(keys, values), start, lastWritten) && ValuesPlaced(l, roles, t, paths)
    ensures fresh(buf) && Holds(buf[..], l.cells, bodies) && SizesHold(buf[..], l.cells)
    ensures KeysFinal(bodies, l, t, lastWritten) && ValuesFinal(bodies, l, t) && DataKept(bodies, l, roles)
            && FileFinished(buf[..], l)
  {
    var img := new Image(l.cells, l.end);
    bodies := LinkAll(img, l, t, roles, paths, lastWritten, start, bound, keys, values);
    FinishImage(img, l, bodies);
    buf := img.buf;
  }

  method FinishImage(img: Image, l: Layout, ghost bodies: seq<Buf>)
    requires img.Valid() && img.bodies == bodies && img.cells == l.cells && img.end == l.end && l.rootId < |l.cells|
    requires img.buf.Length == BASE_SIZE + Align4096(HBIN_DATA + l.end)
    modifies img.buf
    ensures Holds(img.buf[..], l.cells, bodies) && SizesHold(img.buf[..], l.cells) && FileFinished(img.buf[..], l)
  {
    ghost var s := img.buf[..];
    WriteHeaders(img.buf, l);
    CellsKept(s, img.buf[..], l.cells, l.end, bodies);
  }

  /** The second pass, with the bodies it is to reach. */
  method LinkAll(img: Image, l: Layout, t: KeyTree, ghost roles: seq<Role>, ghost paths: seq<string>,
                 ghost lastWritten: u64, ghost start: string -> Buf, ghost bound: nat, ghost keys: seq<string>,
                 ghost values: seq<TestValue>)
    returns (ghost bodies: seq<Buf>)
    requires GoodInput(keys, values) && IsTreeOf(t, keys, values) && Bounded(t, bound)
    requires img.Valid() && img.cells == l.cells && |roles| == |l.cells| && img.bodies == Bodies(l.cells)
             && BodiesFor(start, lastWritten)
    requires KeysPlaced(l, roles, t, AllPaths(keys, values), start, lastWritten) && ValuesPlaced(l, roles, t, paths)
    modifies img, img.buf
    ensures img.Valid() && img.bodies == bodies && DataKept(bodies, l, roles)
    ensures KeysFinal(bodies, l, t, lastWritten) && ValuesFinal(bodies, l, t)
  {
    ghost var goal := GoalBodies(l, t, start, lastWritten);
    ghost var leafStart, leafGoal := LeafBodies(l, t);
    ghost var listStart, listGoal := ListBodies(l);
    ghost var pointerGoal := PointerBodies(l, roles);
    LinkCells(img, l, t, roles, paths, lastWritten, start, goal, leafStart, leafGoal, listStart, listGoal,
              pointerGoal, bound, keys, values);
    bodies := img.bodies;
    KeysFinished(bodies, l, t, lastWritten, keys, values, start, goal, leafStart, leafGoal);
    ValuesFinished(bodies, l, roles, t, paths, listStart, listGoal, pointerGoal);
  }

  lemma {:induction false} ValuesFinished(bodies: seq<Buf>, l: Layout, roles: seq<Role>, t: KeyTree, paths: seq<string>,
                                          listStart: string -> Buf, listGoal: string -> Buf, pointerGoal: nat -> Buf)
    requires ValuesPlaced(l, roles, t, paths)
    requires ListGoals(l, listStart, listGoal) && (forall p | p in l.vkIds :: listStart(p) == Zeros(4 * |l.vkIds[p]|))
    requires PointerGoals(l, pointerGoal) && ListsFilled(bodies, l, listGoal) && PointersFilled(bodies, l, pointerGoal)
    requires RecordsLinked(bodies, l) && DataInlined(bodies, l, t)
    ensures ValuesFinal(bodies, l, t)
  {
    forall p | p in t.values ensures ListFinal(bodies, l, p) {
      KeyFacts(l, roles, t, paths, p);
      assert ListGoal(l, listStart, listGoal, p);
    }
    forall vk | vk in l.data.ids ensures PointerFinal(bodies, l, vk) {
      assert PointerGoal(l, pointerGoal, vk);
    }
  }
}
