/** Build then read is the identity: a built hive opens, and navigating it yields exactly the keys and values
    it was built from (`winreg-testutil/src/lib.rs` against `winreg-core/src/hive.rs`, `key.rs`, `value.rs`). */
module BuiltTrees {
  import opened Wrappers
  import opened Bytes
  import opened Sequences
  import opened Text
  import opened Cells
  import opened Hives
  import opened KeyGraphs
  import opened Keys
  import opened Allocation
  import opened Footprints
  import opened KeyTrees
  import opened GivenOrder
  import opened ValueLayouts
  import opened Layouts
  import opened Images
  import opened Headers
  import opened Linking
  import opened Builder
  import opened BuiltCells
  import opened RoundTrip

  // ----- what was asked for, by path -----

  /** The root, a path that was given, or a prefix of one. */
  predicate IsKeyPath(keys: seq<string>, values: seq<TestValue>, p: string) {
    p == [] || p in AllPaths(keys, values)
  }

  function KeysBelow(keyOf: string -> Key, p: string, names: seq<string>): (ks: seq<Key>)
    ensures |ks| == |names| && forall i | 0 <= i < |names| :: ks[i] == keyOf(Child(p, names[i]))
  {
    seq(|names|, i requires 0 <= i < |names| => keyOf(Child(p, names[i])))
  }

  /** The key at `p`: its children and values in order, its name, time and parent. The root has no values:
      no input has its path. */
  ghost predicate KeyShown(g: KeyGraph<Key>, keyOf: string -> Key, keys: seq<string>, values: seq<TestValue>,
                           lastWritten: u64, p: string)
  {
    && g.subkeys(keyOf(p)) == Ok(KeysBelow(keyOf, p, ChildNames(keys, values, p)))
    && g.values(keyOf(p)) == Ok(Shown(if p == [] then [] else ValuesAt(values, p)))
    && g.name(keyOf(p)) == AsRead(if p == [] then ROOT_NAME else NameOf(p))
    && g.isRoot(keyOf(p)) == (p == []) && keyOf(p).node.lastWritten == lastWritten
    && (p != [] ==> g.parent(keyOf(p)) == Ok(Some(keyOf(ParentPath(p)))))
  }

  /** A graph that is the tree of these paths and values, every key of it distinct. */
  ghost predicate Represents(g: KeyGraph<Key>, keyOf: string -> Key, keys: seq<string>, values: seq<TestValue>,
                             lastWritten: u64)
  {
    && (forall p {:trigger KeyShown(g, keyOf, keys, values, lastWritten, p)} | IsKeyPath(keys, values, p) ::
          KeyShown(g, keyOf, keys, values, lastWritten, p))
    && (forall p, q {:trigger keyOf(p), keyOf(q)} | IsKeyPath(keys, values, p) && IsKeyPath(keys, values, q)
        && keyOf(p).offset == keyOf(q).offset ::
          p == q)
  }

  // ----- the keys of a build, by path -----

  ghost predicate KeysByPath(h: BuiltHive, keyOf: string -> Key) {
    && keyOf([]) == RootKeyOf(h)
    && forall parent, n {:trigger keyOf(Child(parent, n))} | GoodChild(parent, n) ::
         keyOf(Child(parent, n)) == ChildKey(h, parent, n)
  }

  lemma {:induction false} PathKeys(h: BuiltHive) returns (keyOf: string -> Key)
    ensures KeysByPath(h, keyOf)
  {
    keyOf := p => if p == [] then RootKeyOf(h) else ChildKey(h, ParentPath(p), NameOf(p));
    forall parent, n | GoodChild(parent, n) ensures keyOf(Child(parent, n)) == ChildKey(h, parent, n) {
      ChildParts(parent, n);
    }
  }

  lemma {:induction false} KidsAre(h: BuiltHive, p: string)
    requires IsTreeOf(h.tree, h.keys, h.values)
    ensures h.tree.Kids(p) == ChildNames(h.keys, h.values, p) && h.tree.Vals(p) == ValuesAt(h.values, p)
  {
    assert Matches(h.tree, AllPaths(h.keys, h.values), h.values, p);
  }

  /** A path other than the root's is a child of its parent, which is a key path too. */
  lemma {:induction false} PathIsChild(h: BuiltHive, p: string)
    requires GoodInput(h.keys, h.values) && IsTreeOf(h.tree, h.keys, h.values) && p != []
             && IsKeyPath(h.keys, h.values, p)
    ensures p == Child(ParentPath(p), NameOf(p)) && NameOf(p) in h.tree.Kids(ParentPath(p))
            && GoodChild(ParentPath(p), NameOf(p))
    ensures IsKeyPath(h.keys, h.values, ParentPath(p))
  {
    AllPathsParented(h.keys, h.values);
    assert HasParent(AllPaths(h.keys, h.values), p);
    WholePath(p);
    NameHasNoSep(p);
    KidsOf(h.tree, h.keys, h.values, ParentPath(p), NameOf(p));
  }

  lemma {:induction false} NamesGood(h: BuiltHive, p: string)
    requires GoodInput(h.keys, h.values) && IsTreeOf(h.tree, h.keys, h.values)
    ensures forall i | 0 <= i < |h.tree.Kids(p)| :: GoodChild(p, h.tree.Kids(p)[i])
  {
    forall i | 0 <= i < |h.tree.Kids(p)| ensures GoodChild(p, h.tree.Kids(p)[i]) {
      KidsOf(h.tree, h.keys, h.values, p, h.tree.Kids(p)[i]);
    }
  }

  lemma {:induction false} SameChildren(h: BuiltHive, keyOf: string -> Key, p: string, names: seq<string>)
    requires KeysByPath(h, keyOf) && forall i | 0 <= i < |names| :: GoodChild(p, names[i])
    ensures ChildKeys(h, p, names) == KeysBelow(keyOf, p, names)
  {
    forall i | 0 <= i < |names| ensures ChildKeys(h, p, names)[i] == KeysBelow(keyOf, p, names)[i] {
      assert keyOf(Child(p, names[i])) == ChildKey(h, p, names[i]);
    }
  }

  /** What a key path's key shows. */
  ghost predicate AppearsAt(reader: CellReader, h: BuiltHive, key: Key, p: string) {
    if p == [] then Appears(reader, h, key, [], ROOT_NAME, true, [])
    else Appears(reader, h, key, p, NameOf(p), false, h.tree.Vals(p))
  }

  lemma {:induction false} PathAppears(reader: CellReader, h: BuiltHive, keyOf: string -> Key, p: string)
    requires KeySide(h) && ValueSide(h) && Serves(reader, h) && KeysByPath(h, keyOf)
    requires GoodInput(h.keys, h.values) && IsTreeOf(h.tree, h.keys, h.values) && IsKeyPath(h.keys, h.values, p)
    ensures AppearsAt(reader, h, keyOf(p), p) && keyOf(p).offset == h.At(NodeId(h.layout, p))
    ensures p != [] ==> keyOf(p).node.parent == h.At(NodeId(h.layout, ParentPath(p)))
  {
    if p == [] {
      RootAppears(reader, h);
    } else {
      PathIsChild(h, p);
      var parent, n := ParentPath(p), NameOf(p);
      assert keyOf(Child(parent, n)) == ChildKey(h, parent, n);
      ChildAppears(reader, h, parent, n);
    }
  }

  lemma {:induction false} ParentBack(reader: CellReader, key: Key, parent: Key)
    requires reader.cell(parent.offset) == Ok(KeyNodeCell(parent.node)) && parent.offset != NULL_OFFSET
             && key.node.parent == parent.offset
    ensures ParentOf(reader, key) == Ok(Some(parent))
  {
  }

  lemma {:induction false} PathShown(reader: CellReader, h: BuiltHive, keyOf: string -> Key, p: string)
    requires KeySide(h) && ValueSide(h) && Serves(reader, h) && KeysByPath(h, keyOf)
    requires GoodInput(h.keys, h.values) && IsTreeOf(h.tree, h.keys, h.values) && IsKeyPath(h.keys, h.values, p)
    ensures KeyShown(HiveGraph(reader), keyOf, h.keys, h.values, h.lastWritten, p)
  {
    PathAppears(reader, h, keyOf, p);
    KidsAre(h, p);
    NamesGood(h, p);
    SameChildren(h, keyOf, p, h.tree.Kids(p));
    if p != [] {
      PathIsChild(h, p);
      PathAppears(reader, h, keyOf, ParentPath(p));
      ParentBack(reader, keyOf(p), keyOf(ParentPath(p)));
    }
  }

  // ----- distinct paths have distinct offsets -----

  lemma {:induction false} OffsetFits(cells: seq<AllocatedCell>, end: nat, i: nat)
    requires Tiled(cells, end) && HBIN_DATA + end < 0x1_0000_0000 && i < |cells|
    ensures Offset(cells, i) == HBIN_DATA + cells[i].offset && cells[i].alignedSize > 0
  {
    TiledCell(cells, end, i);
  }

  lemma {:induction false} OffsetsApart(h: BuiltHive, i: nat, j: nat)
    requires h.Held() && i < j < |h.layout.cells|
    ensures h.At(i) < h.At(j)
  {
    OffsetFits(h.layout.cells, h.layout.end, i);
    OffsetFits(h.layout.cells, h.layout.end, j);
    TiledApart(h.layout.cells, h.layout.end, i, j);
  }

  lemma {:induction false} OffsetsDiffer(h: BuiltHive, i: nat, j: nat)
    requires h.Held() && i < |h.layout.cells| && j < |h.layout.cells| && i != j
    ensures h.At(i) != h.At(j)
  {
    if i < j {
      OffsetsApart(h, i, j);
    } else {
      OffsetsApart(h, j, i);
    }
  }

  /** The cell of a key path has its role. */
  lemma {:induction false} PathRole(h: BuiltHive, p: string)
    requires KeySide(h) && NodeRoles(h.layout, h.roles) && GoodInput(h.keys, h.values)
             && IsTreeOf(h.tree, h.keys, h.values)
    requires IsKeyPath(h.keys, h.values, p)
    ensures NodeId(h.layout, p) < |h.roles| && h.roles[NodeId(h.layout, p)] == NodeRole(p)
  {
    if p != [] {
      PathIsChild(h, p);
      assert NodeFinal(h.bodies, h.layout, h.tree, h.lastWritten, ParentPath(p), NameOf(p));
    }
  }

  lemma {:induction false} PathsApart(h: BuiltHive, p: string, q: string)
    requires h.Held() && KeySide(h) && NodeRoles(h.layout, h.roles) && GoodInput(h.keys, h.values)
             && IsTreeOf(h.tree, h.keys, h.values)
    requires IsKeyPath(h.keys, h.values, p) && IsKeyPath(h.keys, h.values, q) && p != q
    ensures h.At(NodeId(h.layout, p)) != h.At(NodeId(h.layout, q))
  {
    PathRole(h, p);
    PathRole(h, q);
    OffsetsDiffer(h, NodeId(h.layout, p), NodeId(h.layout, q));
  }

  lemma {:induction false} GraphRepresents(h: BuiltHive, reader: CellReader, keyOf: string -> Key)
    requires h.Held() && KeySide(h) && ValueSide(h) && NodeRoles(h.layout, h.roles) && Serves(reader, h)
             && KeysByPath(h, keyOf)
    requires GoodInput(h.keys, h.values) && IsTreeOf(h.tree, h.keys, h.values)
    ensures Represents(HiveGraph(reader), keyOf, h.keys, h.values, h.lastWritten)
  {
    forall p | IsKeyPath(h.keys, h.values, p)
      ensures KeyShown(HiveGraph(reader), keyOf, h.keys, h.values, h.lastWritten, p)
              && keyOf(p).offset == h.At(NodeId(h.layout, p))
    {
      PathShown(reader, h, keyOf, p);
      PathAppears(reader, h, keyOf, p);
    }
    forall p, q | IsKeyPath(h.keys, h.values, p) && IsKeyPath(h.keys, h.values, q)
             && keyOf(p).offset == keyOf(q).offset ensures p == q {
      if p != q {
        PathsApart(h, p, q);
      }
    }
  }

  // ----- opening -----

  lemma {:induction false} FinishedOpens(s: Buf, l: Layout)
    requires FileFinished(s, l) && |s| - BASE_SIZE < 0x1_0000_0000
    ensures FromBytes(s).Ok? && FromBytes(s).value.data == s
            && FromBytes(s).value.header.rootCellOffset == Offset(l.cells, l.rootId)
    ensures FromBytes(s).value.bins == [HbinDescriptor(0, |s| - BASE_SIZE, BASE_SIZE)]
  {
    SizeAsWritten(|s| - BASE_SIZE, l.end);
    Opens(s, Offset(l.cells, l.rootId), |s| - BASE_SIZE);
  }

  /** A built hive opens as one bin, with its root key where the base block says. */
  lemma {:induction false} BuiltOpens(h: BuiltHive)
    requires h.Valid()
    ensures FromBytes(h.bytes).Ok? && FromBytes(h.bytes).value.data == h.bytes
    ensures FromBytes(h.bytes).value.header.rootCellOffset == h.At(h.layout.rootId)
    ensures FromBytes(h.bytes).value.bins == [HbinDescriptor(0, |h.bytes| - BASE_SIZE, BASE_SIZE)]
  {
    FinishedOpens(h.bytes, h.layout);
  }

  lemma {:induction false} SidesOf(h: BuiltHive)
    requires h.Valid()
    ensures h.Held() && KeySide(h) && ValueSide(h) && NodeRoles(h.layout, h.roles)
    ensures GoodInput(h.keys, h.values) && IsTreeOf(h.tree, h.keys, h.values)
  {
    BothSides(h);
  }

  lemma {:induction false} RootFound(reader: CellReader, h: BuiltHive)
    requires KeySide(h) && Serves(reader, h)
    ensures KeyFromOffset(reader, h.At(h.layout.rootId)) == Ok(RootKeyOf(h))
  {
    RootReads(reader, h);
  }

  // ----- the same, by position in the input -----

  /** `vs` are the values given for `p`, each once, in the order in which they are given, as they are read. */
  ghost predicate ValuesAsGiven(values: seq<TestValue>, p: string, idx: seq<nat>, vs: seq<ValueData>) {
    && Lists(idx, set i: nat | i < |values| && values[i].keyPath == p) && |vs| == |idx|
    && forall k | 0 <= k < |idx| ::
         && idx[k] < |values| && vs[k].name == AsRead(values[idx[k]].name)
         && TypeIs(vs[k].dataType, values[idx[k]].dataType) && vs[k].raw == Ok(values[idx[k]].data)
  }

  /** `k` is the key of the path `q` directly below `p`: it has the last component's name and is linked back. */
  ghost predicate IsKidOf(g: KeyGraph<Key>, keyOf: string -> Key, p: string, q: string, k: Key) {
    k == keyOf(q) && g.parent(k) == Ok(Some(keyOf(p))) && exists n :: IsChildOf(q, p, n) && g.name(k) == AsRead(n)
  }

  /** `ks` are the keys of the paths in `all` directly below `p`, each once, in the order of `all`. */
  ghost predicate KidsAsGiven(g: KeyGraph<Key>, keyOf: string -> Key, all: seq<string>, p: string, idx: seq<nat>,
                              ks: seq<Key>)
  {
    && Lists(idx, set i: nat | i < |all| && LiesUnder(all[i], p)) && |ks| == |idx|
    && forall k | 0 <= k < |idx| :: idx[k] < |all| && IsKidOf(g, keyOf, p, all[idx[k]], ks[k])
  }

  /** The key at `p` lists exactly the values and keys that were given for it, in the order in which they were given. */
  ghost predicate ShowsGiven(g: KeyGraph<Key>, keyOf: string -> Key, keys: seq<string>, values: seq<TestValue>,
                             p: string)
  {
    && g.values(keyOf(p)).Ok? && g.subkeys(keyOf(p)).Ok?
    && (exists idx :: ValuesAsGiven(values, p, idx, g.values(keyOf(p)).value))
    && (exists idx :: KidsAsGiven(g, keyOf, AllPaths(keys, values), p, idx, g.subkeys(keyOf(p)).value))
  }

  ghost predicate AllShowGiven(g: KeyGraph<Key>, keyOf: string -> Key, keys: seq<string>, values: seq<TestValue>) {
    forall p {:trigger ShowsGiven(g, keyOf, keys, values, p)} | IsKeyPath(keys, values, p) ::
      ShowsGiven(g, keyOf, keys, values, p)
  }

  lemma ValuesShowGiven(values: seq<TestValue>, p: string) returns (idx: seq<nat>)
    ensures ValuesAsGiven(values, p, idx, Shown(ValuesAt(values, p)))
  {
    idx := ValuesAtGiven(values, p);
  }

  lemma NoRootValues(keys: seq<string>, values: seq<TestValue>)
    requires GoodInput(keys, values)
    ensures ValuesAt(values, []) == []
  {
    var idx := ValuesAtGiven(values, []);
    ListsNone(idx, set i: nat | i < |values| && values[i].keyPath == []);
    forall i: nat | i < |values| ensures values[i].keyPath != [] {
      assert values[i] in values;
    }
  }

  lemma {:induction false} KidGiven(g: KeyGraph<Key>, keyOf: string -> Key, keys: seq<string>, values: seq<TestValue>,
                                    lastWritten: u64, p: string, q: string, n: string)
    requires GoodInput(keys, values) && Represents(g, keyOf, keys, values, lastWritten)
    requires q in AllPaths(keys, values) && IsChildOf(q, p, n)
    ensures IsKidOf(g, keyOf, p, q, keyOf(Child(p, n)))
  {
    ChildParts(p, n);
    AllPathsNotEmpty(keys, values);
    assert KeyShown(g, keyOf, keys, values, lastWritten, q);
  }

  lemma {:induction false} KidsShowGiven(g: KeyGraph<Key>, keyOf: string -> Key, keys: seq<string>,
                                         values: seq<TestValue>, lastWritten: u64, p: string) returns (idx: seq<nat>)
    requires GoodInput(keys, values) && Represents(g, keyOf, keys, values, lastWritten)
    ensures KidsAsGiven(g, keyOf, AllPaths(keys, values), p, idx, KeysBelow(keyOf, p, ChildNames(keys, values, p)))
  {
    var all, names := AllPaths(keys, values), ChildNames(keys, values, p);
    idx := ChildNamesGiven(keys, values, p);
    forall k | 0 <= k < |idx| ensures idx[k] < |all| && IsKidOf(g, keyOf, p, all[idx[k]], keyOf(Child(p, names[k]))) {
      KidGiven(g, keyOf, keys, values, lastWritten, p, all[idx[k]], names[k]);
    }
  }

  lemma {:induction false} RepresentsGiven(g: KeyGraph<Key>, keyOf: string -> Key, keys: seq<string>,
                                           values: seq<TestValue>, lastWritten: u64)
    requires GoodInput(keys, values) && Represents(g, keyOf, keys, values, lastWritten)
    ensures AllShowGiven(g, keyOf, keys, values)
  {
    NoRootValues(keys, values);
    forall p | IsKeyPath(keys, values, p) ensures ShowsGiven(g, keyOf, keys, values, p) {
      assert KeyShown(g, keyOf, keys, values, lastWritten, p);
      var idx := ValuesShowGiven(values, p);
      var jdx := KidsShowGiven(g, keyOf, keys, values, lastWritten, p);
    }
  }

  /** The bytes open, and the root key is that of a graph that represents the input. */
  ghost predicate ReadsBackAs(bytes: Buf, keyOf: string -> Key, keys: seq<string>, values: seq<TestValue>,
                              lastWritten: u64)
  {
    && FromBytes(bytes).Ok? && RootKey(FromBytes(bytes).value) == Ok(keyOf([]))
    && Represents(HiveGraph(FlatFile(bytes)), keyOf, keys, values, lastWritten)
    && AllShowGiven(HiveGraph(FlatFile(bytes)), keyOf, keys, values)
    && keyOf([]).Name() == "CMI-root"
  }

  lemma {:induction false} RootNamed(g: KeyGraph<Key>, keyOf: string -> Key, keys: seq<string>, values: seq<TestValue>,
                                     lastWritten: u64)
    requires Represents(g, keyOf, keys, values, lastWritten)
    ensures g.name(keyOf([])) == "CMI-root"
  {
    assert KeyShown(g, keyOf, keys, values, lastWritten, []);
    RootAsRead();
  }

  lemma RootAsRead()
    ensures AsRead(ROOT_NAME) == "CMI-root"
  {
    AsciiAsRead(ROOT_NAME);
  }

  /** Build then read is the identity. */
  lemma {:induction false} ReadsBack(h: BuiltHive) returns (keyOf: string -> Key)
    requires h.Valid()
    ensures ReadsBackAs(h.bytes, keyOf, h.keys, h.values, h.lastWritten) && KeysByPath(h, keyOf)
  {
    BuiltOpens(h);
    SidesOf(h);
    FileServes(h);
    keyOf := PathKeys(h);
    RootFound(FlatFile(h.bytes), h);
    GraphRepresents(h, FlatFile(h.bytes), keyOf);
    RepresentsGiven(HiveGraph(FlatFile(h.bytes)), keyOf, h.keys, h.values, h.lastWritten);
    RootNamed(HiveGraph(FlatFile(h.bytes)), keyOf, h.keys, h.values, h.lastWritten);
  }

  // ----- end to end -----

  /** Lengths and counts of the input fit the fields of the format. */
  ghost predicate InputFits(keys: seq<string>, values: seq<TestValue>) {
    && (forall p {:trigger ChildNames(keys, values, p)} :: |ChildNames(keys, values, p)| <= 0xFFFF)
    && (forall p {:trigger NameOf(p)} | p in AllPaths(keys, values) :: |Utf8(NameOf(p))| <= 0xFFFF)
    && (forall p {:trigger ValuesAt(values, p)} :: |ValuesAt(values, p)| < 0x1FFF_0000)
    && (forall v | v in values :: |Utf8(v.name)| <= 0xFFFF && |v.data| <= 65535 * 16344)
  }

  lemma {:induction false} ValuesFit(values: seq<TestValue>, p: string)
    requires forall v | v in values :: |Utf8(v.name)| <= 0xFFFF && |v.data| <= MAX_DATA
    ensures forall i | 0 <= i < |ValuesAt(values, p)| :: ValueFits(ValuesAt(values, p)[i])
  {
    if values != [] {
      ValuesFit(values[..|values| - 1], p);
      assert values[|values| - 1] in values;
    }
  }

  lemma {:induction false} KidFits(t: KeyTree, keys: seq<string>, values: seq<TestValue>, p: string, i: nat)
    requires GoodInput(keys, values) && IsTreeOf(t, keys, values) && i < |t.Kids(p)|
    requires forall q {:trigger NameOf(q)} | q in AllPaths(keys, values) :: |Utf8(NameOf(q))| <= 0xFFFF
    ensures |Utf8(t.Kids(p)[i])| <= 0xFFFF
  {
    KidsOf(t, keys, values, p, t.Kids(p)[i]);
    ChildParts(p, t.Kids(p)[i]);
    assert NameOf(Child(p, t.Kids(p)[i])) == t.Kids(p)[i];
  }

  lemma {:induction false} TreeFits(t: KeyTree, keys: seq<string>, values: seq<TestValue>)
    requires GoodInput(keys, values) && IsTreeOf(t, keys, values) && InputFits(keys, values)
    ensures FieldsFit(t)
  {
    forall p ensures |t.Kids(p)| <= 0xFFFF {
      assert Matches(t, AllPaths(keys, values), values, p);
      assert t.Kids(p) == ChildNames(keys, values, p);
    }
    forall p, i | 0 <= i < |t.Kids(p)| ensures |Utf8(t.Kids(p)[i])| <= 0xFFFF {
      KidFits(t, keys, values, p, i);
    }
    forall p | p in t.values
      ensures |t.values[p]| < 0x1FFF_0000 && forall i | 0 <= i < |t.values[p]| :: ValueFits(t.values[p][i])
    {
      assert Matches(t, AllPaths(keys, values), values, p);
      ValuesFit(values, p);
    }
  }

  /** The length of a file with one bin for cells that take this space. */
  function FileLength(space: nat): nat { BASE_SIZE + Align4096(HBIN_DATA + space) }

  /** The length of a built file, from the paths and values alone. */
  function HiveLength(keys: seq<string>, values: seq<TestValue>): nat { FileLength(Footprint(keys, values)) }

  /** What a caller can check before a build: no path starts with an empty component, lengths and counts fit, and
      the bin stays below 4 GiB. */
  ghost predicate Buildable(keys: seq<string>, values: seq<TestValue>) {
    GoodInput(keys, values) && InputFits(keys, values) && HiveLength(keys, values) - BASE_SIZE < 0x1_0000_0000
  }

  lemma {:induction false} FitsWhenBuilt(t: KeyTree, keys: seq<string>, values: seq<TestValue>)
    requires IsTreeOf(t, keys, values) && Buildable(keys, values)
    ensures FieldsFit(t) && HiveLength(keys, values) - BASE_SIZE < 0x1_0000_0000
  {
    TreeFits(t, keys, values);
  }

  lemma {:induction false} FinishedLength(s: Buf, l: Layout)
    requires FileFinished(s, l)
    ensures |s| == FileLength(l.end)
  {
  }

  lemma {:induction false} LengthOfBuilt(s: Buf, l: Layout, t: KeyTree, keys: seq<string>, values: seq<TestValue>)
    requires FileFinished(s, l) && SpaceExact(l, t, keys, values)
    ensures |s| == HiveLength(keys, values)
  {
    FinishedLength(s, l);
  }

  lemma {:induction false} HeldFrom(h: BuiltHive)
    requires Tiled(h.layout.cells, h.layout.end) && Holds(h.bytes, h.layout.cells, h.bodies)
             && SizesHold(h.bytes, h.layout.cells)
    requires FileFinished(h.bytes, h.layout) && |h.bytes| - BASE_SIZE < 0x1_0000_0000
    ensures h.Held()
  {
  }

  lemma {:induction false} ValidFrom(h: BuiltHive)
    requires GoodInput(h.keys, h.values) && FieldsFit(h.tree) && |h.bytes| - BASE_SIZE < 0x1_0000_0000
    requires IsBuilt(h.bytes, h.keys, h.values, h.lastWritten, h.tree, h.layout, h.roles, h.paths, h.bodies)
    ensures h.Valid()
  {
    HeldFrom(h);
  }

  /** What is known of a build of an input that can be built. */
  ghost predicate Faithful(h: BuiltHive, keyOf: string -> Key) {
    h.Valid() && KeysByPath(h, keyOf) && ReadsBackAs(h.bytes, keyOf, h.keys, h.values, h.lastWritten)
  }

  lemma {:induction false} ValidReads(h: BuiltHive) returns (keyOf: string -> Key)
    requires GoodInput(h.keys, h.values) && FieldsFit(h.tree) && |h.bytes| - BASE_SIZE < 0x1_0000_0000
    requires IsBuilt(h.bytes, h.keys, h.values, h.lastWritten, h.tree, h.layout, h.roles, h.paths, h.bodies)
    ensures Faithful(h, keyOf)
  {
    ValidFrom(h);
    keyOf := ReadsBack(h);
  }

  lemma {:induction false} BuildableReads(h: BuiltHive) returns (keyOf: string -> Key)
    requires Buildable(h.keys, h.values)
    requires IsBuilt(h.bytes, h.keys, h.values, h.lastWritten, h.tree, h.layout, h.roles, h.paths, h.bodies)
    ensures Faithful(h, keyOf)
  {
    LengthOfBuilt(h.bytes, h.layout, h.tree, h.keys, h.values);
    FitsWhenBuilt(h.tree, h.keys, h.values);
    keyOf := ValidReads(h);
  }

  /** Builds a hive, of a length that the input determines; for every input that can be built, it reads back as
      exactly that input. */
  method BuildHive(keys: seq<string>, values: seq<TestValue>, keyFiletime: u64)
    returns (buf: array<byte>, ghost h: BuiltHive, ghost keyOf: string -> Key)
    requires GoodInput(keys, values)
    ensures fresh(buf) && buf.Length == HiveLength(keys, values)
    ensures h.bytes == buf[..] && h.keys == keys && h.values == values && h.lastWritten == keyFiletime
    ensures Buildable(keys, values) ==> Faithful(h, keyOf)
  {
    ghost var t, l, roles, paths, bodies;
    buf, t, l, roles, paths, bodies := Build(keys, values, keyFiletime);
    h := BuiltHive(buf[..], keys, values, keyFiletime, t, l, roles, paths, bodies);
    LengthOfBuilt(h.bytes, l, t, keys, values);
    keyOf := PathKeys(h);
    if Buildable(keys, values) {
      keyOf := BuildableReads(h);
    }
  }
}
