/** Reading a built hive back yields the tree it was built from (`winreg-testutil/src/lib.rs` against
    `winreg-core/src/key.rs` and `value.rs`). */
module RoundTrip {
  import opened Wrappers
  import opened Bytes
  import opened Text
  import opened Cells
  import opened Hives
  import opened KeyGraphs
  import opened Keys
  import opened Records
  import opened Footprints
  import opened KeyTrees
  import opened ValueLayouts
  import opened Layouts
  import opened Images
  import opened Linking
  import opened ValueLinking
  import opened LinkPasses
  import opened Builder
  import opened Reading
  import opened BuiltCells

  // ----- the nodes of a build -----

  function RootNode(h: BuiltHive): RawKeyNode {
    LinkedNode(UnlinkedNode(Utf8(ROOT_NAME), true, h.lastWritten), RootLinks(h.layout, h.tree))
  }

  function NodeOf(h: BuiltHive, parent: string, n: string): RawKeyNode {
    LinkedNode(UnlinkedNode(Utf8(n), false, h.lastWritten), LinksOf(h.layout, h.tree, parent, Child(parent, n)))
  }

  function RootKeyOf(h: BuiltHive): Key {
    Key(RootNode(h), h.At(h.layout.rootId))
  }

  function ChildKey(h: BuiltHive, parent: string, n: string): Key {
    Key(NodeOf(h, parent, n), h.At(NodeId(h.layout, Child(parent, n))))
  }

  /** What a build has made of the key cells, and of the value cells. */
  ghost predicate KeySide(h: BuiltHive) {
    KeysFinal(h.bodies, h.layout, h.tree, h.lastWritten) && FieldsFit(h.tree) && LengthsKept(h)
  }

  ghost predicate ValueSide(h: BuiltHive) {
    && ValuesPlaced(h.layout, h.roles, h.tree, h.paths) && ValuesFinal(h.bodies, h.layout, h.tree)
    && FieldsFit(h.tree) && DataLinked(h) && LengthsKept(h)
  }

  lemma {:induction false} LengthsFrom(h: BuiltHive)
    requires h.Held()
    ensures LengthsKept(h)
  {
    forall i | 0 <= i < |h.bodies| ensures |h.bodies[i]| == |h.layout.cells[i].body| {
      HoldsAt(h.bytes, h.layout.cells, h.bodies, i);
    }
  }

  lemma {:induction false} ValueSideFrom(h: BuiltHive, bytes: Buf)
    requires IsBuilt(bytes, h.keys, h.values, h.lastWritten, h.tree, h.layout, h.roles, h.paths, h.bodies)
             && FieldsFit(h.tree) && LengthsKept(h)
    ensures ValueSide(h)
  {
  }

  lemma {:induction false} BothSides(h: BuiltHive)
    requires h.Valid()
    ensures h.Held() && KeySide(h) && ValueSide(h)
  {
    LengthsFrom(h);
    ValueSideFrom(h, h.bytes);
  }

  /** A linked node is served as such. */
  lemma {:induction false} LinkedNodeServed(reader: CellReader, h: BuiltHive, id: nat, name: string, isRoot: bool,
                                            w: Links)
    requires Serves(reader, h) && h.Small(id)
    requires h.bodies[id] == LinkedBody(NodeBody(Utf8(name), isRoot, h.lastWritten), w)
    ensures NodeServed(reader, h, id, LinkedNode(UnlinkedNode(Utf8(name), isRoot, h.lastWritten), w))
            && h.At(id) != NULL_OFFSET
  {
    NodeBodyIs(Utf8(name), isRoot, h.lastWritten);
    LinkedBodyIs(NodeBody(Utf8(name), isRoot, h.lastWritten), UnlinkedNode(Utf8(name), isRoot, h.lastWritten), w);
    assert RawServed(reader, h, id);
  }

  lemma {:induction false} RootReads(reader: CellReader, h: BuiltHive)
    requires KeySide(h) && Serves(reader, h)
    ensures reader.cell(RootKeyOf(h).offset) == Ok(KeyNodeCell(RootKeyOf(h).node)) && RootKeyOf(h).offset != NULL_OFFSET
  {
    assert h.Small(h.layout.rootId);
    LinkedNodeServed(reader, h, h.layout.rootId, ROOT_NAME, true, RootLinks(h.layout, h.tree));
  }

  lemma {:induction false} ChildReads(reader: CellReader, h: BuiltHive, parent: string, n: string)
    requires KeySide(h) && Serves(reader, h) && n in h.tree.Kids(parent)
    ensures reader.cell(ChildKey(h, parent, n).offset) == Ok(KeyNodeCell(ChildKey(h, parent, n).node))
    ensures ChildKey(h, parent, n).offset != NULL_OFFSET
  {
    var p := Child(parent, n);
    assert NodeFinal(h.bodies, h.layout, h.tree, h.lastWritten, parent, n);
    var i :| 0 <= i < |h.tree.Kids(parent)| && h.tree.Kids(parent)[i] == n;
    assert h.Small(h.layout.nkIds[p]);
    LinkedNodeServed(reader, h, h.layout.nkIds[p], n, false, LinksOf(h.layout, h.tree, parent, p));
  }

  /** Names, flags, times and links of the nodes. */
  lemma {:induction false} NodeShows(name: string, isRoot: bool, lastWritten: u64, w: Links)
    requires |Utf8(name)| <= 0xFFFF
    ensures var nk := LinkedNode(UnlinkedNode(Utf8(name), isRoot, lastWritten), w);
            && nk.Name() == AsRead(name) && nk.IsRoot() == isRoot && nk.lastWritten == lastWritten
               && nk.parent == w.parent
            && LinksSubkeys(nk, w.subkeys) && LinksValues(nk, w.values)
  {
    assert Utf8(name)[..|Utf8(name)|] == Utf8(name);
  }

  ghost predicate LinksSubkeys(node: RawKeyNode, w: Option<(u32, u32)>) {
    && node.subkeyCount == (if w.Some? then w.value.1 else 0)
    && (w.Some? ==> node.subkeysListOffset == w.value.0)
  }

  ghost predicate LinksValues(node: RawKeyNode, w: Option<(u32, u32)>) {
    && node.valueCount == (if w.Some? then w.value.1 else 0)
    && (w.Some? ==> node.valuesListOffset == w.value.0)
  }

  // ----- subkeys -----

  function ChildKeys(h: BuiltHive, p: string, names: seq<string>): (ks: seq<Key>)
    ensures |ks| == |names| && forall i | 0 <= i < |names| :: ks[i] == ChildKey(h, p, names[i])
  {
    seq(|names|, i requires 0 <= i < |names| => ChildKey(h, p, names[i]))
  }

  ghost predicate ChildServed(reader: CellReader, h: BuiltHive, p: string, n: string) {
    reader.cell(ChildKey(h, p, n).offset) == Ok(KeyNodeCell(ChildKey(h, p, n).node))
  }

  lemma {:induction false} ChildrenThere(reader: CellReader, h: BuiltHive, p: string, names: seq<string>)
    requires forall i | 0 <= i < |names| :: ChildServed(reader, h, p, names[i])
    ensures KeysThere(reader, ChildKeys(h, p, names))
    decreases |names|
  {
    if names != [] {
      assert ChildServed(reader, h, p, names[0]);
      ChildrenThere(reader, h, p, names[1..]);
      assert ChildKeys(h, p, names)[1..] == ChildKeys(h, p, names[1..]);
    }
  }

  lemma {:induction false} FilledLeaf(n: nat, es: seq<LhElement>)
    requires |es| == n
    ensures IsLeaf(PutElements(LeafBody(n), es), n, es)
  {
    LeafBodyEmpty(n);
    PutElementsIs(LeafBody(n), n, es);
  }

  /** The list of a key with children is served with its elements. */
  lemma {:induction false} ListReads(reader: CellReader, h: BuiltHive, p: string)
    requires KeySide(h) && Serves(reader, h) && h.tree.Kids(p) != []
    ensures p in h.layout.lhIds && h.At(h.layout.lhIds[p]) != NULL_OFFSET
    ensures LeafServed(reader, h, h.layout.lhIds[p], ElementsOf(h.layout, p, h.tree.Kids(p)))
  {
    var l, n := h.layout, |h.tree.Kids(p)|;
    assert LeafFinal(h.bodies, l, h.tree, p);
    var es := ElementsOf(l, p, h.tree.Kids(p));
    FilledLeaf(n, es);
    assert h.Small(l.lhIds[p]);
    assert LeafServed(reader, h, l.lhIds[p], es);
    assert RawServed(reader, h, l.lhIds[p]);
  }

  lemma {:induction false} ElementOffsets(h: BuiltHive, p: string, names: seq<string>)
    ensures forall i | 0 <= i < |names| ::
              ElementsOf(h.layout, p, names)[i].keyOffset == ChildKeys(h, p, names)[i].offset
  {
    forall i | 0 <= i < |names|
      ensures ElementsOf(h.layout, p, names)[i].keyOffset == ChildKeys(h, p, names)[i].offset
    {
      assert ElementsOf(h.layout, p, names)[i] == ElementOf(h.layout, p, names[i]);
    }
  }

  lemma {:induction false} ListedChildren(reader: CellReader, key: Key, list: u32, es: seq<LhElement>, keys: seq<Key>)
    requires reader.maxIndexDepth > 0 && list != NULL_OFFSET && 0 < |keys| <= 0xFFFF && |es| == |keys|
    requires LinksSubkeys(key.node, Some((list, AsU32(|keys|))))
             && reader.cell(list) == Ok(IndexCell(HashLeafIndex(es)))
    requires (forall i | 0 <= i < |es| :: es[i].keyOffset == keys[i].offset) && KeysThere(reader, keys)
    ensures Subkeys(reader, key) == Ok(keys)
  {
    SubkeysFound(reader, key, es, keys);
  }

  /** A node with these links lists these children. */
  lemma {:induction false} ChildrenBack(reader: CellReader, h: BuiltHive, p: string, key: Key)
    requires KeySide(h) && Serves(reader, h) && LinksSubkeys(key.node, SubkeyLinks(h.layout, h.tree, p))
    ensures Subkeys(reader, key) == Ok(ChildKeys(h, p, h.tree.Kids(p)))
  {
    var names := h.tree.Kids(p);
    if names != [] {
      ListReads(reader, h, p);
      forall i | 0 <= i < |names| ensures ChildServed(reader, h, p, names[i]) {
        assert names[i] in names;
        ChildReads(reader, h, p, names[i]);
      }
      ChildrenThere(reader, h, p, names);
      ElementOffsets(h, p, names);
      ListedChildren(reader, key, h.At(h.layout.lhIds[p]), ElementsOf(h.layout, p, names), ChildKeys(h, p, names));
    }
  }

  // ----- values -----

  /** Values as their readers are to see them: names are read byte by byte. */
  function Shown(vals: seq<TreeValue>): (r: seq<ValueData>)
    ensures |r| == |vals|
    ensures forall i | 0 <= i < |vals| ::
              r[i] == ValueData(AsRead(vals[i].name), TypeFromRaw(vals[i].dataType), Ok(vals[i].data))
  {
    seq(|vals|, i requires 0 <= i < |vals| => ValueData(AsRead(vals[i].name), TypeFromRaw(vals[i].dataType),
        Ok(vals[i].data)))
  }

  function ValueKeys(h: BuiltHive, vals: seq<TreeValue>, ids: seq<nat>): (vs: seq<Value>)
    requires |ids| == |vals|
    ensures |vs| == |vals| && forall i | 0 <= i < |vals| :: vs[i] == Value(ValueOf(h, vals[i], ids[i]), h.At(ids[i]))
  {
    seq(|vals|, i requires 0 <= i < |vals| => Value(ValueOf(h, vals[i], ids[i]), h.At(ids[i])))
  }

  ghost predicate ValueHere(reader: CellReader, list: Buf, i: nat, v: Value) {
    4 * i + 4 <= |list| && U32At(list, 4 * i) == v.offset && reader.cell(v.offset) == Ok(KeyValueCell(v.vk))
  }

  lemma {:induction false} ValuesListed(reader: CellReader, list: Buf, i: nat, vs: seq<Value>)
    requires forall k | 0 <= k < |vs| :: ValueHere(reader, list, i + k, vs[k])
    ensures ValuesThere(reader, list, i, vs)
    decreases |vs|
  {
    if vs != [] {
      assert ValueHere(reader, list, i + 0, vs[0]);
      forall k | 0 <= k < |vs[1..]| ensures ValueHere(reader, list, i + 1 + k, vs[1..][k]) {
        assert vs[1..][k] == vs[k + 1] && ValueHere(reader, list, i + (k + 1), vs[k + 1]);
      }
      ValuesListed(reader, list, i + 1, vs[1..]);
    }
  }

  /** What the build says about one value. */
  ghost predicate ValueKnown(h: BuiltHive, v: TreeValue, vk: nat) {
    ValueLinked(h, v, vk) && DataLaid(h.layout.cells, h.roles, h.layout.data, v.data, vk) && ValueFits(v)
  }

  lemma {:induction false} ValueFacts(h: BuiltHive, p: string, i: nat)
    requires ValueSide(h) && p in h.tree.values && i < |h.tree.values[p]|
    ensures p in h.layout.vkIds && |h.layout.vkIds[p]| == |h.tree.values[p]|
    ensures ValueKnown(h, h.tree.values[p][i], h.layout.vkIds[p][i])
  {
    var l := h.layout;
    KeyFacts(l, h.roles, h.tree, h.paths, p);
    var v, vk := h.tree.values[p][i], l.vkIds[p][i];
    assert ValueLaid(l.cells, h.roles, l.data, p, i, v, vk);
    assert ValueFits(h.tree.values[p][i]);
    if |v.data| <= 4 {
      assert Inlined(h.bodies, l, vk, v.data);
    } else {
      assert PointerFinal(h.bodies, l, vk);
    }
  }

  ghost predicate AllKnown(h: BuiltHive, vals: seq<TreeValue>, ids: seq<nat>) {
    |ids| == |vals| && forall i | 0 <= i < |vals| :: ValueKnown(h, vals[i], ids[i])
  }

  lemma {:induction false} AllValueFacts(h: BuiltHive, p: string)
    requires ValueSide(h) && p in h.tree.values
    ensures p in h.layout.vkIds && AllKnown(h, h.tree.values[p], h.layout.vkIds[p]) && |h.tree.values[p]| < 0x1FFF_0000
  {
    KeyFacts(h.layout, h.roles, h.tree, h.paths, p);
    forall i | 0 <= i < |h.tree.values[p]| ensures ValueKnown(h, h.tree.values[p][i], h.layout.vkIds[p][i]) {
      ValueFacts(h, p, i);
    }
  }

  /** The values list of a key is served with the offsets of its value cells. */
  lemma {:induction false} ValuesListReads(reader: CellReader, h: BuiltHive, p: string)
    requires ValueSide(h) && Serves(reader, h) && p in h.tree.values
    ensures p in h.layout.vkIds && |h.layout.vkIds[p]| == |h.tree.values[p]| && p in h.layout.listIds
    ensures RawServed(reader, h, h.layout.listIds[p])
    ensures ListsOffsets(reader.raw(h.At(h.layout.listIds[p])).value.body, OffsetsOf(h.layout.cells, h.layout.vkIds[p]))
  {
    var l := h.layout;
    KeyFacts(l, h.roles, h.tree, h.paths, p);
    assert ListFinal(h.bodies, l, p);
    assert h.Small(l.listIds[p]);
    OffsetsRead(reader, h, l.listIds[p], Zeros(4 * |l.vkIds[p]|), OffsetsOf(l.cells, l.vkIds[p]));
  }

  lemma {:induction false} ValueShows(reader: CellReader, h: BuiltHive, v: TreeValue, vk: nat)
    requires |Utf8(v.name)| <= 0xFFFF && RawData(reader, Value(ValueOf(h, v, vk), h.At(vk))) == Ok(v.data)
    ensures Described(reader, Value(ValueOf(h, v, vk), h.At(vk)))
            == ValueData(AsRead(v.name), TypeFromRaw(v.dataType), Ok(v.data))
  {
    assert Utf8(v.name)[..|Utf8(v.name)|] == Utf8(v.name);
  }

  lemma {:induction false} ValuesShow(reader: CellReader, h: BuiltHive, vals: seq<TreeValue>, ids: seq<nat>, list: Buf)
    requires Serves(reader, h) && DataLinked(h) && |ids| == |vals| && ListsOffsets(list, OffsetsOf(h.layout.cells, ids))
    requires AllKnown(h, vals, ids)
    ensures ValuesThere(reader, list, 0, ValueKeys(h, vals, ids))
    ensures forall i | 0 <= i < |vals| :: Described(reader, ValueKeys(h, vals, ids)[i]) == Shown(vals)[i]
  {
    var vs := ValueKeys(h, vals, ids);
    forall i | 0 <= i < |vals|
      ensures ValueHere(reader, list, 0 + i, vs[i]) && Described(reader, vs[i]) == Shown(vals)[i]
    {
      assert ValueKnown(h, vals[i], ids[i]);
      ValueReads(reader, h, vals[i], ids[i]);
      assert OffsetAt(list, i) == OffsetsOf(h.layout.cells, ids)[i];
      DataReads(reader, h, vals[i], ids[i]);
      ValueShows(reader, h, vals[i], ids[i]);
    }
    ValuesListed(reader, list, 0, vs);
  }

  lemma {:induction false} ListedValues(reader: CellReader, key: Key, vs: seq<Value>, shown: seq<ValueData>,
                                        w: Option<(u32, u32)>)
    requires w.Some? && LinksValues(key.node, w) && w.value.1 == |vs| > 0 && w.value.0 != NULL_OFFSET
    requires reader.raw(w.value.0).Ok? && ValuesThere(reader, reader.raw(w.value.0).value.body, 0, vs)
    requires |shown| == |vs| && forall i | 0 <= i < |vs| :: Described(reader, vs[i]) == shown[i]
    ensures DescribedValues(reader, key) == Ok(shown)
  {
    ValuesFound(reader, reader.raw(w.value.0).value.body, 0, vs);
    assert Values(reader, key) == Ok(vs);
    assert DescribedValues(reader, key).value == shown;
  }

  lemma {:induction false} NoValues(reader: CellReader, key: Key)
    requires key.node.valueCount == 0
    ensures DescribedValues(reader, key) == Ok([])
  {
    var none: seq<Value> := [];
    assert Values(reader, key) == Ok(none);
    assert DescribedValues(reader, key).value == [];
  }

  lemma {:induction false} ValuesFromList(reader: CellReader, h: BuiltHive, key: Key, vals: seq<TreeValue>,
                                          ids: seq<nat>, listId: nat)
    requires Serves(reader, h) && DataLinked(h) && |ids| == |vals| > 0 && RawServed(reader, h, listId)
    requires ListsOffsets(reader.raw(h.At(listId)).value.body, OffsetsOf(h.layout.cells, ids))
    requires AllKnown(h, vals, ids)
    requires |vals| < 0x1FFF_0000 && LinksValues(key.node, Some((h.At(listId), |vals|)))
    ensures DescribedValues(reader, key) == Ok(Shown(vals))
  {
    ValuesShow(reader, h, vals, ids, reader.raw(h.At(listId)).value.body);
    ListedValues(reader, key, ValueKeys(h, vals, ids), Shown(vals), Some((h.At(listId), |vals|)));
  }

  lemma {:induction false} SomeValues(reader: CellReader, h: BuiltHive, p: string, key: Key)
    requires ValueSide(h) && Serves(reader, h) && LinksValues(key.node, ValueLinks(h.layout, p))
    requires p in h.tree.values && h.tree.values[p] != []
    ensures DescribedValues(reader, key) == Ok(Shown(h.tree.values[p]))
  {
    var vals := h.tree.values[p];
    ValuesListReads(reader, h, p);
    AllValueFacts(h, p);
    ValuesFromList(reader, h, key, vals, h.layout.vkIds[p], h.layout.listIds[p]);
  }

  /** A node with these links has these values. */
  lemma {:induction false} ValuesBack(reader: CellReader, h: BuiltHive, p: string, key: Key)
    requires ValueSide(h) && Serves(reader, h) && LinksValues(key.node, ValueLinks(h.layout, p))
    ensures DescribedValues(reader, key) == Ok(Shown(h.tree.Vals(p)))
  {
    if p in h.tree.values && h.tree.values[p] != [] {
      SomeValues(reader, h, p, key);
    } else {
      NothingLinked(h, p);
      NoValues(reader, key);
      assert Shown([]) == [];
    }
  }

  lemma {:induction false} NothingLinked(h: BuiltHive, p: string)
    requires ValueSide(h) && (p !in h.tree.values || h.tree.values[p] == [])
    ensures ValueLinks(h.layout, p) == None && h.tree.Vals(p) == []
  {
    if p in h.tree.values {
      KeyFacts(h.layout, h.roles, h.tree, h.paths, p);
    }
  }

  // ----- keys, with everything about them -----

  /** A key as navigation sees it: its children, its values, its name and kind. */
  ghost predicate Appears(reader: CellReader, h: BuiltHive, key: Key, p: string, name: string, isRoot: bool,
                          vals: seq<TreeValue>)
  {
    && reader.cell(key.offset) == Ok(KeyNodeCell(key.node)) && key.offset != NULL_OFFSET
    && key.Name() == AsRead(name) && key.node.IsRoot() == isRoot && key.node.lastWritten == h.lastWritten
    && Subkeys(reader, key) == Ok(ChildKeys(h, p, h.tree.Kids(p)))
    && DescribedValues(reader, key) == Ok(Shown(vals))
  }

  lemma {:induction false} RootAppears(reader: CellReader, h: BuiltHive)
    requires KeySide(h) && ValueSide(h) && Serves(reader, h)
    ensures Appears(reader, h, RootKeyOf(h), [], ROOT_NAME, true, [])
  {
    RootReads(reader, h);
    NodeShows(ROOT_NAME, true, h.lastWritten, RootLinks(h.layout, h.tree));
    ChildrenBack(reader, h, [], RootKeyOf(h));
    NoValues(reader, RootKeyOf(h));
    assert Shown([]) == [];
  }

  lemma {:induction false} ChildAppears(reader: CellReader, h: BuiltHive, parent: string, n: string)
    requires KeySide(h) && ValueSide(h) && Serves(reader, h) && n in h.tree.Kids(parent)
    ensures Appears(reader, h, ChildKey(h, parent, n), Child(parent, n), n, false, h.tree.Vals(Child(parent, n)))
    ensures ChildKey(h, parent, n).node.parent == h.At(NodeId(h.layout, parent))
  {
    var p := Child(parent, n);
    var i :| 0 <= i < |h.tree.Kids(parent)| && h.tree.Kids(parent)[i] == n;
    ChildReads(reader, h, parent, n);
    NodeShows(n, false, h.lastWritten, LinksOf(h.layout, h.tree, parent, p));
    ChildrenBack(reader, h, p, ChildKey(h, parent, n));
    ValuesBack(reader, h, p, ChildKey(h, parent, n));
  }
}
