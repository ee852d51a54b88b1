/** Free-then-carve for the keys and values of a built hive (`winreg-carve/src/lib.rs` against
    `winreg-testutil/src/lib.rs`). */
module UndeleteKeys {
  import opened Wrappers
  import opened Bytes
  import opened Text
  import opened Cells
  import opened Hives
  import opened Carve
  import opened CarvedRecords
  import opened Keys
  import opened Records
  import opened Allocation
  import opened KeyTrees
  import opened ValueLayouts
  import opened Layouts
  import opened Images
  import opened Linking
  import opened LinkPasses
  import opened Builder
  import opened BuiltCells
  import opened RoundTrip
  import opened BuiltTrees
  import opened Undelete

  /** What carving makes of the freed cell at file offset `at`: with a plausible record there, that record is
      reported after `i` others unless the cap comes first; without one, nothing is reported at its head. */
  ghost predicate CarvedAt(c: Carver, bins: seq<HbinDescriptor>, at: nat, i: nat, rec: Option<RecoveredCell>) {
    var hits := HiveHits(c, bins, 0);
    if rec.Some? then
      && i < |hits| && hits[i].pos == at + 4
      && (i < 100_000 ==> i < |Recovered(c, bins)| && Recovered(c, bins)[i] == rec.value)
    else forall x | x in hits :: x.pos != at + 4
  }

  lemma {:induction false} HeadIsAt(c: Carver, bins: seq<HbinDescriptor>, cell: AllocatedCell, i: nat,
                                    rec: Option<RecoveredCell>)
    requires HeadCarved(c, bins, cell, i, rec)
    ensures CarvedAt(c, bins, FilePos(cell), i, rec)
  {
  }

  /** The reader refuses a freed cell. */
  lemma {:induction false} FreedUnread(s: Buf, c: AllocatedCell, offset: u32)
    requires SizeRead(s, c, true) && FilePos(c) == BASE_SIZE + offset && offset != NULL_OFFSET
    ensures ReadCell(s, offset) == Err(HiveError.UnallocatedCell(offset))
  {
  }

  /** The bytes of a built hive with the cell at `offset` freed: they still open as the same single bin, and the
      reader no longer gets the cell. */
  ghost predicate FreedAt(h: BuiltHive, offset: u32, s: Buf) {
    && s == Flipped(h.bytes, BASE_SIZE + offset) && OpensAsBin(s)
    && ReadCell(s, offset) == Err(HiveError.UnallocatedCell(offset))
  }

  lemma {:induction false} CellUnread(h: BuiltHive, id: nat)
    requires h.Held() && SizesFit(h) && id < |h.layout.cells|
    ensures ReadCell(Flipped(h.bytes, BASE_SIZE + h.At(id)), h.At(id)) == Err(HiveError.UnallocatedCell(h.At(id)))
  {
    var cells := h.layout.cells;
    OffsetFits(cells, h.layout.end, id);
    SizesAsBuilt(h);
    assert SizeRead(h.bytes, cells[id], false);
    FlippedSize(h.bytes, cells[id]);
    NotNull(h, id);
    FreedUnread(Flipped(h.bytes, FilePos(cells[id])), cells[id], h.At(id));
  }

  lemma {:induction false} NotNull(h: BuiltHive, id: nat)
    requires h.Held() && id < |h.layout.cells|
    ensures h.At(id) != NULL_OFFSET
  {
    TiledCell(h.layout.cells, h.layout.end, id);
  }

  /** Freeing cell `id` leaves the chain otherwise as built. */
  ghost predicate Freeable(h: BuiltHive, id: nat) {
    Freed(Flipped(h.bytes, BASE_SIZE + h.At(id)), h, id) && FilePos(h.layout.cells[id]) == BASE_SIZE + h.At(id)
  }

  ghost predicate AllFreeable(h: BuiltHive) {
    forall id: nat {:trigger Freeable(h, id)} | id < |h.layout.cells| :: Freeable(h, id)
  }

  lemma {:induction false} BuildsFreeable(h: BuiltHive)
    requires h.Held() && TailFree(h.bytes, h.layout.end) && SizesFit(h)
    ensures AllFreeable(h)
  {
    forall id: nat | id < |h.layout.cells| ensures Freeable(h, id) {
      OffsetFits(h.layout.cells, h.layout.end, id);
      FlippedIsFreed(h, id);
    }
  }

  lemma {:induction false} BuiltCellFreed(h: BuiltHive, id: nat)
    requires h.Held() && FileFinished(h.bytes, h.layout) && SizesFit(h) && id < |h.layout.cells|
    ensures FreedAt(h, h.At(id), Flipped(h.bytes, BASE_SIZE + h.At(id)))
  {
    OffsetFits(h.layout.cells, h.layout.end, id);
    CellUnread(h, id);
    OpensWhenFreed(h, id);
  }

  /** Once freed, a cell of a build is out of the reader's reach. */
  lemma {:induction false} FreedCellUnread(h: BuiltHive, id: nat)
    requires h.Valid() && id < |h.layout.cells|
    ensures FreedAt(h, h.At(id), Flipped(h.bytes, BASE_SIZE + h.At(id)))
  {
    SidesOf(h);
    FinishedFile(h);
    BuiltCellFreed(h, id);
  }

  lemma {:induction false} BuiltFreeable(h: BuiltHive)
    requires h.Valid()
    ensures AllFreeable(h)
  {
    SidesOf(h);
    FinishedFile(h);
    HeadedAsBuilt(h);
    BuildsFreeable(h);
  }

  lemma {:induction false} SmallSizes(h: BuiltHive)
    requires Tiled(h.layout.cells, h.layout.end) && AllSmall(h.layout.cells)
    ensures SizesFit(h)
  {
    forall i | 0 <= i < |h.layout.cells| ensures h.layout.cells[i].alignedSize <= 0x7FFF_FFFF {
      TiledCell(h.layout.cells, h.layout.end, i);
      SmallAt(h.layout.cells, i);
    }
  }

  /** No cell of a build is too large for its size field. */
  lemma {:induction false} FinishedFile(h: BuiltHive)
    requires h.Valid()
    ensures FileFinished(h.bytes, h.layout) && SizesFit(h)
  {
    SmallSizes(h);
  }

  /** Cell `id` is at this offset and holds this record, if any. */
  ghost predicate CellIs(h: BuiltHive, id: nat, o: u32, rec: Option<RecoveredCell>) {
    && id < |h.layout.cells| && id < |h.bodies| && o == h.At(id)
    && HoldsRecord(h.layout.cells[id], h.bodies[id], rec)
  }

  lemma {:induction false} CellCarved(h: BuiltHive, id: nat, o: u32, c: Carver, rec: Option<RecoveredCell>)
    returns (i: nat)
    requires AllFreeable(h) && CellIs(h, id, o, rec) && CarvesLike(c) && c.data == Flipped(h.bytes, BASE_SIZE + o)
    ensures CarvedAt(c, WholeBin(c.data), BASE_SIZE + o, i, rec)
  {
    assert Freeable(h, id);
    i := FreedCarved(c, h, id, rec);
    HeadIsAt(c, WholeBin(c.data), h.layout.cells[id], i, rec);
  }

  // ----- keys -----

  lemma {:induction false} NodeIs(h: BuiltHive, parent: string, n: string)
    requires KeySide(h) && n in h.tree.Kids(parent)
    ensures var id := NodeId(h.layout, Child(parent, n));
            id < |h.layout.cells| && id < |h.bodies| && IsNode(h.bodies[id], NodeOf(h, parent, n))
  {
    var p := Child(parent, n);
    assert NodeFinal(h.bodies, h.layout, h.tree, h.lastWritten, parent, n);
    NodeBodyIs(Utf8(n), false, h.lastWritten);
    LinkedBodyIs(NodeBody(Utf8(n), false, h.lastWritten), UnlinkedNode(Utf8(n), false, h.lastWritten),
                 LinksOf(h.layout, h.tree, parent, p));
  }

  /** The report of a key in a freed cell at file offset `at`, from the length of its stored name and the numbers of
      its children and values. */
  ghost function KeyReport(name: string, stored: nat, kids: nat, values: nat, lastWritten: u64, parent: u32, at: nat):
    Option<RecoveredCell> {
    if 1 <= stored <= 512 && kids <= 1_000_000 && values <= 1_000_000 && Printable(name) then
      Some(RecoveredKey(name, lastWritten, parent, if at > 0xFFFF_FFFF then 0xFFFF_FFFF else at, false,
                        RecoverySource.UnallocatedCell, High))
    else None
  }

  ghost predicate Counts(w: Option<(u32, u32)>, n: nat) {
    (if w.Some? then w.value.1 else 0) == n
  }

  lemma {:induction false} LinkedCounts(name: string, lastWritten: u64, w: Links, kids: nat, values: nat)
    requires |Utf8(name)| <= 0xFFFF && Counts(w.subkeys, kids) && Counts(w.values, values)
    ensures var nk := LinkedNode(UnlinkedNode(Utf8(name), false, lastWritten), w);
            && nk.keyNameLen == |Utf8(name)| && nk.subkeyCount == kids && nk.valueCount == values
            && nk.Name() == AsRead(name) && nk.lastWritten == lastWritten && nk.parent == w.parent
  {
    NodeShows(name, false, lastWritten, w);
  }

  lemma {:induction false} HasLeaf(h: BuiltHive, p: string)
    requires KeySide(h) && h.tree.Kids(p) != []
    ensures p in h.layout.lhIds
  {
    assert LeafFinal(h.bodies, h.layout, h.tree, p);
  }

  lemma {:induction false} NameFits(h: BuiltHive, parent: string, n: string)
    requires FieldsFit(h.tree) && n in h.tree.Kids(parent)
    ensures |Utf8(n)| <= 0xFFFF
  {
    var i :| 0 <= i < |h.tree.Kids(parent)| && h.tree.Kids(parent)[i] == n;
  }

  lemma {:induction false} CountKids(l: Layout, t: KeyTree, p: string)
    requires |t.Kids(p)| <= 0xFFFF && (t.Kids(p) != [] ==> p in l.lhIds)
    ensures Counts(SubkeyLinks(l, t, p), |t.Kids(p)|)
  {
  }

  lemma {:induction false} KidsCounted(h: BuiltHive, p: string)
    requires KeySide(h)
    ensures Counts(SubkeyLinks(h.layout, h.tree, p), |h.tree.Kids(p)|)
  {
    if h.tree.Kids(p) != [] {
      HasLeaf(h, p);
    }
    CountKids(h.layout, h.tree, p);
  }

  lemma {:induction false} ValuesCounted(h: BuiltHive, p: string)
    requires ValueSide(h)
    ensures Counts(ValueLinks(h.layout, p), |h.tree.Vals(p)|)
  {
    if p in h.tree.values && h.tree.values[p] != [] {
      AllValueFacts(h, p);
      KeyFacts(h.layout, h.roles, h.tree, h.paths, p);
    } else {
      NothingLinked(h, p);
    }
  }

  lemma {:induction false} ReportOfNode(nk: RawKeyNode, name: string, stored: nat, kids: nat, values: nat, at: nat)
    requires nk.Name() == name && nk.keyNameLen == stored && nk.subkeyCount == kids && nk.valueCount == values
    ensures KeyRecord(nk, at, RecoverySource.UnallocatedCell)
            == KeyReport(name, stored, kids, values, nk.lastWritten, nk.parent, at)
  {
    PrintableExact(name);
  }

  lemma {:induction false} NodeReport(h: BuiltHive, parent: string, n: string, at: nat)
    requires KeySide(h) && ValueSide(h) && n in h.tree.Kids(parent)
    ensures KeyRecord(NodeOf(h, parent, n), at, RecoverySource.UnallocatedCell) == TreeReport(h, parent, n, at)
  {
    var p, nk := Child(parent, n), NodeOf(h, parent, n);
    NameFits(h, parent, n);
    KidsCounted(h, p);
    ValuesCounted(h, p);
    LinkedCounts(n, h.lastWritten, LinksOf(h.layout, h.tree, parent, p), |h.tree.Kids(p)|, |h.tree.Vals(p)|);
    ReportOfNode(nk, AsRead(n), |Utf8(n)|, |h.tree.Kids(p)|, |h.tree.Vals(p)|, at);
  }

  /** The report of the key `n` below `parent`, by the tree that was built. */
  ghost function TreeReport(h: BuiltHive, parent: string, n: string, at: nat): Option<RecoveredCell> {
    var p := Child(parent, n);
    KeyReport(AsRead(n), |Utf8(n)|, |h.tree.Kids(p)|, |h.tree.Vals(p)|, h.lastWritten, h.At(NodeId(h.layout, parent)),
              at)
  }

  /** The same by the input: the keys and values that were given, and the offsets of the keys that were made. */
  ghost function ReportOf(keyOf: string -> Key, keys: seq<string>, values: seq<TestValue>, lastWritten: u64,
                          parent: string, n: string): Option<RecoveredCell> {
    var p := Child(parent, n);
    KeyReport(AsRead(n), |Utf8(n)|, |ChildNames(keys, values, p)|, |ValuesAt(values, p)|, lastWritten,
              keyOf(parent).offset, 4096 + keyOf(p).offset)
  }

  lemma {:induction false} ParentOffset(h: BuiltHive, keyOf: string -> Key, p: string)
    requires GoodInput(h.keys, h.values) && IsTreeOf(h.tree, h.keys, h.values) && KeysByPath(h, keyOf)
             && IsKeyPath(h.keys, h.values, p)
    ensures keyOf(p).offset == h.At(NodeId(h.layout, p))
  {
    if p != [] {
      PathIsChild(h, p);
      assert keyOf(Child(ParentPath(p), NameOf(p))) == ChildKey(h, ParentPath(p), NameOf(p));
    }
  }

  /** Offsets are not cut off. */
  ghost predicate OffsetsFit(h: BuiltHive) {
    forall id: nat {:trigger h.At(id)} | id < |h.layout.cells| :: FilePos(h.layout.cells[id]) == BASE_SIZE + h.At(id)
  }

  lemma {:induction false} HeldOffsets(h: BuiltHive)
    requires h.Held()
    ensures OffsetsFit(h)
  {
    forall id: nat | id < |h.layout.cells| ensures FilePos(h.layout.cells[id]) == BASE_SIZE + h.At(id) {
      OffsetFits(h.layout.cells, h.layout.end, id);
    }
  }

  lemma {:induction false} CellOfNode(h: BuiltHive, id: nat, nk: RawKeyNode, o: u32, rec: Option<RecoveredCell>)
    requires id < |h.layout.cells| && id < |h.bodies| && IsNode(h.bodies[id], nk)
    requires o == h.At(id) && FilePos(h.layout.cells[id]) == BASE_SIZE + o
             && rec == KeyRecord(nk, BASE_SIZE + o, RecoverySource.UnallocatedCell)
    ensures CellIs(h, id, o, rec)
  {
    NodeHolds(h.layout.cells[id], BASE_SIZE + o, h.bodies[id], nk, rec);
  }

  lemma {:induction false} NodeReported(h: BuiltHive, parent: string, n: string, id: nat, o: u32)
    returns (nk: RawKeyNode, rec: Option<RecoveredCell>)
    requires KeySide(h) && ValueSide(h) && n in h.tree.Kids(parent) && id == NodeId(h.layout, Child(parent, n))
             && o == h.At(id)
    ensures id < |h.layout.cells| && id < |h.bodies| && IsNode(h.bodies[id], nk)
    ensures rec == KeyRecord(nk, BASE_SIZE + o, RecoverySource.UnallocatedCell)
    ensures rec == TreeReport(h, parent, n, BASE_SIZE + o)
  {
    NodeIs(h, parent, n);
    NodeReport(h, parent, n, BASE_SIZE + o);
    nk := NodeOf(h, parent, n);
    rec := KeyRecord(nk, BASE_SIZE + o, RecoverySource.UnallocatedCell);
  }

  /** The child's node, in its cell. */
  lemma {:induction false} ChildCell(h: BuiltHive, parent: string, n: string)
    returns (id: nat, o: u32, rec: Option<RecoveredCell>)
    requires OffsetsFit(h) && KeySide(h) && ValueSide(h) && n in h.tree.Kids(parent)
    ensures id == NodeId(h.layout, Child(parent, n)) && o == h.At(id) && CellIs(h, id, o, rec)
    ensures rec == TreeReport(h, parent, n, BASE_SIZE + o)
  {
    id := NodeId(h.layout, Child(parent, n));
    o := h.At(id);
    var nk;
    nk, rec := NodeReported(h, parent, n, id, o);
    CellOfNode(h, id, nk, o, rec);
  }

  lemma {:induction false} ChildPlaced(h: BuiltHive, keyOf: string -> Key, parent: string, n: string)
    requires GoodInput(h.keys, h.values) && IsTreeOf(h.tree, h.keys, h.values) && KeysByPath(h, keyOf)
    requires IsKeyPath(h.keys, h.values, parent) && n in ChildNames(h.keys, h.values, parent)
    ensures n in h.tree.Kids(parent)
    ensures keyOf(Child(parent, n)) == ChildKey(h, parent, n) && keyOf(parent).offset == h.At(NodeId(h.layout, parent))
  {
    KidsAre(h, parent);
    KidsOf(h.tree, h.keys, h.values, parent, n);
    ParentOffset(h, keyOf, parent);
  }

  lemma {:induction false} ReportByInput(h: BuiltHive, keyOf: string -> Key, parent: string, n: string, o: u32)
    requires IsTreeOf(h.tree, h.keys, h.values)
    requires keyOf(Child(parent, n)) == ChildKey(h, parent, n) && keyOf(parent).offset == h.At(NodeId(h.layout, parent))
    requires o == h.At(NodeId(h.layout, Child(parent, n)))
    ensures o == keyOf(Child(parent, n)).offset
    ensures TreeReport(h, parent, n, BASE_SIZE + o) == ReportOf(keyOf, h.keys, h.values, h.lastWritten, parent, n)
  {
    KidsAre(h, Child(parent, n));
  }

  lemma {:induction false} FindChild(h: BuiltHive, keyOf: string -> Key, parent: string, n: string)
    returns (id: nat, o: u32, rec: Option<RecoveredCell>)
    requires OffsetsFit(h) && KeySide(h) && ValueSide(h) && IsTreeOf(h.tree, h.keys, h.values)
             && n in h.tree.Kids(parent)
    requires keyOf(Child(parent, n)) == ChildKey(h, parent, n) && keyOf(parent).offset == h.At(NodeId(h.layout, parent))
    ensures o == keyOf(Child(parent, n)).offset
    ensures rec == ReportOf(keyOf, h.keys, h.values, h.lastWritten, parent, n)
    ensures CellIs(h, id, o, rec)
  {
    id, o, rec := ChildCell(h, parent, n);
    ReportByInput(h, keyOf, parent, n, o);
  }

  lemma {:induction false} BuiltChild(h: BuiltHive, keyOf: string -> Key, parent: string, n: string)
    returns (id: nat, o: u32, rec: Option<RecoveredCell>)
    requires h.Valid() && KeysByPath(h, keyOf) && IsKeyPath(h.keys, h.values, parent)
             && n in ChildNames(h.keys, h.values, parent)
    ensures o == keyOf(Child(parent, n)).offset && rec == ReportOf(keyOf, h.keys, h.values, h.lastWritten, parent, n)
    ensures CellIs(h, id, o, rec)
  {
    SidesOf(h);
    HeldOffsets(h);
    ChildPlaced(h, keyOf, parent, n);
    id, o, rec := FindChild(h, keyOf, parent, n);
  }

  // ----- values -----

  /** The report of a freed value: only resident data comes back. */
  ghost function ValueReport(v: TreeValue, at: nat): Option<RecoveredCell> {
    if |Utf8(v.name)| <= 512 && |v.data| <= 16_777_216 && (v.name == [] || Printable(AsRead(v.name))) then
      Some(RecoveredValue(AsRead(v.name), v.dataType, if |v.data| <= 4 then v.data else [],
                          if at > 0xFFFF_FFFF then 0xFFFF_FFFF else at, false, RecoverySource.UnallocatedCell, High))
    else None
  }

  lemma {:induction false} ValueNamed(v: TreeValue, size: u32, word: u32)
    requires |Utf8(v.name)| <= 0xFFFF
    ensures var raw := UnlinkedValue(Utf8(v.name), v.dataType, size).(dataOffsetRaw := word);
            raw.nameLen == |Utf8(v.name)| && raw.Name() == AsRead(v.name) && raw.dataType == TypeFromRaw(v.dataType)
  {
    assert Utf8(v.name)[..|Utf8(v.name)|] == Utf8(v.name);
  }

  lemma {:induction false} ValueSized(v: TreeValue, size: u32, word: u32)
    requires |v.data| < 0x8000_0000 && size == |v.data| + if |v.data| <= 4 then 0x8000_0000 else 0
    ensures var raw := UnlinkedValue(Utf8(v.name), v.dataType, size).(dataOffsetRaw := word);
            raw.DataSize() == |v.data| && raw.IsResident() == (|v.data| <= 4)
  {
  }

  lemma {:induction false} ValueParts(h: BuiltHive, v: TreeValue, vk: nat) returns (size: u32, word: u32)
    requires |v.data| < 0x8000_0000
    ensures size == |v.data| + if |v.data| <= 4 then 0x8000_0000 else 0
    ensures ValueOf(h, v, vk) == UnlinkedValue(Utf8(v.name), v.dataType, size).(dataOffsetRaw := word)
  {
    size, word := ValueOf(h, v, vk).dataSizeRaw, ValueOf(h, v, vk).dataOffsetRaw;
  }

  lemma {:induction false} ValueFields(h: BuiltHive, v: TreeValue, vk: nat)
    requires ValueFits(v)
    ensures var raw := ValueOf(h, v, vk);
            && raw.nameLen == |Utf8(v.name)| && raw.DataSize() == |v.data| && raw.Name() == AsRead(v.name)
               && raw.dataType == TypeFromRaw(v.dataType)
            && raw.IsResident() == (|v.data| <= 4)
  {
    var size, word := ValueParts(h, v, vk);
    ValueNamed(v, size, word);
    ValueSized(v, size, word);
  }

  lemma {:induction false} ValueInline(h: BuiltHive, v: TreeValue, vk: nat)
    requires |v.data| <= 4
    ensures ValueOf(h, v, vk).InlineData() == v.data
  {
    InlineDataBack(ValueOf(h, v, vk), NULL_OFFSET, v.data);
  }

  lemma {:induction false} RecordOfValue(raw: RawKeyValue, v: TreeValue, at: nat)
    requires raw.nameLen == |Utf8(v.name)| && raw.DataSize() == |v.data| && raw.Name() == AsRead(v.name)
             && raw.dataType == TypeFromRaw(v.dataType)
    requires raw.IsResident() == (|v.data| <= 4) && (|v.data| <= 4 ==> raw.InlineData() == v.data)
    ensures ValueRecord(raw, at, RecoverySource.UnallocatedCell) == ValueReport(v, at)
  {
    PrintableExact(AsRead(v.name));
    TypeBack(v.dataType);
  }

  lemma {:induction false} ReportOfValue(h: BuiltHive, v: TreeValue, id: nat, at: nat)
    requires ValueFits(v)
    ensures ValueRecord(ValueOf(h, v, id), at, RecoverySource.UnallocatedCell) == ValueReport(v, at)
  {
    ValueFields(h, v, id);
    if |v.data| <= 4 {
      ValueInline(h, v, id);
    }
    RecordOfValue(ValueOf(h, v, id), v, at);
  }

  lemma {:induction false} ValueHeld(h: BuiltHive, v: TreeValue, id: nat, at: nat, rec: Option<RecoveredCell>)
    requires ValueLinked(h, v, id) && ValueFits(v) && at == FilePos(h.layout.cells[id]) && rec == ValueReport(v, at)
    ensures HoldsRecord(h.layout.cells[id], h.bodies[id], rec)
  {
    ValueBodyDone(h, v, id);
    ReportOfValue(h, v, id, at);
    ValueHolds(h.layout.cells[id], at, h.bodies[id], ValueOf(h, v, id), rec);
  }

  lemma {:induction false} ValuePlaced(h: BuiltHive, v: TreeValue, id: nat) returns (o: u32, rec: Option<RecoveredCell>)
    requires ValueLinked(h, v, id) && ValueFits(v) && FilePos(h.layout.cells[id]) == BASE_SIZE + h.At(id)
    ensures o == h.At(id) && rec == ValueReport(v, BASE_SIZE + o) && CellIs(h, id, o, rec)
  {
    o := h.At(id);
    rec := ValueReport(v, BASE_SIZE + o);
    ValueHeld(h, v, id, BASE_SIZE + o, rec);
  }

  /** The cell of a value, by the path of its key and its place among the key's values. */
  function ValueCellOf(h: BuiltHive, p: string, j: nat): nat {
    if p in h.layout.vkIds && j < |h.layout.vkIds[p]| then h.layout.vkIds[p][j] else 0
  }

  lemma {:induction false} FindValue(h: BuiltHive, p: string, j: nat)
    returns (id: nat, o: u32, rec: Option<RecoveredCell>)
    requires OffsetsFit(h) && ValueSide(h) && p in h.tree.values && j < |h.tree.values[p]|
    ensures id == ValueCellOf(h, p, j) && o == h.At(id) && rec == ValueReport(h.tree.values[p][j], BASE_SIZE + o)
    ensures CellIs(h, id, o, rec)
  {
    ValueFacts(h, p, j);
    id := ValueCellOf(h, p, j);
    o, rec := ValuePlaced(h, h.tree.values[p][j], id);
  }

  lemma {:induction false} BuiltValue(h: BuiltHive, p: string, j: nat)
    returns (id: nat, o: u32, rec: Option<RecoveredCell>)
    requires h.Valid() && p in h.tree.values && j < |h.tree.values[p]|
    ensures id == ValueCellOf(h, p, j) && o == h.At(id) && rec == ValueReport(h.tree.values[p][j], BASE_SIZE + o)
    ensures CellIs(h, id, o, rec)
  {
    SidesOf(h);
    HeldOffsets(h);
    id, o, rec := FindValue(h, p, j);
  }

  lemma {:induction false} ValuesGivenHere(h: BuiltHive, p: string)
    requires h.Valid() && ValuesAt(h.values, p) != []
    ensures p in h.tree.values && h.tree.values[p] == ValuesAt(h.values, p)
  {
    KidsAre(h, p);
  }

  // ----- freeing and carving -----

  lemma {:induction false} FreedCellCarved(h: BuiltHive, id: nat, o: u32, rec: Option<RecoveredCell>, c: Carver)
    returns (i: nat)
    requires h.Valid() && CellIs(h, id, o, rec)
    requires CarvesLike(c) && c.data == Flipped(h.bytes, BASE_SIZE + o)
    ensures CarvedAt(c, WholeBin(c.data), BASE_SIZE + o, i, rec)
  {
    BuiltFreeable(h);
    i := CellCarved(h, id, o, c, rec);
  }

  lemma {:induction false} CellGone(h: BuiltHive, id: nat, o: u32)
    requires h.Valid() && id < |h.layout.cells| && o == h.At(id)
    ensures FreedAt(h, o, Flipped(h.bytes, BASE_SIZE + o))
  {
    FreedCellUnread(h, id);
  }

  /** Free-then-carve for a cell with this record, if any. */
  lemma {:induction false} UndeleteCell(h: BuiltHive, id: nat, o: u32, rec: Option<RecoveredCell>)
    returns (s: Buf, i: nat)
    requires h.Valid() && CellIs(h, id, o, rec)
    ensures FreedAt(h, o, s) && CarvedAt(FlatCarver(s), WholeBin(s), BASE_SIZE + o, i, rec)
  {
    s := Flipped(h.bytes, BASE_SIZE + o);
    FlatCarves(s);
    CellGone(h, id, o);
    i := FreedCellCarved(h, id, o, rec, FlatCarver(s));
  }

  /** Freeing the key `n` below `parent`, which has the offset `o`: the changed bytes open, the key cannot be read,
      and carving reports it. */
  lemma {:induction false} UndeleteKey(h: BuiltHive, keyOf: string -> Key, parent: string, n: string)
    returns (o: u32, s: Buf, i: nat, rec: Option<RecoveredCell>)
    requires h.Valid() && KeysByPath(h, keyOf)
    requires IsKeyPath(h.keys, h.values, parent) && n in ChildNames(h.keys, h.values, parent)
    ensures o == keyOf(Child(parent, n)).offset && rec == ReportOf(keyOf, h.keys, h.values, h.lastWritten, parent, n)
    ensures FreedAt(h, o, s) && CarvedAt(FlatCarver(s), WholeBin(s), BASE_SIZE + o, i, rec)
  {
    var id;
    id, o, rec := BuiltChild(h, keyOf, parent, n);
    s, i := UndeleteCell(h, id, o, rec);
  }

  /** The same for the `j`-th value of a key, which has the offset `o`. */
  lemma {:induction false} UndeleteValue(h: BuiltHive, p: string, j: nat)
    returns (o: u32, s: Buf, i: nat, rec: Option<RecoveredCell>)
    requires h.Valid() && j < |ValuesAt(h.values, p)|
    ensures o == h.At(ValueCellOf(h, p, j)) && rec == ValueReport(ValuesAt(h.values, p)[j], 4096 + o)
    ensures FreedAt(h, o, s) && CarvedAt(FlatCarver(s), WholeBin(s), BASE_SIZE + o, i, rec)
  {
    var id;
    ValuesGivenHere(h, p);
    id, o, rec := BuiltValue(h, p, j);
    s, i := UndeleteCell(h, id, o, rec);
  }

  // ----- before anything is freed -----

  /** Following the size fields of a build meets exactly its cells and then at most one free cell, one behind the
      other, up to the end of the bin. */
  lemma {:induction false} ChainBuilt(h: BuiltHive)
    requires h.Valid()
    ensures BinThere(h.bytes) && ChainIs(h.bytes, h.layout, |h.layout.cells|) && OffsetsFit(h)
    ensures Fills(Spans(h.bytes, BASE_SIZE + HBIN_DATA, |h.bytes|), BASE_SIZE + HBIN_DATA, |h.bytes|)
  {
    SidesOf(h);
    FinishedFile(h);
    HeldOffsets(h);
    ChainAsBuilt(h);
  }

  lemma {:induction false} LiveUncarved(c: Carver, h: BuiltHive, id: nat)
    requires BinThere(c.data) && ChainIs(c.data, h.layout, |h.layout.cells|) && OffsetsFit(h) && id < |h.layout.cells|
    ensures forall x | x in HiveHits(c, WholeBin(c.data), 0) :: x.pos != BASE_SIZE + h.At(id) + 4
  {
    LiveHeadUnreported(c, h.layout, |h.layout.cells|, id);
  }

  /** As built, nothing is carved at the head of any cell. */
  lemma {:induction false} LiveCellsUncarved(h: BuiltHive, id: nat)
    requires h.Valid() && id < |h.layout.cells|
    ensures forall x | x in HiveHits(FlatCarver(h.bytes), WholeBin(h.bytes), 0) :: x.pos != BASE_SIZE + h.At(id) + 4
  {
    ChainBuilt(h);
    LiveUncarved(FlatCarver(h.bytes), h, id);
  }
}
