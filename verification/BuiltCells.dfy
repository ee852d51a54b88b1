/** The cells of a built hive as the reader sees them (`winreg-testutil/src/lib.rs` against
    `winreg-core/src/cell_reader.rs`, `value.rs`). */
module BuiltCells {
  import opened Wrappers
  import opened Bytes
  import opened Text
  import opened Cells
  import opened Hives
  import opened Keys
  import opened Records
  import opened Allocation
  import opened KeyTrees
  import opened ValueLayouts
  import opened Layouts
  import opened Images
  import opened Linking
  import opened ValueLinking
  import opened LinkPasses
  import opened Builder
  import opened Reassembly
  import opened Reading

  /** A build, with everything known about it. */
  datatype BuiltHive = BuiltHive(bytes: Buf, keys: seq<string>, values: seq<TestValue>, lastWritten: u64, tree: KeyTree,
                                 layout: Layout, roles: seq<Role>, paths: seq<string>, bodies: seq<Buf>)
  {
    ghost predicate Valid() {
      && GoodInput(keys, values)
      && IsBuilt(bytes, keys, values, lastWritten, tree, layout, roles, paths, bodies)
      && Held() && FieldsFit(tree)
    }

    /** The cells are in the file, and offsets fit. */
    ghost predicate Held() {
      && Tiled(layout.cells, layout.end) && Holds(bytes, layout.cells, bodies) && SizesHold(bytes, layout.cells)
      && |bytes| == BASE_SIZE + Align4096(HBIN_DATA + layout.end) && |bytes| - BASE_SIZE < 0x1_0000_0000
    }

    function At(id: nat): u32 { Offset(layout.cells, id) }

    /** A cell that is not too large for its size field. */
    predicate Small(id: nat) {
      id < |layout.cells| && id < |bodies| && |bodies[id]| == |layout.cells[id].body| && |bodies[id]| <= 0x7FFF_FFF0
    }
  }

  // ----- the reader as a store of cells -----

  ghost predicate RawServed(reader: CellReader, h: BuiltHive, id: nat) {
    && h.At(id) != NULL_OFFSET && id < |h.bodies|
    && reader.raw(h.At(id)).Ok? && h.bodies[id] <= reader.raw(h.At(id)).value.body
  }

  ghost predicate NodeServed(reader: CellReader, h: BuiltHive, id: nat, nk: RawKeyNode) {
    reader.cell(h.At(id)) == Ok(KeyNodeCell(nk))
  }

  ghost predicate ValueServed(reader: CellReader, h: BuiltHive, id: nat, vk: RawKeyValue) {
    reader.cell(h.At(id)) == Ok(KeyValueCell(vk))
  }

  ghost predicate LeafServed(reader: CellReader, h: BuiltHive, id: nat, es: seq<LhElement>) {
    reader.cell(h.At(id)) == Ok(IndexCell(HashLeafIndex(es)))
  }

  /** The reader returns every cell's body, and what that body parses to. */
  ghost predicate Serves(reader: CellReader, h: BuiltHive) {
    && reader.maxIndexDepth > 0
    && (forall id: nat {:trigger RawServed(reader, h, id)} | h.Small(id) :: RawServed(reader, h, id))
    && (forall id: nat, nk {:trigger NodeServed(reader, h, id, nk)} | h.Small(id) && IsNode(h.bodies[id], nk) ::
          NodeServed(reader, h, id, nk))
    && (forall id: nat, vk {:trigger ValueServed(reader, h, id, vk)} | h.Small(id) && IsValue(h.bodies[id], vk) ::
          ValueServed(reader, h, id, vk))
    && (forall id: nat, es {:trigger LeafServed(reader, h, id, es)} | h.Small(id) && IsLeaf(h.bodies[id], |es|, es)
        && |es| <= 0xFFFF ::
          LeafServed(reader, h, id, es))
  }

  /** A cell that is not too large can be read. */
  lemma {:induction false} CellReadable(h: BuiltHive, id: nat)
    requires h.Held() && h.Small(id)
    ensures Readable(h.bytes, h.layout.cells[id], h.bodies[id]) && h.At(id) == CellOffset(h.layout.cells[id])
  {
    HoldsAt(h.bytes, h.layout.cells, h.bodies, id);
    SizeAt(h.bytes, h.layout.cells, id);
    TiledCell(h.layout.cells, h.layout.end, id);
  }

  /** The bytes of a build, read as a flat file, serve its cells. */
  lemma {:induction false} FileServes(h: BuiltHive)
    requires h.Held()
    ensures Serves(FlatFile(h.bytes), h)
  {
    var reader := FlatFile(h.bytes);
    forall id: nat | h.Small(id) ensures RawServed(reader, h, id) {
      CellReadable(h, id);
      var e := RawBody(h.bytes, h.layout.cells[id], h.bodies[id]);
    }
    forall id: nat, nk | h.Small(id) && IsNode(h.bodies[id], nk) ensures NodeServed(reader, h, id, nk) {
      CellReadable(h, id);
      ReadsNode(h.bytes, h.layout.cells[id], h.bodies[id], nk);
    }
    forall id: nat, vk | h.Small(id) && IsValue(h.bodies[id], vk) ensures ValueServed(reader, h, id, vk) {
      CellReadable(h, id);
      ReadsValue(h.bytes, h.layout.cells[id], h.bodies[id], vk);
    }
    forall id: nat, es | h.Small(id) && IsLeaf(h.bodies[id], |es|, es) && |es| <= 0xFFFF
      ensures LeafServed(reader, h, id, es)
    {
      CellReadable(h, id);
      ReadsLeaf(h.bytes, h.layout.cells[id], h.bodies[id], es);
    }
  }

  // ----- lists of offsets and big-data records -----

  /** A list of these offsets. */
  ghost predicate ListsOffsets(list: Buf, offs: seq<u32>) {
    4 * |offs| <= |list| && forall k | 0 <= k < |offs| :: OffsetAt(list, k) == offs[k]
  }

  lemma {:induction false} OffsetsPrefix(d: Buf, e: Buf, offs: seq<u32>)
    requires d <= e && IsList(d, |offs|, offs)
    ensures ListsOffsets(e, offs)
  {
    forall i | 0 <= i < |offs| ensures OffsetAt(e, i) == offs[i] {
      assert OffsetAt(d, i) == offs[i];
      PrefixReads(d, e);
    }
  }

  /** Offsets written into a cell are read from it. */
  lemma {:induction false} OffsetsRead(reader: CellReader, h: BuiltHive, id: nat, start: Buf, offs: seq<u32>)
    requires Serves(reader, h) && h.Small(id) && |start| == 4 * |offs| && h.bodies[id] == PutOffsets(start, offs)
    ensures RawServed(reader, h, id) && ListsOffsets(reader.raw(h.At(id)).value.body, offs)
  {
    assert RawServed(reader, h, id);
    PutOffsetsIs(start, |offs|, offs);
    OffsetsPrefix(h.bodies[id], reader.raw(h.At(id)).value.body, offs);
  }

  lemma {:induction false} BigDataPrefix(d: Buf, e: Buf, count: u16, list: u32)
    requires IsBigData(d, count, list) && d <= e
    ensures |e| >= 8 && e[0] == 'd' as int && e[1] == 'b' as int && U16At(e, 2) == count && U32At(e, 4) == list
  {
    PrefixReads(d, e);
  }

  lemma {:induction false} RecordBody(bodies: seq<Buf>, l: Layout, roles: seq<Role>, j: nat, link: BigLink)
    requires LinkLaid(l.cells, roles, j, link) && Connected(bodies, l, link)
    ensures IsBigData(bodies[link.db], AsU16(|link.segments|), Offset(l.cells, link.list))
  {
    BigDataBodyIs(|link.segments|);
    PatchBigDataList(BigDataBody(|link.segments|), AsU16(|link.segments|), 0, Offset(l.cells, link.list));
  }

  /** A `db` cell through which these chunks are found. */
  ghost predicate RecordThere(reader: CellReader, db: Buf, chunks: seq<Buf>) {
    && |chunks| <= 0xFFFF && |db| >= 8 && db[0] == 'd' as int && db[1] == 'b' as int && U16At(db, 2) == |chunks|
    && reader.raw(U32At(db, 4)).Ok? && SegmentsHold(reader, reader.raw(U32At(db, 4)).value.body, 0, chunks)
  }

  lemma {:induction false} DataCellReads(reader: CellReader, h: BuiltHive, id: nat, data: Buf)
    requires Serves(reader, h) && DataKept(h.bodies, h.layout, h.roles)
             && Laid(h.layout.cells, h.roles, id, DataRole, data) && |data| <= SEGMENT
    ensures reader.raw(h.At(id)).Ok? && data <= reader.raw(h.At(id)).value.body
  {
    assert h.bodies[id] == data && h.Small(id);
    assert RawServed(reader, h, id);
  }

  /** The segments of a record, through its list. */
  lemma {:induction false} SegmentsRead(reader: CellReader, h: BuiltHive, list: Buf, ids: seq<nat>, chunks: seq<Buf>)
    requires Serves(reader, h) && DataKept(h.bodies, h.layout, h.roles)
    requires SegmentsLaid(h.layout.cells, h.roles, ids, chunks) && forall c | c in chunks :: |c| <= SEGMENT
    requires ListsOffsets(list, OffsetsOf(h.layout.cells, ids))
    ensures SegmentsHold(reader, list, 0, chunks)
  {
    forall k | 0 <= k < |chunks| ensures SegmentHolds(reader, list, 0 + k, chunks[k]) {
      assert Laid(h.layout.cells, h.roles, ids[k], DataRole, chunks[k]) && chunks[k] in chunks;
      DataCellReads(reader, h, ids[k], chunks[k]);
      assert OffsetAt(list, k) == h.At(ids[k]);
    }
    SegmentsListed(reader, list, 0, chunks);
  }

  /** Data cells are as allocated, and big-data records are linked. */
  ghost predicate DataLinked(h: BuiltHive) {
    && DataKept(h.bodies, h.layout, h.roles)
    && LinksLaid(h.layout.cells, h.roles, h.layout.data.links) && RecordsLinked(h.bodies, h.layout) && LengthsKept(h)
  }

  /** Every body is as long as it was allocated. */
  ghost predicate LengthsKept(h: BuiltHive) {
    |h.bodies| == |h.layout.cells| && forall i | 0 <= i < |h.bodies| :: |h.bodies[i]| == |h.layout.cells[i].body|
  }

  /** The `db` cell of a record points to its list. */
  lemma {:induction false} DbReads(reader: CellReader, h: BuiltHive, j: nat, link: BigLink)
    requires Serves(reader, h) && h.Small(link.db)
    requires LinkLaid(h.layout.cells, h.roles, j, link) && Connected(h.bodies, h.layout, link)
    ensures reader.raw(h.At(link.db)).Ok?
    ensures var db := reader.raw(h.At(link.db)).value.body;
            && |db| >= 8 && db[0] == 'd' as int && db[1] == 'b' as int
            && U16At(db, 2) == AsU16(|link.segments|) && U32At(db, 4) == h.At(link.list)
  {
    RecordBody(h.bodies, h.layout, h.roles, j, link);
    assert RawServed(reader, h, link.db);
    BigDataPrefix(h.bodies[link.db], reader.raw(h.At(link.db)).value.body, AsU16(|link.segments|), h.At(link.list));
  }

  /** The list of a record leads to its segments. */
  lemma {:induction false} RecordListReads(reader: CellReader, h: BuiltHive, link: BigLink, chunks: seq<Buf>)
    requires Serves(reader, h) && h.Small(link.list) && DataKept(h.bodies, h.layout, h.roles)
             && Connected(h.bodies, h.layout, link)
    requires SegmentsLaid(h.layout.cells, h.roles, link.segments, chunks) && forall c | c in chunks :: |c| <= SEGMENT
    ensures reader.raw(h.At(link.list)).Ok? && SegmentsHold(reader, reader.raw(h.At(link.list)).value.body, 0, chunks)
  {
    OffsetsRead(reader, h, link.list, h.layout.cells[link.list].body, OffsetsOf(h.layout.cells, link.segments));
    SegmentsRead(reader, h, reader.raw(h.At(link.list)).value.body, link.segments, chunks);
  }

  lemma {:induction false} RecordSizes(h: BuiltHive, j: nat, link: BigLink)
    requires DataLinked(h) && LinkLaid(h.layout.cells, h.roles, j, link) && Connected(h.bodies, h.layout, link)
             && |link.segments| <= 0xFFFF
    ensures h.Small(link.db) && h.Small(link.list)
  {
  }

  lemma {:induction false} RecordMade(reader: CellReader, db: Buf, list: u32, chunks: seq<Buf>)
    requires |chunks| <= 0xFFFF && |db| >= 8 && db[0] == 'd' as int && db[1] == 'b' as int
    requires U16At(db, 2) == AsU16(|chunks|) && U32At(db, 4) == list
    requires reader.raw(list).Ok? && SegmentsHold(reader, reader.raw(list).value.body, 0, chunks)
    ensures RecordThere(reader, db, chunks)
  {
  }

  lemma {:induction false} RecordReads(reader: CellReader, h: BuiltHive, j: nat, link: BigLink, chunks: seq<Buf>)
    requires Serves(reader, h) && h.Small(link.db) && h.Small(link.list) && DataKept(h.bodies, h.layout, h.roles)
    requires LinkLaid(h.layout.cells, h.roles, j, link) && Connected(h.bodies, h.layout, link)
    requires SegmentsLaid(h.layout.cells, h.roles, link.segments, chunks) && |chunks| <= 0xFFFF
             && forall c | c in chunks :: |c| <= SEGMENT
    ensures reader.raw(h.At(link.db)).Ok? && RecordThere(reader, reader.raw(h.At(link.db)).value.body, chunks)
  {
    DbReads(reader, h, j, link);
    RecordListReads(reader, h, link, chunks);
    RecordMade(reader, reader.raw(h.At(link.db)).value.body, h.At(link.list), chunks);
  }

  // ----- values -----

  /** What each value cell is to parse to. */
  function ValueOf(h: BuiltHive, v: TreeValue, vk: nat): RawKeyValue {
    var raw := UnlinkedValue(Utf8(v.name), v.dataType, AsU32(|v.data|));
    if |v.data| <= 4 then raw.(dataSizeRaw := 0x8000_0000 + |v.data|, dataOffsetRaw := InlineWord(NULL_OFFSET, v.data))
    else raw.(dataOffsetRaw := if vk in h.layout.data.ids then h.At(h.layout.data.ids[vk]) else 0)
  }

  lemma {:induction false} ResidentBodyIs(b: Buf, vk: RawKeyValue, data: Buf)
    requires IsValue(b, vk) && |data| <= 4
    ensures IsValue(ResidentBody(b, data), vk.(dataSizeRaw := 0x8000_0000 + |data|,
                                               dataOffsetRaw := InlineWord(vk.dataOffsetRaw, data)))
  {
    PatchDataSize(b, vk, 0x8000_0000 + |data|);
    PatchInline(Put32(b, VK_DATA_SIZE, 0x8000_0000 + |data|), vk.(dataSizeRaw := 0x8000_0000 + |data|), data);
  }

  /** A value cell after linking: its data inline, or a pointer to it. */
  ghost predicate ValueLinked(h: BuiltHive, v: TreeValue, vk: nat) {
    && vk < |h.bodies| && vk < |h.layout.cells|
    && h.layout.cells[vk].body == ValueBody(Utf8(v.name), v.dataType, AsU32(|v.data|))
    && (if |v.data| <= 4 then Inlined(h.bodies, h.layout, vk, v.data)
        else vk in h.layout.data.ids && PointerFinal(h.bodies, h.layout, vk))
  }

  lemma {:induction false} ValueBodyDone(h: BuiltHive, v: TreeValue, vk: nat)
    requires ValueLinked(h, v, vk)
    ensures IsValue(h.bodies[vk], ValueOf(h, v, vk))
            && |h.bodies[vk]| == |h.layout.cells[vk].body| == 20 + |Utf8(v.name)|
  {
    var body := ValueBody(Utf8(v.name), v.dataType, AsU32(|v.data|));
    ValueBodyIs(Utf8(v.name), v.dataType, AsU32(|v.data|));
    if |v.data| <= 4 {
      ResidentBodyIs(body, UnlinkedValue(Utf8(v.name), v.dataType, AsU32(|v.data|)), v.data);
    } else {
      PatchDataOffset(body, UnlinkedValue(Utf8(v.name), v.dataType, AsU32(|v.data|)), h.At(h.layout.data.ids[vk]));
    }
  }

  lemma {:induction false} ValueReads(reader: CellReader, h: BuiltHive, v: TreeValue, vk: nat)
    requires Serves(reader, h) && ValueLinked(h, v, vk) && ValueFits(v)
    ensures ValueServed(reader, h, vk, ValueOf(h, v, vk))
  {
    ValueBodyDone(h, v, vk);
    assert h.Small(vk);
  }

  lemma {:induction false} ResidentReads(reader: CellReader, h: BuiltHive, v: TreeValue, vk: nat)
    requires |v.data| <= 4
    ensures RawData(reader, Value(ValueOf(h, v, vk), h.At(vk))) == Ok(v.data)
  {
    InlineDataBack(ValueOf(h, v, vk), NULL_OFFSET, v.data);
    ResidentDataBack(reader, Value(ValueOf(h, v, vk), h.At(vk)), v.data);
  }

  lemma {:induction false} SingleReads(reader: CellReader, h: BuiltHive, v: TreeValue, vk: nat)
    requires 4 < |v.data| <= THRESHOLD && vk in h.layout.data.ids
    requires reader.raw(h.At(h.layout.data.ids[vk])).Ok? && v.data <= reader.raw(h.At(h.layout.data.ids[vk])).value.body
    ensures RawData(reader, Value(ValueOf(h, v, vk), h.At(vk))) == Ok(v.data)
  {
    OneCellData(reader, Value(ValueOf(h, v, vk), h.At(vk)), v.data);
  }

  lemma {:induction false} BigReads(reader: CellReader, h: BuiltHive, v: TreeValue, vk: nat)
    requires THRESHOLD < |v.data| <= MAX_DATA && vk in h.layout.data.ids
    requires reader.raw(h.At(h.layout.data.ids[vk])).Ok?
    requires RecordThere(reader, reader.raw(h.At(h.layout.data.ids[vk])).value.body, Chunks(v.data))
    ensures RawData(reader, Value(ValueOf(h, v, vk), h.At(vk))) == Ok(v.data)
  {
    RecordData(reader, Value(ValueOf(h, v, vk), h.At(vk)), v.data);
  }

  /** The data of any value comes back: resident, from one cell, or from a big-data record. */
  lemma {:induction false} DataReads(reader: CellReader, h: BuiltHive, v: TreeValue, vk: nat)
    requires Serves(reader, h) && DataLinked(h) && DataLaid(h.layout.cells, h.roles, h.layout.data, v.data, vk)
             && ValueFits(v)
    ensures RawData(reader, Value(ValueOf(h, v, vk), h.At(vk))) == Ok(v.data)
  {
    if |v.data| <= 4 {
      ResidentReads(reader, h, v, vk);
    } else if |v.data| <= THRESHOLD {
      DataCellReads(reader, h, h.layout.data.ids[vk], v.data);
      SingleReads(reader, h, v, vk);
    } else {
      var db := h.layout.data.ids[vk];
      var j := h.roles[db].link;
      assert LinkLaid(h.layout.cells, h.roles, j, h.layout.data.links[j])
             && Connected(h.bodies, h.layout, h.layout.data.links[j]);
      ChunkCount(v.data);
      RecordSizes(h, j, h.layout.data.links[j]);
      RecordReads(reader, h, j, h.layout.data.links[j], Chunks(v.data));
      BigReads(reader, h, v, vk);
    }
  }
}
