/** Reading built cells back, kind by kind (`winreg-core/src/cell_reader.rs`, `key.rs`, `value.rs`). */
module Reading {
  import opened Wrappers
  import opened Bytes
  import opened Cells
  import opened Hives
  import opened Keys
  import opened Records
  import opened Allocation
  import opened Images

  /** The cell is in the buffer and its size and offset fit their fields. */
  ghost predicate Readable(s: Buf, c: AllocatedCell, body: Buf) {
    && CellHolds(s, c, body) && SizeHolds(s, c)
    && c.alignedSize <= 0x7FFF_FFFF && HBIN_DATA + c.offset < NULL_OFFSET
  }

  lemma {:induction false} RawBody(s: Buf, c: AllocatedCell, body: Buf) returns (e: Buf)
    requires Readable(s, c, body)
    ensures ReadCellRaw(s, CellOffset(c)).Ok? && e == ReadCellRaw(s, CellOffset(c)).value.body && body <= e
    ensures CellOffset(c) != NULL_OFFSET
  {
    BodyReadBack(s, c, body);
    e := ReadCellRaw(s, CellOffset(c)).value.body;
  }

  lemma {:induction false} PrefixTail(d: Buf, e: Buf)
    requires d <= e && |d| >= 2
    ensures d[2..] <= e[2..] && e[0] == d[0] && e[1] == d[1]
  {
  }

  lemma {:induction false} ReadsNode(s: Buf, c: AllocatedCell, body: Buf, nk: RawKeyNode)
    requires Readable(s, c, body) && IsNode(body, nk)
    ensures ReadCell(s, CellOffset(c)) == Ok(KeyNodeCell(nk))
  {
    var e := RawBody(s, c, body);
    PrefixTail(body, e);
    NodeParses(body, nk);
    KeyNodePadding(body[2..], e[2..]);
    assert SignatureOf(e[0], e[1]) == Some(KeyNode);
  }

  lemma {:induction false} ReadsValue(s: Buf, c: AllocatedCell, body: Buf, vk: RawKeyValue)
    requires Readable(s, c, body) && IsValue(body, vk)
    ensures ReadCell(s, CellOffset(c)) == Ok(KeyValueCell(vk))
  {
    var e := RawBody(s, c, body);
    PrefixTail(body, e);
    ValueParses(body, vk);
    KeyValuePadding(body[2..], e[2..]);
    assert SignatureOf(e[0], e[1]) == Some(KeyValue);
  }

  lemma {:induction false} ReadsLeaf(s: Buf, c: AllocatedCell, body: Buf, es: seq<LhElement>)
    requires Readable(s, c, body) && IsLeaf(body, |es|, es) && |es| <= 0xFFFF
    ensures ReadCell(s, CellOffset(c)) == Ok(IndexCell(HashLeafIndex(es)))
  {
    var e := RawBody(s, c, body);
    PrefixTail(body, e);
    LeafParses(body, es);
    HashLeafPadding(body[2..], e[2..]);
    assert SignatureOf(e[0], e[1]) == Some(HashLeaf);
  }

  // ----- lists of keys and values -----

  /** Keys that the reader finds at their offsets. */
  ghost predicate KeysThere(reader: CellReader, keys: seq<Key>) {
    keys != [] ==> reader.cell(keys[0].offset) == Ok(KeyNodeCell(keys[0].node)) && KeysThere(reader, keys[1..])
  }

  function OffsetsOfKeys(keys: seq<Key>): (offs: seq<u32>)
    ensures |offs| == |keys| && forall i | 0 <= i < |keys| :: offs[i] == keys[i].offset
  {
    seq(|keys|, i requires 0 <= i < |keys| => keys[i].offset)
  }

  lemma {:induction false} KeysFound(reader: CellReader, keys: seq<Key>)
    requires KeysThere(reader, keys)
    ensures KeysAt(reader, OffsetsOfKeys(keys)) == Ok(keys)
  {
    if keys != [] {
      KeysFound(reader, keys[1..]);
      assert OffsetsOfKeys(keys)[1..] == OffsetsOfKeys(keys[1..]);
      assert [keys[0]] + keys[1..] == keys;
    }
  }

  /** Following a complete `lh` list yields its keys. */
  lemma {:induction false} SubkeysFound(reader: CellReader, key: Key, es: seq<LhElement>, keys: seq<Key>)
    requires key.node.subkeyCount != 0 && key.node.subkeysListOffset != NULL_OFFSET && reader.maxIndexDepth > 0
    requires reader.cell(key.node.subkeysListOffset) == Ok(IndexCell(HashLeafIndex(es)))
    requires |es| == |keys| && (forall i | 0 <= i < |es| :: es[i].keyOffset == keys[i].offset)
             && KeysThere(reader, keys)
    ensures Subkeys(reader, key) == Ok(keys)
  {
    assert HashLeafOffsets(es) == OffsetsOfKeys(keys);
    KeysFound(reader, keys);
  }

  /** Values that the reader finds at the offsets listed from index `i`. */
  ghost predicate ValuesThere(reader: CellReader, list: Buf, i: nat, vs: seq<Value>)
    decreases |vs|
  {
    vs != [] ==>
      && 4 * i + 4 <= |list| && U32At(list, 4 * i) == vs[0].offset
      && reader.cell(vs[0].offset) == Ok(KeyValueCell(vs[0].vk))
      && ValuesThere(reader, list, i + 1, vs[1..])
  }

  lemma {:induction false} ValuesFound(reader: CellReader, list: Buf, i: nat, vs: seq<Value>)
    requires ValuesThere(reader, list, i, vs)
    ensures ValuesFrom(reader, list, i, i + |vs|) == Ok(vs)
    decreases |vs|
  {
    if vs != [] {
      ValuesFound(reader, list, i + 1, vs[1..]);
      assert [vs[0]] + vs[1..] == vs;
    }
  }
}
