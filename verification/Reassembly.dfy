/** Big-data reassembly inverts splitting (`read_big_data` in `winreg-core/src/value.rs`, against the chunking in
    `winreg-testutil/src/lib.rs`). */
module Reassembly {
  import opened Wrappers
  import opened Bytes
  import opened Hives
  import opened Keys
  import opened ValueLayouts

  ghost predicate SegmentHolds(reader: CellReader, list: Buf, i: nat, chunk: Buf) {
    4 * i + 4 <= |list| && reader.raw(U32At(list, 4 * i)).Ok? && chunk <= reader.raw(U32At(list, 4 * i)).value.body
  }

  /** The segment cells listed from index `i` hold these chunks, each possibly followed by padding. */
  ghost predicate SegmentsHold(reader: CellReader, list: Buf, i: nat, chunks: seq<Buf>)
    decreases |chunks|
  {
    chunks != [] ==> SegmentHolds(reader, list, i, chunks[0]) && SegmentsHold(reader, list, i + 1, chunks[1..])
  }

  /** Gathering returns exactly the bytes that were split, whatever padding the segment cells have. */
  lemma {:induction false} GatherInvertsChunks(reader: CellReader, list: Buf, i: nat, data: Buf)
    requires SegmentsHold(reader, list, i, Chunks(data))
    ensures Gather(reader, list, i, i + |Chunks(data)|, |data|) == data
    decreases |data|
  {
    if data == [] {
    } else if |data| <= SEGMENT {
      var body := reader.raw(U32At(list, 4 * i)).value.body;
      assert body[..|data|] == data;
      assert Gather(reader, list, i + 1, i + 1, 0) == [];
      assert data + [] == data;
    } else {
      var body, rest := reader.raw(U32At(list, 4 * i)).value.body, data[SEGMENT..];
      assert Chunks(data)[0] == data[..SEGMENT] && Chunks(data)[1..] == Chunks(rest);
      assert body[..SEGMENT] == data[..SEGMENT];
      GatherInvertsChunks(reader, list, i + 1, rest);
      assert data[..SEGMENT] + rest == data;
    }
  }

  // ----- the three places a value's data can be -----

  lemma {:induction false} OneCellData(reader: CellReader, v: Value, data: Buf)
    requires 0 < |data| <= THRESHOLD && v.vk.dataSizeRaw == |data|
    requires reader.raw(v.vk.dataOffsetRaw).Ok? && data <= reader.raw(v.vk.dataOffsetRaw).value.body
    ensures RawData(reader, v) == Ok(data)
  {
    assert reader.raw(v.vk.dataOffsetRaw).value.body[..|data|] == data;
  }

  /** A `db` cell, the list it points to, and segments in that list. */
  lemma {:induction false} RecordData(reader: CellReader, v: Value, data: Buf)
    requires THRESHOLD < |data| < 0x8000_0000 && |Chunks(data)| <= 0xFFFF && v.vk.dataSizeRaw == |data|
    requires reader.raw(v.vk.dataOffsetRaw).Ok?
    requires var db := reader.raw(v.vk.dataOffsetRaw).value.body;
             && |db| >= 8 && db[0] == 'd' as int && db[1] == 'b' as int && U16At(db, 2) == |Chunks(data)|
             && reader.raw(U32At(db, 4)).Ok?
                && SegmentsHold(reader, reader.raw(U32At(db, 4)).value.body, 0, Chunks(data))
    ensures RawData(reader, v) == Ok(data)
  {
    var db := reader.raw(v.vk.dataOffsetRaw).value.body;
    GatherInvertsChunks(reader, reader.raw(U32At(db, 4)).value.body, 0, data);
  }

  lemma {:induction false} ResidentDataBack(reader: CellReader, v: Value, data: Buf)
    requires |data| <= 4 && v.vk.dataSizeRaw == 0x8000_0000 + |data| && v.vk.InlineData() == data
    ensures RawData(reader, v) == Ok(data)
  {
  }

  /** Offsets that lead to the segments, one after the other. */
  lemma {:induction false} SegmentsListed(reader: CellReader, list: Buf, i: nat, chunks: seq<Buf>)
    requires forall k | 0 <= k < |chunks| :: SegmentHolds(reader, list, i + k, chunks[k])
    ensures SegmentsHold(reader, list, i, chunks)
    decreases |chunks|
  {
    if chunks != [] {
      assert SegmentHolds(reader, list, i + 0, chunks[0]);
      forall k | 0 <= k < |chunks[1..]| ensures SegmentHolds(reader, list, i + 1 + k, chunks[1..][k]) {
        assert chunks[1..][k] == chunks[k + 1] && SegmentHolds(reader, list, i + (k + 1), chunks[k + 1]);
      }
      SegmentsListed(reader, list, i + 1, chunks[1..]);
    }
  }
}
