/** Subkey and value lists told by the bytes that store them: every kind of index, and which keys and values are listed
    (`winreg-core/src/key.rs`, `winreg-format/src/cells.rs`). */
module Listings {
  import opened Wrappers
  import opened Bytes
  import opened Sequences
  import opened Cells
  import opened Hives
  import opened Keys

  // ----- how offsets are stored -----

  /** A signature of two letters, the number of entries, and entries of `width` bytes that start with the offsets. */
  ghost predicate Stores(body: Buf, b0: byte, b1: byte, width: nat, offs: seq<u32>) {
    && 4 + width * |offs| <= |body| && width >= 4
    && body[0] == b0 && body[1] == b1 && U16At(body, 2) == |offs|
    && forall i | 0 <= i < |offs| :: Entry(body, width, i, offs[i])
  }

  ghost predicate Entry(body: Buf, width: nat, i: nat, offset: u32) {
    4 + width * i + 4 <= |body| && U32At(body, 4 + width * i) == offset
  }

  ghost predicate StoresLf(body: Buf, offs: seq<u32>) { Stores(body, 0x6C, 0x66, 8, offs) }

  ghost predicate StoresLh(body: Buf, offs: seq<u32>) { Stores(body, 0x6C, 0x68, 8, offs) }

  ghost predicate StoresLi(body: Buf, offs: seq<u32>) { Stores(body, 0x6C, 0x69, 4, offs) }

  ghost predicate StoresLeaf(body: Buf, offs: seq<u32>) {
    StoresLf(body, offs) || StoresLh(body, offs) || StoresLi(body, offs)
  }

  ghost predicate StoresRi(body: Buf, subs: seq<u32>) { Stores(body, 0x72, 0x69, 4, subs) }

  lemma LfReads(o: u32, body: Buf, offs: seq<u32>)
    requires StoresLf(body, offs)
    ensures var c := DispatchCell(o, body);
            c.Ok? && c.value.IndexCell? && c.value.index.FastLeafIndex? && FastLeafOffsets(c.value.index.lf) == offs
  {
    var d := body[2..];
    assert U16At(d, 0) == |offs|;
    var lf := ParseLf(d).value.lf;
    forall i | 0 <= i < |offs| ensures lf[i].keyOffset == offs[i] {
      assert Entry(body, 8, i, offs[i]);
    }
    assert FastLeafOffsets(lf) == offs;
  }

  lemma LhReads(o: u32, body: Buf, offs: seq<u32>)
    requires StoresLh(body, offs)
    ensures var c := DispatchCell(o, body);
            c.Ok? && c.value.IndexCell? && c.value.index.HashLeafIndex? && HashLeafOffsets(c.value.index.lh) == offs
  {
    var d := body[2..];
    assert U16At(d, 0) == |offs|;
    var lh := ParseLh(d).value.lh;
    forall i | 0 <= i < |offs| ensures lh[i].keyOffset == offs[i] {
      assert Entry(body, 8, i, offs[i]);
    }
    assert HashLeafOffsets(lh) == offs;
  }

  lemma OffsetsRead(d: Buf, body: Buf, b0: byte, b1: byte, offs: seq<u32>)
    requires Stores(body, b0, b1, 4, offs) && d == body[2..]
    ensures ParseOffsets(d) == Some(offs)
  {
    assert U16At(d, 0) == |offs|;
    forall i | 0 <= i < |offs| ensures ParseOffsets(d).value[i] == offs[i] {
      assert Entry(body, 4, i, offs[i]);
    }
    assert ParseOffsets(d).value == offs;
  }

  lemma LiReads(o: u32, body: Buf, offs: seq<u32>)
    requires StoresLi(body, offs)
    ensures DispatchCell(o, body) == Ok(IndexCell(IndexLeafIndex(offs)))
  {
    OffsetsRead(body[2..], body, 0x6C, 0x69, offs);
  }

  lemma RiReads(o: u32, body: Buf, subs: seq<u32>)
    requires StoresRi(body, subs)
    ensures DispatchCell(o, body) == Ok(IndexCell(RootIndexIndex(subs)))
  {
    OffsetsRead(body[2..], body, 0x72, 0x69, subs);
  }

  // ----- whole indexes -----

  /** The cell at `o` stores a leaf with these offsets, or an index root over lists which together hold them. */
  ghost predicate IndexStored(data: Buf, o: u32, depth: nat, offs: seq<u32>)
    decreases depth, 0
  {
    && depth > 0 && ReadCellRaw(data, o).Ok?
    && var body := ReadCellRaw(data, o).value.body;
       || StoresLeaf(body, offs)
       || exists subs: seq<u32>, parts: seq<seq<u32>> ::
            StoresRi(body, subs) && PartsStored(data, subs, depth - 1, parts) && offs == Flatten(parts)
  }

  ghost predicate PartsStored(data: Buf, subs: seq<u32>, depth: nat, parts: seq<seq<u32>>)
    decreases depth, 1
  {
    |parts| == |subs| && forall i | 0 <= i < |subs| :: IndexStored(data, subs[i], depth, parts[i])
  }

  lemma {:induction false} NestedReads(reader: CellReader, subs: seq<u32>, depth: nat, parts: seq<seq<u32>>)
    requires |parts| == |subs| && forall i | 0 <= i < |subs| :: IndexOffsets(reader, subs[i], depth) == Ok(parts[i])
    ensures NestedOffsets(reader, subs, depth) == Ok(Flatten(parts))
    decreases |subs|
  {
    if subs != [] {
      NestedReads(reader, subs[1..], depth, parts[1..]);
    }
  }

  lemma TakeApart(data: Buf, o: u32, depth: nat, offs: seq<u32>)
    returns (body: Buf, subs: seq<u32>, parts: seq<seq<u32>>)
    requires IndexStored(data, o, depth, offs)
    ensures depth > 0 && FlatFile(data).cell(o) == DispatchCell(o, body)
    ensures StoresLeaf(body, offs) || (StoresRi(body, subs) && PartsStored(data, subs, depth - 1, parts)
                                       && offs == Flatten(parts))
  {
    body, subs, parts := ReadCellRaw(data, o).value.body, [], [];
    if !StoresLeaf(body, offs) {
      subs, parts :|
        StoresRi(body, subs) && PartsStored(data, subs, depth - 1, parts) && offs == Flatten(parts);
    }
  }

  lemma LeafReads(reader: CellReader, o: u32, body: Buf, depth: nat, offs: seq<u32>)
    requires depth > 0 && reader.cell(o) == DispatchCell(o, body)
    requires StoresLeaf(body, offs)
    ensures IndexOffsets(reader, o, depth) == Ok(offs)
  {
    if StoresLf(body, offs) {
      LfReads(o, body, offs);
    } else if StoresLh(body, offs) {
      LhReads(o, body, offs);
    } else {
      LiReads(o, body, offs);
    }
  }

  lemma RootReads(reader: CellReader, o: u32, body: Buf, depth: nat, subs: seq<u32>, parts: seq<seq<u32>>)
    requires depth > 0 && reader.cell(o) == DispatchCell(o, body) && StoresRi(body, subs)
    requires |parts| == |subs| && forall i | 0 <= i < |subs| :: IndexOffsets(reader, subs[i], depth - 1) == Ok(parts[i])
    ensures IndexOffsets(reader, o, depth) == Ok(Flatten(parts))
  {
    RiReads(o, body, subs);
    NestedReads(reader, subs, depth - 1, parts);
  }

  lemma {:induction false} PartsRead(data: Buf, subs: seq<u32>, depth: nat, parts: seq<seq<u32>>)
    requires PartsStored(data, subs, depth, parts)
    ensures forall i | 0 <= i < |subs| :: IndexOffsets(FlatFile(data), subs[i], depth) == Ok(parts[i])
    decreases depth, 1
  {
    forall i | 0 <= i < |subs| ensures IndexOffsets(FlatFile(data), subs[i], depth) == Ok(parts[i]) {
      IndexReads(data, subs[i], depth, parts[i]);
    }
  }

  /** An index reads back as the offsets it was stored from, whatever its kind and nesting. */
  lemma {:induction false} IndexReads(data: Buf, o: u32, depth: nat, offs: seq<u32>)
    requires IndexStored(data, o, depth, offs)
    ensures IndexOffsets(FlatFile(data), o, depth) == Ok(offs)
    decreases depth, 0
  {
    var body, subs, parts := TakeApart(data, o, depth, offs);
    if StoresLeaf(body, offs) {
      LeafReads(FlatFile(data), o, body, depth, offs);
    } else {
      PartsRead(data, subs, depth - 1, parts);
      RootReads(FlatFile(data), o, body, depth, subs, parts);
    }
  }

  // ----- such lists can be written -----

  /** Offsets alone, or each followed by four more bytes. */
  function Entries(narrow: bool, offs: seq<u32>): (r: Buf)
    ensures |r| == if narrow then 4 * |offs| else 8 * |offs|
  {
    if offs == [] then []
    else
      Entries(narrow, offs[..|offs| - 1])
      + if narrow then U32Bytes(offs[|offs| - 1]) else U32Bytes(offs[|offs| - 1]) + [0, 0, 0, 0]
  }

  lemma {:induction false} EntryAt(narrow: bool, offs: seq<u32>, i: nat)
    requires i < |offs|
    ensures U32At(Entries(narrow, offs), if narrow then 4 * i else 8 * i) == offs[i]
  {
    var n := |offs| - 1;
    if i < n {
      EntryAt(narrow, offs[..n], i);
    }
  }

  lemma EntryWritten(body: Buf, narrow: bool, offs: seq<u32>, i: nat)
    requires |body| == 4 + |Entries(narrow, offs)| && body[4..] == Entries(narrow, offs) && i < |offs|
    ensures Entry(body, if narrow then 4 else 8, i, offs[i])
  {
    EntryAt(narrow, offs, i);
    U32AtSlice(body, 4, |body|, if narrow then 4 * i else 8 * i);
  }

  /** Any offsets, as many as the count can tell, can be stored in a list of either width. */
  lemma WriteList(b0: byte, b1: byte, narrow: bool, offs: seq<u32>) returns (body: Buf)
    requires |offs| <= 0xFFFF
    ensures Stores(body, b0, b1, if narrow then 4 else 8, offs)
  {
    var head := [b0, b1] + U16Bytes(|offs|);
    body := head + Entries(narrow, offs);
    assert body[4..] == Entries(narrow, offs);
    assert U16At(body, 2) == U16At(U16Bytes(|offs|), 0);
    forall i | 0 <= i < |offs| ensures Entry(body, if narrow then 4 else 8, i, offs[i]) {
      EntryWritten(body, narrow, offs, i);
    }
  }

  // ----- the keys of a list -----

  ghost predicate KeyListed(reader: CellReader, offs: seq<u32>, i: nat) {
    i < |offs| && reader.cell(offs[i]).Ok? && reader.cell(offs[i]).value.KeyNodeCell?
  }

  ghost predicate KeyIs(reader: CellReader, offs: seq<u32>, i: nat, key: Key) {
    i < |offs| && key.offset == offs[i] && reader.cell(offs[i]) == Ok(KeyNodeCell(key.node))
  }

  ghost predicate KeysAre(reader: CellReader, offs: seq<u32>, idx: seq<nat>, keys: seq<Key>) {
    |keys| == |idx| && forall k | 0 <= k < |idx| :: KeyIs(reader, offs, idx[k], keys[k])
  }

  /** The key nodes among the listed cells, in the order of the list; other cells are passed over. */
  ghost predicate KeysListed(reader: CellReader, offs: seq<u32>, keys: seq<Key>) {
    exists idx :: Lists(idx, set i: nat | i < |offs| && KeyListed(reader, offs, i)) && KeysAre(reader, offs, idx, keys)
  }

  /** The error of the first listed cell that cannot be read. */
  ghost predicate FirstUnread(reader: CellReader, offs: seq<u32>, e: HiveError) {
    exists k :: 0 <= k < |offs| && reader.cell(offs[k]) == Err(e) && forall j | 0 <= j < k :: reader.cell(offs[j]).Ok?
  }

  lemma KeysFirst(reader: CellReader, offs: seq<u32>, i: nat, idx: seq<nat>, first: seq<Key>, rest: seq<Key>)
    requires KeysAre(reader, offs, idx, rest)
    requires if KeyListed(reader, offs, i) then |first| == 1 && KeyIs(reader, offs, i, first[0]) else first == []
    ensures KeysAre(reader, offs, if KeyListed(reader, offs, i) then [i] + idx else idx, first + rest)
  {
    if KeyListed(reader, offs, i) {
      forall k | 0 <= k < |idx| + 1 ensures KeyIs(reader, offs, ([i] + idx)[k], (first + rest)[k]) {
        if k > 0 {
          assert KeyIs(reader, offs, idx[k - 1], rest[k - 1]);
        }
      }
    } else {
      assert first + rest == rest;
    }
  }

  lemma KeysStep(reader: CellReader, offs: seq<u32>, i: nat) returns (first: seq<Key>)
    requires i < |offs| && KeysAt(reader, offs[i..]).Ok?
    ensures reader.cell(offs[i]).Ok? && KeysAt(reader, offs[i + 1..]).Ok?
    ensures var cell := reader.cell(offs[i]).value;
            first == if cell.KeyNodeCell? then [Key(cell.nk, offs[i])] else []
    ensures KeysAt(reader, offs[i..]).value == first + KeysAt(reader, offs[i + 1..]).value
  {
    SuffixHead(offs, i);
    first := if reader.cell(offs[i]).value.KeyNodeCell? then [Key(reader.cell(offs[i]).value.nk, offs[i])] else [];
  }

  lemma {:induction false} KeysFrom(reader: CellReader, offs: seq<u32>, fits: nat -> bool, i: nat)
    returns (idx: seq<nat>)
    requires i <= |offs| && KeysAt(reader, offs[i..]).Ok? && forall j: nat :: fits(j) <==> KeyListed(reader, offs, j)
    ensures PickedFrom(fits, i, idx) && KeysAre(reader, offs, idx, KeysAt(reader, offs[i..]).value)
    decreases |offs| - i
  {
    idx := [];
    if i < |offs| {
      var first := KeysStep(reader, offs, i);
      var later := KeysFrom(reader, offs, fits, i + 1);
      PickFirst(fits, i, later);
      KeysFirst(reader, offs, i, later, first, KeysAt(reader, offs[i + 1..]).value);
      idx := if fits(i) then [i] + later else later;
    }
  }

  lemma {:induction false} KeysReadable(reader: CellReader, offs: seq<u32>, i: nat, j: nat)
    requires i <= j < |offs| && KeysAt(reader, offs[i..]).Ok?
    ensures reader.cell(offs[j]).Ok?
    decreases j - i
  {
    var first := KeysStep(reader, offs, i);
    if i < j {
      KeysReadable(reader, offs, i + 1, j);
    }
  }

  lemma {:induction false} KeysFail(reader: CellReader, offs: seq<u32>, i: nat) returns (k: nat)
    requires i <= |offs| && KeysAt(reader, offs[i..]).Err?
    ensures i <= k < |offs| && reader.cell(offs[k]) == Err(KeysAt(reader, offs[i..]).error)
    ensures forall j | i <= j < k :: reader.cell(offs[j]).Ok?
    decreases |offs| - i
  {
    SuffixHead(offs, i);
    k := i;
    if reader.cell(offs[i]).Ok? {
      k := KeysFail(reader, offs, i + 1);
    }
  }

  /** What a list of offsets reads as: its keys in order, or the error of the first cell that cannot be read. */
  lemma KeysAtExact(reader: CellReader, offs: seq<u32>)
    ensures KeysAt(reader, offs).Ok? ==>
              KeysListed(reader, offs, KeysAt(reader, offs).value) && forall o | o in offs :: reader.cell(o).Ok?
    ensures KeysAt(reader, offs).Err? ==> FirstUnread(reader, offs, KeysAt(reader, offs).error)
  {
    assert offs[0..] == offs;
    if KeysAt(reader, offs).Ok? {
      var fits := (j: nat) => j < |offs| && reader.cell(offs[j]).Ok? && reader.cell(offs[j]).value.KeyNodeCell?;
      var idx := KeysFrom(reader, offs, fits, 0);
      assert Lists(idx, set i: nat | i < |offs| && KeyListed(reader, offs, i));
      forall o | o in offs ensures reader.cell(o).Ok? {
        var j: nat :| j < |offs| && offs[j] == o;
        KeysReadable(reader, offs, 0, j);
      }
    } else {
      var k := KeysFail(reader, offs, 0);
    }
  }

  // ----- the values of a list -----

  /** As many offsets as there are to be, or as the list has room for. */
  ghost predicate ValueOffsets(list: Buf, count: nat, offs: seq<u32>) {
    && |offs| <= count && 4 * |offs| <= |list| && (|offs| == count || 4 * |offs| + 4 > |list|)
    && forall i | 0 <= i < |offs| :: OffsetIs(list, i, offs[i])
  }

  ghost predicate OffsetIs(list: Buf, i: nat, o: u32) {
    4 * i + 4 <= |list| && U32At(list, 4 * i) == o
  }

  ghost predicate ValueListed(reader: CellReader, offs: seq<u32>, i: nat) {
    i < |offs| && reader.cell(offs[i]).Ok? && reader.cell(offs[i]).value.KeyValueCell?
  }

  ghost predicate ValuesAre(reader: CellReader, offs: seq<u32>, idx: seq<nat>, vs: seq<Value>) {
    && |vs| == |idx|
    && forall k | 0 <= k < |idx| :: ValueIs(reader, offs, idx[k], vs[k])
  }

  ghost predicate ValueIs(reader: CellReader, offs: seq<u32>, i: nat, v: Value) {
    i < |offs| && v.offset == offs[i] && reader.cell(offs[i]) == Ok(KeyValueCell(v.vk))
  }

  ghost predicate ValuesListed(reader: CellReader, offs: seq<u32>, vs: seq<Value>) {
    exists idx ::
      Lists(idx, set i: nat | i < |offs| && ValueListed(reader, offs, i)) && ValuesAre(reader, offs, idx, vs)
  }

  lemma ValuesFirst(reader: CellReader, offs: seq<u32>, i: nat, idx: seq<nat>, first: seq<Value>, rest: seq<Value>)
    requires ValuesAre(reader, offs, idx, rest)
    requires if ValueListed(reader, offs, i) then |first| == 1 && ValueIs(reader, offs, i, first[0]) else first == []
    ensures ValuesAre(reader, offs, if ValueListed(reader, offs, i) then [i] + idx else idx, first + rest)
  {
    if ValueListed(reader, offs, i) {
      forall k | 0 <= k < |idx| + 1 ensures ValueIs(reader, offs, ([i] + idx)[k], (first + rest)[k]) {
        if k > 0 {
          assert ValueIs(reader, offs, idx[k - 1], rest[k - 1]);
        }
      }
    } else {
      assert first + rest == rest;
    }
  }

  lemma ValuesStep(reader: CellReader, list: Buf, count: nat, i: nat, o: u32) returns (first: seq<Value>)
    requires i < count && OffsetIs(list, i, o) && ValuesFrom(reader, list, i, count).Ok?
    ensures reader.cell(o).Ok? && ValuesFrom(reader, list, i + 1, count).Ok?
    ensures first == if reader.cell(o).value.KeyValueCell? then [Value(reader.cell(o).value.vk, o)] else []
    ensures ValuesFrom(reader, list, i, count).value == first + ValuesFrom(reader, list, i + 1, count).value
  {
    first := if reader.cell(o).value.KeyValueCell? then [Value(reader.cell(o).value.vk, o)] else [];
  }

  lemma NoMoreValues(reader: CellReader, list: Buf, count: nat, offs: seq<u32>, fits: nat -> bool)
    requires ValueOffsets(list, count, offs) && forall j: nat :: fits(j) <==> ValueListed(reader, offs, j)
    ensures ValuesFrom(reader, list, |offs|, count) == Ok([]) && PickedFrom(fits, |offs|, [])
  {
  }

  lemma {:induction false} ValuesPicked(reader: CellReader, list: Buf, count: nat, offs: seq<u32>, fits: nat -> bool,
                                        i: nat) returns (idx: seq<nat>)
    requires ValueOffsets(list, count, offs) && i <= |offs| && ValuesFrom(reader, list, i, count).Ok?
    requires forall j: nat :: fits(j) <==> ValueListed(reader, offs, j)
    ensures PickedFrom(fits, i, idx) && ValuesAre(reader, offs, idx, ValuesFrom(reader, list, i, count).value)
    decreases |offs| - i
  {
    if i == |offs| {
      idx := [];
      NoMoreValues(reader, list, count, offs, fits);
    } else {
      assert OffsetIs(list, i, offs[i]);
      var first := ValuesStep(reader, list, count, i, offs[i]);
      var later := ValuesPicked(reader, list, count, offs, fits, i + 1);
      PickFirst(fits, i, later);
      ValuesFirst(reader, offs, i, later, first, ValuesFrom(reader, list, i + 1, count).value);
      idx := if fits(i) then [i] + later else later;
    }
  }

  lemma {:induction false} ValuesReadable(reader: CellReader, list: Buf, count: nat, offs: seq<u32>, i: nat, j: nat)
    requires ValueOffsets(list, count, offs) && ValuesFrom(reader, list, i, count).Ok? && i <= j < |offs|
    ensures reader.cell(offs[j]).Ok?
    decreases j - i
  {
    assert OffsetIs(list, i, offs[i]);
    if i < j {
      ValuesReadable(reader, list, count, offs, i + 1, j);
    }
  }

  lemma {:induction false} ValuesFail(reader: CellReader, list: Buf, count: nat, offs: seq<u32>, i: nat)
    returns (k: nat)
    requires ValueOffsets(list, count, offs) && i <= |offs| && ValuesFrom(reader, list, i, count).Err?
    ensures i <= k < |offs| && reader.cell(offs[k]) == Err(ValuesFrom(reader, list, i, count).error)
    ensures forall j | i <= j < k :: reader.cell(offs[j]).Ok?
    decreases |offs| - i
  {
    k := i;
    assert i < |offs| ==> OffsetIs(list, i, offs[i]);
    if reader.cell(offs[i]).Ok? {
      k := ValuesFail(reader, list, count, offs, i + 1);
    }
  }

  /** The same for a values list, which may be shorter than the count says. */
  lemma ValuesExact(reader: CellReader, list: Buf, count: nat, offs: seq<u32>)
    requires ValueOffsets(list, count, offs)
    ensures var r := ValuesFrom(reader, list, 0, count);
            && (r.Ok? ==> ValuesListed(reader, offs, r.value) && forall o | o in offs :: reader.cell(o).Ok?)
            && (r.Err? ==> FirstUnread(reader, offs, r.error))
  {
    if ValuesFrom(reader, list, 0, count).Ok? {
      var fits := (j: nat) => j < |offs| && reader.cell(offs[j]).Ok? && reader.cell(offs[j]).value.KeyValueCell?;
      var idx := ValuesPicked(reader, list, count, offs, fits, 0);
      forall j | 0 <= j < |offs| ensures reader.cell(offs[j]).Ok? {
        ValuesReadable(reader, list, count, offs, 0, j);
      }
      assert Lists(idx, set i: nat | i < |offs| && ValueListed(reader, offs, i));
    } else {
      var k := ValuesFail(reader, list, count, offs, 0);
    }
  }

  // ----- the data of a value -----

  /** The first `n` bytes, or all of them. */
  ghost predicate IsFirst(d: Buf, all: Buf, n: nat) {
    d <= all && |d| == if n < |all| then n else |all|
  }

  /** The listed segment cells up to the first that is missing or cannot be read, of each at most 16344 bytes. */
  ghost predicate SegmentsAre(reader: CellReader, list: Buf, count: nat, parts: seq<Buf>) {
    && |parts| <= count && 4 * |parts| <= |list|
    && (forall i | 0 <= i < |parts| :: SegmentIs(reader, list, i, parts[i]))
    && (|parts| == count || 4 * |parts| + 4 > |list| || reader.raw(U32At(list, 4 * |parts|)).Err?)
  }

  ghost predicate SegmentIs(reader: CellReader, list: Buf, i: nat, part: Buf) {
    4 * i + 4 <= |list| && reader.raw(U32At(list, 4 * i)).Ok?
    && IsFirst(part, reader.raw(U32At(list, 4 * i)).value.body, 16344)
  }

  /** Data of more than 16344 bytes: cut from the segments that a record of type `db` lists, or from the cell itself. */
  ghost predicate LargeIs(reader: CellReader, o: u32, size: nat, d: Buf) {
    && reader.raw(o).Ok?
    && var db := reader.raw(o).value.body;
       if |db| >= 8 && db[0] == 0x64 && db[1] == 0x62 then
         && reader.raw(U32At(db, 4)).Ok?
         && exists parts: seq<Buf> ::
              SegmentsAre(reader, reader.raw(U32At(db, 4)).value.body, U16At(db, 2), parts)
              && IsFirst(d, Flatten(parts), size)
       else IsFirst(d, db, size)
  }

  /** The data of a value record: none, up to four bytes in the record itself, or what its data cell holds. */
  ghost predicate DataIs(reader: CellReader, vk: RawKeyValue, d: Buf) {
    var size := vk.dataSizeRaw % 0x8000_0000;
    if size == 0 then d == []
    else if vk.dataSizeRaw >= 0x8000_0000 then
      exists b: Buf :: |b| == 4 && U32At(b, 0) == vk.dataOffsetRaw && IsFirst(d, b, size)
    else if size > 16344 then LargeIs(reader, vk.dataOffsetRaw, size, d)
    else reader.raw(vk.dataOffsetRaw).Ok? && IsFirst(d, reader.raw(vk.dataOffsetRaw).value.body, size)
  }

  lemma FirstIsTake(all: Buf, n: nat, d: Buf)
    ensures IsFirst(d, all, n) <==> d == Take(all, n)
  {
  }

  lemma CutIsFirst(all: Buf, n: nat, d: Buf)
    ensures IsFirst(d, all, n) <==> d == all[..Min(n, |all|)]
  {
  }

  lemma {:induction false} ConcatFlattens(parts: seq<Buf>)
    ensures Concat(parts) == Flatten(parts)
  {
    if parts != [] {
      ConcatFlattens(parts[1..]);
    }
  }

  lemma {:induction false} SegmentsFrom(reader: CellReader, list: Buf, i: nat, count: nat)
    ensures var parts := Segments(reader, list, i, count);
            && (forall k | 0 <= k < |parts| :: SegmentIs(reader, list, i + k, parts[k]))
            && (parts != [] ==> i + |parts| <= count && 4 * (i + |parts|) <= |list|)
            && (i + |parts| >= count || 4 * (i + |parts|) + 4 > |list|
                || reader.raw(U32At(list, 4 * (i + |parts|))).Err?)
    decreases count - i
  {
    if i < count && 4 * i + 4 <= |list| && reader.raw(U32At(list, 4 * i)).Ok? {
      var body, rest := reader.raw(U32At(list, 4 * i)).value.body, Segments(reader, list, i + 1, count);
      SegmentsFrom(reader, list, i + 1, count);
      FirstIsTake(body, 16344, Take(body, SEGMENT_SIZE));
      forall k | 0 <= k < |rest| + 1 ensures SegmentIs(reader, list, i + k, ([Take(body, SEGMENT_SIZE)] + rest)[k]) {
        if k > 0 {
          assert SegmentIs(reader, list, i + 1 + (k - 1), rest[k - 1]);
        }
      }
    }
  }

  /** There is one such list of segments. */
  lemma SegmentsOnce(reader: CellReader, list: Buf, count: nat, a: seq<Buf>, b: seq<Buf>)
    requires SegmentsAre(reader, list, count, a) && SegmentsAre(reader, list, count, b)
    ensures a == b
  {
    assert |a| < |b| ==> SegmentIs(reader, list, |a|, b[|a|]);
    assert |b| < |a| ==> SegmentIs(reader, list, |b|, a[|b|]);
    forall i | 0 <= i < |a| ensures a[i] == b[i] {
      assert SegmentIs(reader, list, i, a[i]) && SegmentIs(reader, list, i, b[i]);
      var body := reader.raw(U32At(list, 4 * i)).value.body;
      FirstIsTake(body, 16344, a[i]);
      FirstIsTake(body, 16344, b[i]);
    }
  }

  lemma LargeExact(reader: CellReader, o: u32, size: nat, d: Buf)
    ensures Keys.BigData(reader, o, size) == Ok(d) <==> LargeIs(reader, o, size, d)
  {
    BigDataIsPrefix(reader, o, size);
    if reader.raw(o).Ok? {
      var db := reader.raw(o).value.body;
      FirstIsTake(db, size, d);
      if |db| >= 8 && db[0] == 0x64 && db[1] == 0x62 && reader.raw(U32At(db, 4)).Ok? {
        RecordExact(reader, reader.raw(U32At(db, 4)).value.body, U16At(db, 2), size, d);
      }
    }
  }

  lemma RecordExact(reader: CellReader, list: Buf, count: nat, size: nat, d: Buf)
    ensures d == Take(Concat(Segments(reader, list, 0, count)), size) <==>
            exists parts: seq<Buf> :: SegmentsAre(reader, list, count, parts) && IsFirst(d, Flatten(parts), size)
  {
    var segs := Segments(reader, list, 0, count);
    SegmentsFrom(reader, list, 0, count);
    assert SegmentsAre(reader, list, count, segs) by {
      forall i | 0 <= i < |segs| ensures SegmentIs(reader, list, i, segs[i]) {
        assert SegmentIs(reader, list, 0 + i, segs[i]);
      }
    }
    ConcatFlattens(segs);
    FirstIsTake(Flatten(segs), size, d);
    forall parts | SegmentsAre(reader, list, count, parts) ensures parts == segs {
      SegmentsOnce(reader, list, count, parts, segs);
    }
  }

  lemma ResidentExact(vk: RawKeyValue, d: Buf)
    requires vk.IsResident()
    ensures d == vk.InlineData() <==>
            exists b: Buf :: |b| == 4 && U32At(b, 0) == vk.dataOffsetRaw && IsFirst(d, b, vk.dataSizeRaw % 0x8000_0000)
  {
    var own := U32Bytes(vk.dataOffsetRaw);
    FirstIsTake(own, vk.DataSize(), d);
    forall b: Buf | |b| == 4 && U32At(b, 0) == vk.dataOffsetRaw ensures b == own {
      U32Injective(b, own);
    }
  }

  /** What reading a value's data gives. */
  lemma RawDataExact(reader: CellReader, v: Value, d: Buf)
    ensures RawData(reader, v) == Ok(d) <==> DataIs(reader, v.vk, d)
  {
    var size := v.vk.DataSize();
    if size > 0 {
      if v.vk.IsResident() {
        ResidentExact(v.vk, d);
      } else if size > 16344 {
        LargeExact(reader, v.vk.dataOffsetRaw, size, d);
      } else if reader.raw(v.vk.dataOffsetRaw).Ok? {
        CutIsFirst(reader.raw(v.vk.dataOffsetRaw).value.body, size, d);
      }
    }
  }
}
