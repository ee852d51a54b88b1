/** Key and value navigation over hive bytes (`winreg-core/src/key.rs`, `value.rs`). Each loop of the
    source is a method proved against the function that the lemmas use. */
module Keys {
  import opened Wrappers
  import opened Bytes
  import opened Sequences
  import opened Cells
  import opened Hives
  import opened KeyGraphs

  datatype Key = Key(node: RawKeyNode, offset: u32) {
    function Name(): string { node.Name() }
  }

  datatype Value = Value(vk: RawKeyValue, offset: u32) {
    function Name(): string { vk.Name() }
  }

  function KeyFromOffset(reader: CellReader, offset: u32): (r: Result<Key>)
    ensures r.Ok? ==> r.value.offset == offset && reader.cell(offset) == Ok(KeyNodeCell(r.value.node))
  {
    var cell :- reader.cell(offset);
    match cell
    case KeyNodeCell(nk) => Ok(Key(nk, offset))
    case _ => Err(InvalidCellSignature(offset))
  }

  function RootKey(h: Hive): Result<Key> {
    KeyFromOffset(FlatFile(h.data), h.header.rootCellOffset)
  }

  // ----- subkey lists, including nested `ri` lists -----

  function HashLeafOffsets(lh: seq<LhElement>): (r: seq<u32>)
    ensures |r| == |lh|
  {
    seq(|lh|, i requires 0 <= i < |lh| => lh[i].keyOffset)
  }

  function FastLeafOffsets(lf: seq<LfElement>): (r: seq<u32>)
    ensures |r| == |lf|
  {
    seq(|lf|, i requires 0 <= i < |lf| => lf[i].keyOffset)
  }

  /** The key offsets an index cell lists, through at most `depth` levels of nesting. The source has no
      such bound; `FlatDepthSuffices` shows that the one used is as good as any. */
  function IndexOffsets(reader: CellReader, offset: u32, depth: nat): Result<seq<u32>>
    decreases depth, 0
  {
    if depth == 0 then Err(EndlessIndex)
    else
      var cell :- reader.cell(offset);
      match cell
      case IndexCell(HashLeafIndex(lh)) => Ok(HashLeafOffsets(lh))
      case IndexCell(FastLeafIndex(lf)) => Ok(FastLeafOffsets(lf))
      case IndexCell(IndexLeafIndex(li)) => Ok(li)
      case IndexCell(RootIndexIndex(ri)) => NestedOffsets(reader, ri, depth - 1)
      case _ => Ok([])
  }

  function NestedOffsets(reader: CellReader, subs: seq<u32>, depth: nat): Result<seq<u32>>
    decreases depth, |subs| + 1
  {
    if subs == [] then Ok([])
    else
      var first :- IndexOffsets(reader, subs[0], depth);
      var rest :- NestedOffsets(reader, subs[1..], depth);
      Ok(first + rest)
  }

  lemma {:induction false} IndexDepthStable(reader: CellReader, offset: u32, depth: nat, more: nat)
    requires depth <= more && IndexOffsets(reader, offset, depth) != Err(EndlessIndex)
    ensures IndexOffsets(reader, offset, more) == IndexOffsets(reader, offset, depth)
    decreases depth, 0
  {
    match reader.cell(offset)
    case Ok(IndexCell(RootIndexIndex(ri))) => NestedDepthStable(reader, ri, depth - 1, more - 1);
    case _ =>
  }

  lemma {:induction false} NestedDepthStable(reader: CellReader, subs: seq<u32>, depth: nat, more: nat)
    requires depth <= more && NestedOffsets(reader, subs, depth) != Err(EndlessIndex)
    ensures NestedOffsets(reader, subs, more) == NestedOffsets(reader, subs, depth)
    decreases depth, |subs| + 1
  {
    if subs != [] {
      IndexDepthStable(reader, subs[0], depth, more);
      if IndexOffsets(reader, subs[0], depth).Ok? {
        NestedDepthStable(reader, subs[1..], depth, more);
      }
    }
  }

  // ----- which depth suffices -----

  ghost predicate Endless(reader: CellReader, offset: u32, depth: nat) {
    IndexOffsets(reader, offset, depth) == Err(EndlessIndex)
  }

  /** The least depth that suffices for the index at this offset. */
  ghost predicate Needs(reader: CellReader, offset: u32, depth: nat) {
    depth > 0 && !Endless(reader, offset, depth) && Endless(reader, offset, depth - 1)
  }

  lemma {:induction false} LeastDepth(reader: CellReader, offset: u32, depth: nat) returns (least: nat)
    requires !Endless(reader, offset, depth)
    ensures least <= depth && Needs(reader, offset, least)
  {
    least := depth;
    if !Endless(reader, offset, depth - 1) {
      least := LeastDepth(reader, offset, depth - 1);
    }
  }

  lemma {:induction false} NeedsOne(reader: CellReader, offset: u32, a: nat, b: nat)
    requires Needs(reader, offset, a) && Needs(reader, offset, b)
    ensures a == b
  {
    if a < b {
      IndexDepthStable(reader, offset, a, b - 1);
    } else if b < a {
      IndexDepthStable(reader, offset, b, a - 1);
    }
  }

  lemma {:induction false} NextNeeds(reader: CellReader, subs: seq<u32>, depth: nat) returns (k: nat)
    requires NestedOffsets(reader, subs, depth) == Err(EndlessIndex)
    requires NestedOffsets(reader, subs, depth + 1) != Err(EndlessIndex)
    ensures k < |subs| && Needs(reader, subs[k], depth + 1)
  {
    if Endless(reader, subs[0], depth) {
      k := 0;
    } else {
      IndexDepthStable(reader, subs[0], depth, depth + 1);
      k := NextNeeds(reader, subs[1..], depth);
      k := k + 1;
    }
  }

  lemma {:induction false} NeedsNested(reader: CellReader, offset: u32, depth: nat) returns (sub: u32)
    requires Needs(reader, offset, depth + 2)
    ensures reader.cell(offset).Ok? && Needs(reader, sub, depth + 1)
  {
    match reader.cell(offset)
    case Ok(IndexCell(RootIndexIndex(ri))) =>
      var k := NextNeeds(reader, ri, depth);
      sub := ri[k];
    case _ =>
  }

  /** An index that needs a certain depth has that many different list offsets below it, each of a readable cell. */
  lemma {:induction false} OffsetsBelow(reader: CellReader, offset: u32, depth: nat) returns (below: set<u32>)
    requires Needs(reader, offset, depth)
    ensures |below| == depth - 1
    ensures forall o | o in below :: reader.cell(o).Ok? && exists d: nat :: d <= depth && Needs(reader, o, d)
    decreases depth
  {
    if depth == 1 {
      below := {};
    } else {
      var sub := NeedsNested(reader, offset, depth - 2);
      var rest := OffsetsBelow(reader, sub, depth - 1);
      if offset in rest {
        var d: nat :| d <= depth - 1 && Needs(reader, offset, d);
        NeedsOne(reader, offset, d, depth);
      }
      below := rest + {offset};
    }
  }

  lemma {:induction false} CountBelow(s: set<u32>, n: nat)
    requires forall x | x in s :: x < n
    ensures |s| <= n
  {
    if n > 0 {
      CountBelow(s - {n - 1}, n - 1);
      if n - 1 in s {
        assert |s| == |s - {n - 1}| + 1;
      } else {
        assert s - {n - 1} == s;
      }
    } else {
      assert s == {};
    }
  }

  /** The depth of the flat-file reader suffices if and only if some depth does, and it then gives the same offsets:
      the reader reports an endless index exactly where the source's recursion does not end. */
  lemma {:induction false} FlatDepthSuffices(data: Buf, offset: u32)
    ensures var reader := FlatFile(data);
            !Endless(reader, offset, reader.maxIndexDepth) <==> exists depth: nat :: !Endless(reader, offset, depth)
    ensures forall depth: nat | !Endless(FlatFile(data), offset, depth) ::
              IndexOffsets(FlatFile(data), offset, depth)
                == IndexOffsets(FlatFile(data), offset, FlatFile(data).maxIndexDepth)
  {
    var reader := FlatFile(data);
    forall depth: nat | !Endless(reader, offset, depth)
      ensures IndexOffsets(reader, offset, depth) == IndexOffsets(reader, offset, reader.maxIndexDepth)
    {
      var least := LeastDepth(reader, offset, depth);
      var below := OffsetsBelow(reader, offset, least);
      CountBelow(below, |data|);
      IndexDepthStable(reader, offset, least, depth);
      IndexDepthStable(reader, offset, least, reader.maxIndexDepth);
    }
  }

  method CollectSubkeyOffsets(reader: CellReader, offset: u32, depth: nat) returns (r: Result<seq<u32>>)
    ensures r == IndexOffsets(reader, offset, depth)
    decreases depth
  {
    if depth == 0 {
      return Err(EndlessIndex);
    }
    var cell :- reader.cell(offset);
    match cell {
      case IndexCell(HashLeafIndex(lh)) => return Ok(HashLeafOffsets(lh));
      case IndexCell(FastLeafIndex(lf)) => return Ok(FastLeafOffsets(lf));
      case IndexCell(IndexLeafIndex(li)) => return Ok(li);
      case IndexCell(RootIndexIndex(ri)) =>
        var all: seq<u32> := [];
        assert forall rest :: all + rest == rest;
        for i := 0 to |ri|
          invariant NestedOffsets(reader, ri, depth - 1) ==
                    match NestedOffsets(reader, ri[i..], depth - 1)
                    case Err(e) => Err(e)
                    case Ok(rest) => Ok(all + rest)
        {
          var offsets :- CollectSubkeyOffsets(reader, ri[i], depth - 1);
          assert ri[i..][1..] == ri[i + 1..];
          assert forall rest :: all + (offsets + rest) == all + offsets + rest;
          all := all + offsets;
        }
        assert all + [] == all;
        return Ok(all);
      case _ => return Ok([]);
    }
  }

  /** The key nodes among the cells at `offsets`, in order. */
  function KeysAt(reader: CellReader, offsets: seq<u32>): Result<seq<Key>> {
    if offsets == [] then Ok([])
    else
      var cell :- reader.cell(offsets[0]);
      var rest :- KeysAt(reader, offsets[1..]);
      Ok((if cell.KeyNodeCell? then [Key(cell.nk, offsets[0])] else []) + rest)
  }

  function Subkeys(reader: CellReader, key: Key): Result<seq<Key>> {
    if key.node.subkeyCount == 0 || key.node.subkeysListOffset == NULL_OFFSET then Ok([])
    else
      var offsets :- IndexOffsets(reader, key.node.subkeysListOffset, reader.maxIndexDepth);
      KeysAt(reader, offsets)
  }

  method ListSubkeys(reader: CellReader, key: Key) returns (r: Result<seq<Key>>)
    ensures r == Subkeys(reader, key)
  {
    if key.node.subkeyCount == 0 || key.node.subkeysListOffset == NULL_OFFSET {
      return Ok([]);
    }
    var offsets :- CollectSubkeyOffsets(reader, key.node.subkeysListOffset, reader.maxIndexDepth);
    var keys: seq<Key> := [];
    assert forall rest :: keys + rest == rest;
    for i := 0 to |offsets|
      invariant KeysAt(reader, offsets) ==
                match KeysAt(reader, offsets[i..])
                case Err(e) => Err(e)
                case Ok(rest) => Ok(keys + rest)
    {
      var cell :- reader.cell(offsets[i]);
      assert offsets[i..][1..] == offsets[i + 1..];
      if cell.KeyNodeCell? {
        assert forall rest :: keys + ([Key(cell.nk, offsets[i])] + rest) == keys + [Key(cell.nk, offsets[i])] + rest;
        keys := keys + [Key(cell.nk, offsets[i])];
      } else {
        assert forall rest: seq<Key> :: [] + rest == rest;
      }
    }
    assert keys + [] == keys;
    r := Ok(keys);
  }

  /** Every listed key is the key node stored at its offset. */
  lemma {:induction false} KeysAtRead(reader: CellReader, offsets: seq<u32>, i: nat)
    requires KeysAt(reader, offsets).Ok? && i < |KeysAt(reader, offsets).value|
    ensures var k := KeysAt(reader, offsets).value[i];
            k.offset in offsets && reader.cell(k.offset) == Ok(KeyNodeCell(k.node))
  {
    var cell := reader.cell(offsets[0]).value;
    var here := if cell.KeyNodeCell? then 1 else 0;
    if i >= here {
      KeysAtRead(reader, offsets[1..], i - here);
      assert forall o | o in offsets[1..] :: o in offsets;
    }
  }

  lemma SubkeysRead(reader: CellReader, key: Key, child: Key)
    requires Subkeys(reader, key).Ok? && child in Subkeys(reader, key).value
    ensures reader.cell(child.offset) == Ok(KeyNodeCell(child.node))
  {
    var kids := Subkeys(reader, key).value;
    var i :| 0 <= i < |kids| && kids[i] == child;
    KeysAtRead(reader, IndexOffsets(reader, key.node.subkeysListOffset, reader.maxIndexDepth).value, i);
  }

  // ----- values -----

  /** The values listed from index `i` of a values list; a short list ends the walk. */
  function ValuesFrom(reader: CellReader, list: Buf, i: nat, count: nat): Result<seq<Value>>
    decreases count - i
  {
    if i >= count || 4 * i + 4 > |list| then Ok([])
    else
      var at := U32At(list, 4 * i);
      var cell :- reader.cell(at);
      var rest :- ValuesFrom(reader, list, i + 1, count);
      Ok((if cell.KeyValueCell? then [Value(cell.vk, at)] else []) + rest)
  }

  function Values(reader: CellReader, key: Key): Result<seq<Value>> {
    if key.node.valueCount == 0 || key.node.valuesListOffset == NULL_OFFSET then Ok([])
    else
      var raw :- reader.raw(key.node.valuesListOffset);
      ValuesFrom(reader, raw.body, 0, key.node.valueCount)
  }

  method ListValues(reader: CellReader, key: Key) returns (r: Result<seq<Value>>)
    ensures r == Values(reader, key)
  {
    if key.node.valueCount == 0 || key.node.valuesListOffset == NULL_OFFSET {
      return Ok([]);
    }
    var raw :- reader.raw(key.node.valuesListOffset);
    var values: seq<Value> := [];
    assert forall rest :: values + rest == rest;
    for i := 0 to key.node.valueCount
      invariant ValuesFrom(reader, raw.body, 0, key.node.valueCount) ==
                match ValuesFrom(reader, raw.body, i, key.node.valueCount)
                case Err(e) => Err(e)
                case Ok(rest) => Ok(values + rest)
    {
      if 4 * i + 4 > |raw.body| {
        assert values + [] == values;
        return Ok(values);
      }
      var at := LeU32(raw.body, 4 * i);
      var cell :- reader.cell(at);
      if cell.KeyValueCell? {
        assert forall rest :: values + ([Value(cell.vk, at)] + rest) == values + [Value(cell.vk, at)] + rest;
        values := values + [Value(cell.vk, at)];
      } else {
        assert forall rest: seq<Value> :: [] + rest == rest;
      }
    }
    assert values + [] == values;
    r := Ok(values);
  }

  // ----- value data -----

  const BIG_DATA_THRESHOLD: nat := 16344
  const SEGMENT_SIZE: nat := 16344

  function Min(a: nat, b: nat): nat { if a < b then a else b }

  /** The first `need` bytes held by the segment cells listed from index `i`: a missing list entry or an
      unreadable segment ends the gathering. */
  function Gather(reader: CellReader, list: Buf, i: nat, count: nat, need: nat): (r: Buf)
    ensures |r| <= need
    decreases count - i
  {
    if i >= count || need == 0 || 4 * i + 4 > |list| then []
    else
      match reader.raw(U32At(list, 4 * i))
      case Err(_) => []
      case Ok(seg) =>
        var take := Min(Min(need, SEGMENT_SIZE), |seg.body|);
        seg.body[..take] + Gather(reader, list, i + 1, count, need - take)
  }

  function BigData(reader: CellReader, dbOffset: u32, size: nat): Result<Buf> {
    var db :- reader.raw(dbOffset);
    if |db.body| < 8 || db.body[0] as int != 'd' as int || db.body[1] as int != 'b' as int then
      Ok(db.body[..Min(size, |db.body|)])
    else
      var list :- reader.raw(U32At(db.body, 4));
      Ok(Gather(reader, list.body, 0, U16At(db.body, 2), size))
  }

  function RawData(reader: CellReader, v: Value): Result<Buf> {
    var size := v.vk.DataSize();
    if size == 0 then Ok([])
    else if v.vk.IsResident() then Ok(v.vk.InlineData())
    else if size > BIG_DATA_THRESHOLD then BigData(reader, v.vk.dataOffsetRaw, size)
    else
      var raw :- reader.raw(v.vk.dataOffsetRaw);
      Ok(raw.body[..Min(size, |raw.body|)])
  }

  method GatherSegments(reader: CellReader, list: Buf, count: nat, size: nat) returns (out: Buf)
    ensures out == Gather(reader, list, 0, count, size)
  {
    out := [];
    for i := 0 to count
      invariant |out| <= size
      invariant Gather(reader, list, 0, count, size) == out + Gather(reader, list, i, count, size - |out|)
    {
      if |out| >= size || 4 * i + 4 > |list| {
        return;
      }
      var seg := reader.raw(U32At(list, 4 * i));
      if seg.Err? {
        return;
      }
      var take := Min(Min(size - |out|, SEGMENT_SIZE), |seg.value.body|);
      AppendAssociates(out, seg.value.body[..take], Gather(reader, list, i + 1, count, size - |out| - take));
      out := out + seg.value.body[..take];
    }
  }

  // ----- what a large value is: a prefix of everything its record stores -----

  /** The segments that can be read, in order, each cut to the most a segment holds: up to the first missing list
      entry or unreadable segment. */
  function Segments(reader: CellReader, list: Buf, i: nat, count: nat): seq<Buf>
    decreases count - i
  {
    if i >= count || 4 * i + 4 > |list| || reader.raw(U32At(list, 4 * i)).Err? then []
    else [Take(reader.raw(U32At(list, 4 * i)).value.body, SEGMENT_SIZE)] + Segments(reader, list, i + 1, count)
  }

  function Concat(parts: seq<Buf>): Buf {
    if parts == [] then [] else parts[0] + Concat(parts[1..])
  }

  lemma TakePart(a: Buf, b: Buf, need: nat)
    ensures Take(a + b, need) == Take(a, need) + Take(b, need - |Take(a, need)|)
  {
  }

  lemma CutTwice(body: Buf, need: nat)
    ensures body[..Min(Min(need, SEGMENT_SIZE), |body|)] == Take(Take(body, SEGMENT_SIZE), need)
  {
  }

  /** Cutting each segment to what is still needed is cutting the whole once. */
  lemma {:induction false} GatherTakes(reader: CellReader, list: Buf, i: nat, count: nat, need: nat)
    ensures Gather(reader, list, i, count, need) == Take(Concat(Segments(reader, list, i, count)), need)
    decreases count - i
  {
    if i < count && 4 * i + 4 <= |list| && reader.raw(U32At(list, 4 * i)).Ok? {
      var body := reader.raw(U32At(list, 4 * i)).value.body;
      FirstSegment(body, Concat(Segments(reader, list, i + 1, count)), Segments(reader, list, i, count), need);
      CutTwice(body, need);
      GatherTakes(reader, list, i + 1, count, need - |Take(Take(body, SEGMENT_SIZE), need)|);
    }
  }

  lemma FirstSegment(body: Buf, rest: Buf, all: seq<Buf>, need: nat)
    requires all != [] && all[0] == Take(body, SEGMENT_SIZE) && Concat(all[1..]) == rest
    ensures var first := Take(Take(body, SEGMENT_SIZE), need);
            Take(Concat(all), need) == first + Take(rest, need - |first|)
  {
    TakePart(Take(body, SEGMENT_SIZE), rest, need);
  }

  /** Everything stored for a large value: the segments of its record, or the cell itself when it is no record. */
  function Stored(reader: CellReader, dbOffset: u32): Result<Buf> {
    var db :- reader.raw(dbOffset);
    if |db.body| < 8 || db.body[..2] != ['d' as int, 'b' as int] then Ok(db.body)
    else
      var list :- reader.raw(U32At(db.body, 4));
      Ok(Concat(Segments(reader, list.body, 0, U16At(db.body, 2))))
  }

  /** The declared size only cuts: a large value is the first `size` bytes of what is stored, or all of it. */
  lemma {:induction false} BigDataIsPrefix(reader: CellReader, dbOffset: u32, size: nat)
    ensures BigData(reader, dbOffset, size).Err? <==> Stored(reader, dbOffset).Err?
    ensures BigData(reader, dbOffset, size).Err? ==> BigData(reader, dbOffset, size) == Stored(reader, dbOffset)
    ensures BigData(reader, dbOffset, size).Ok? ==>
            BigData(reader, dbOffset, size).value == Take(Stored(reader, dbOffset).value, size)
  {
    if reader.raw(dbOffset).Ok? {
      var db := reader.raw(dbOffset).value.body;
      if |db| >= 8 && reader.raw(U32At(db, 4)).Ok? {
        GatherTakes(reader, reader.raw(U32At(db, 4)).value.body, 0, U16At(db, 2), size);
      }
    }
  }

  method ReadBigData(reader: CellReader, dbOffset: u32, size: nat) returns (r: Result<Buf>)
    ensures r == BigData(reader, dbOffset, size)
    ensures r.Ok? == Stored(reader, dbOffset).Ok?
    ensures r.Ok? ==> r.value == Take(Stored(reader, dbOffset).value, size)
  {
    BigDataIsPrefix(reader, dbOffset, size);
    var db :- reader.raw(dbOffset);
    if |db.body| < 8 || db.body[0] as int != 'd' as int || db.body[1] as int != 'b' as int {
      return Ok(db.body[..Min(size, |db.body|)]);
    }
    var list :- reader.raw(U32At(db.body, 4));
    var out := GatherSegments(reader, list.body, U16At(db.body, 2), size);
    r := Ok(out);
  }

  // ----- the graph that navigation sees -----

  /** Where a key's parent link leads: nowhere when it is null or the cell there is no key. */
  function ParentOf(reader: CellReader, key: Key): Result<Option<Key>> {
    if key.node.parent == NULL_OFFSET then Ok(None)
    else
      var cell :- reader.cell(key.node.parent);
      if cell.KeyNodeCell? then Ok(Some(Key(cell.nk, key.node.parent))) else Ok(None)
  }

  function Described(reader: CellReader, v: Value): ValueData {
    ValueData(v.Name(), v.vk.dataType, RawData(reader, v))
  }

  function DescribedValues(reader: CellReader, key: Key): Result<seq<ValueData>> {
    var vs :- Values(reader, key);
    Ok(seq(|vs|, i requires 0 <= i < |vs| => Described(reader, vs[i])))
  }

  function HiveGraph(reader: CellReader): KeyGraph<Key> {
    KeyGraph((k: Key) => k.Name(), (k: Key) => k.node.IsRoot(), (k: Key) => ParentOf(reader, k),
             (k: Key) => Subkeys(reader, k), (k: Key) => DescribedValues(reader, k))
  }
}
