/** The byte buffer of a build and the cells in it (`TestHiveBuilder::build`, steps 3 and 4, in
    `winreg-testutil/src/lib.rs`). */
module Images {
  import opened Wrappers
  import opened Bytes
  import opened Cells
  import opened Hives
  import opened Records
  import opened Allocation

  const BASE_SIZE: nat := 4096
  const HBIN_DATA: nat := 32

  function FilePos(c: AllocatedCell): nat { BASE_SIZE + HBIN_DATA + c.offset }

  function BodyPos(c: AllocatedCell): nat { FilePos(c) + 4 }

  /** How links refer to a cell. */
  function CellOffset(c: AllocatedCell): u32 { AsU32(HBIN_DATA + c.offset) }

  /** `-(n as i32)` as a 32-bit word. */
  function Negated(n: nat): u32 {
    if AsU32(n) == 0 then 0 else 0x1_0000_0000 - AsU32(n)
  }

  // ----- a cell in the buffer -----

  ghost predicate CellHolds(s: Buf, c: AllocatedCell, body: Buf) {
    && |body| == |c.body| && 4 + |body| <= c.alignedSize && FilePos(c) + c.alignedSize <= |s|
    && s[BodyPos(c)..BodyPos(c) + |body|] == body
  }

  /** The size field of an allocated cell is negative. */
  ghost predicate SizeHolds(s: Buf, c: AllocatedCell) {
    FilePos(c) + 4 <= |s| && U32At(s, FilePos(c)) == Negated(c.alignedSize)
  }

  ghost predicate SizesHold(s: Buf, cells: seq<AllocatedCell>) {
    cells != [] ==> SizeHolds(s, cells[|cells| - 1]) && SizesHold(s, cells[..|cells| - 1])
  }

  lemma {:induction false} SizeAt(s: Buf, cells: seq<AllocatedCell>, i: nat)
    requires SizesHold(s, cells) && i < |cells|
    ensures SizeHolds(s, cells[i])
  {
    if i < |cells| - 1 {
      SizeAt(s, cells[..|cells| - 1], i);
    }
  }

  lemma {:induction false} SizeElsewhere(s: Buf, c: AllocatedCell, at: nat, w: Buf)
    requires SizeHolds(s, c) && at + |w| <= |s| && (at + |w| <= FilePos(c) || FilePos(c) + 4 <= at)
    ensures SizeHolds(Splice(s, at, w), c)
  {
  }

  /** Writing after all the cells, or before them. */
  lemma {:induction false} SizesAround(s: Buf, cells: seq<AllocatedCell>, end: nat, at: nat, w: Buf)
    requires Tiled(cells, end) && SizesHold(s, cells) && at + |w| <= |s|
    requires at + |w| <= BASE_SIZE + HBIN_DATA || BASE_SIZE + HBIN_DATA + end <= at
    ensures SizesHold(Splice(s, at, w), cells)
  {
    if cells != [] {
      var n := |cells| - 1;
      SizeElsewhere(s, cells[n], at, w);
      SizesAround(s, cells[..n], cells[n].offset, at, w);
    }
  }

  /** Writing inside the body of a cell. */
  lemma {:induction false} SizesInside(s: Buf, cells: seq<AllocatedCell>, end: nat, id: nat, at: nat, w: Buf)
    requires Tiled(cells, end) && SizesHold(s, cells) && id < |cells| && at + |w| <= |s|
    requires BodyPos(cells[id]) <= at && at + |w| <= FilePos(cells[id]) + cells[id].alignedSize
    ensures SizesHold(Splice(s, at, w), cells)
  {
    var n := |cells| - 1;
    if id == n {
      SizeElsewhere(s, cells[n], at, w);
      SizesAround(s, cells[..n], cells[n].offset, at, w);
    } else {
      TiledCell(cells[..n], cells[n].offset, id);
      SizeElsewhere(s, cells[n], at, w);
      SizesInside(s, cells[..n], cells[n].offset, id, at, w);
    }
  }

  /** The buffer holds every cell, with these bodies. */
  ghost predicate Holds(s: Buf, cells: seq<AllocatedCell>, bodies: seq<Buf>) {
    && |bodies| == |cells|
    && (cells != [] ==>
      var n := |cells| - 1;
      CellHolds(s, cells[n], bodies[n]) && Holds(s, cells[..n], bodies[..n]))
  }

  lemma {:induction false} HoldsAt(s: Buf, cells: seq<AllocatedCell>, bodies: seq<Buf>, i: nat)
    requires Holds(s, cells, bodies) && i < |cells|
    ensures CellHolds(s, cells[i], bodies[i])
  {
    var n := |cells| - 1;
    if i < n {
      HoldsAt(s, cells[..n], bodies[..n], i);
    }
  }

  lemma {:induction false} SpliceElsewhere(s: Buf, c: AllocatedCell, body: Buf, at: nat, w: Buf)
    requires CellHolds(s, c, body) && at + |w| <= |s|
    requires at + |w| <= FilePos(c) || FilePos(c) + c.alignedSize <= at
    ensures CellHolds(Splice(s, at, w), c, body)
  {
    var r := Splice(s, at, w);
    assert r[BodyPos(c)..BodyPos(c) + |body|] == s[BodyPos(c)..BodyPos(c) + |body|];
  }

  lemma {:induction false} SpliceInside(s: Buf, c: AllocatedCell, body: Buf, field: nat, w: Buf)
    requires CellHolds(s, c, body) && field + |w| <= |body|
    ensures CellHolds(Splice(s, BodyPos(c) + field, w), c, Splice(body, field, w))
  {
    var r := Splice(s, BodyPos(c) + field, w);
    forall k | 0 <= k < |body| ensures r[BodyPos(c)..BodyPos(c) + |body|][k] == Splice(body, field, w)[k] {
      assert s[BodyPos(c)..BodyPos(c) + |body|][k] == body[k];
    }
  }

  /** Writing outside the stretch that the cells fill. */
  lemma {:induction false} SpliceAround(s: Buf, cells: seq<AllocatedCell>, end: nat, bodies: seq<Buf>, at: nat, w: Buf)
    requires Tiled(cells, end) && Holds(s, cells, bodies) && at + |w| <= |s|
    requires at + |w| <= BASE_SIZE + HBIN_DATA || BASE_SIZE + HBIN_DATA + end <= at
    ensures Holds(Splice(s, at, w), cells, bodies)
  {
    if cells != [] {
      var n := |cells| - 1;
      SpliceElsewhere(s, cells[n], bodies[n], at, w);
      SpliceAround(s, cells[..n], cells[n].offset, bodies[..n], at, w);
    }
  }

  /** A write inside the body of the last cell. */
  lemma {:induction false} SpliceLast(s: Buf, cells: seq<AllocatedCell>, end: nat, bodies: seq<Buf>, field: nat, w: Buf,
                                      at: nat, patched: Buf)
    requires Tiled(cells, end) && Holds(s, cells, bodies) && cells != [] && field + |w| <= |bodies[|cells| - 1]|
             && at + |w| <= |s|
    requires at == BodyPos(cells[|cells| - 1]) + field && patched == Splice(bodies[|cells| - 1], field, w)
    ensures Holds(Splice(s, at, w), cells, bodies[|cells| - 1 := patched])
  {
    var n := |cells| - 1;
    assert bodies[n := patched][..n] == bodies[..n];
    SpliceInside(s, cells[n], bodies[n], field, w);
    SpliceAround(s, cells[..n], cells[n].offset, bodies[..n], at, w);
  }

  /** A write inside the body of an earlier cell leaves the last one as it is. */
  lemma {:induction false} LastKept(s: Buf, cells: seq<AllocatedCell>, end: nat, bodies: seq<Buf>, id: nat, at: nat,
                                    w: Buf, patched: Buf)
    requires Tiled(cells, end) && Holds(s, cells, bodies) && id < |cells| - 1 && at + |w| <= FilePos(cells[|cells| - 1])
    requires at + |w| <= |s|
    requires Holds(Splice(s, at, w), cells[..|cells| - 1], bodies[..|cells| - 1][id := patched])
    ensures Holds(Splice(s, at, w), cells, bodies[id := patched])
  {
    var n := |cells| - 1;
    assert bodies[id := patched][..n] == bodies[..n][id := patched];
    SpliceElsewhere(s, cells[n], bodies[n], at, w);
  }

  lemma {:induction false} BodyInside(s: Buf, cells: seq<AllocatedCell>, end: nat, bodies: seq<Buf>, id: nat)
    requires Tiled(cells, end) && Holds(s, cells, bodies) && id < |cells|
    ensures BodyPos(cells[id]) + |bodies[id]| <= FilePos(cells[id]) + cells[id].alignedSize <= |s|
    ensures FilePos(cells[id]) + cells[id].alignedSize <= BASE_SIZE + HBIN_DATA + end
  {
    TiledCell(cells, end, id);
    HoldsAt(s, cells, bodies, id);
  }

  /** Writing inside the body of one cell changes that body and no other. */
  lemma {:induction false} SpliceBody(s: Buf, cells: seq<AllocatedCell>, end: nat, bodies: seq<Buf>, id: nat,
                                      field: nat, w: Buf, at: nat, patched: Buf)
    requires Tiled(cells, end) && Holds(s, cells, bodies) && id < |cells| && field + |w| <= |bodies[id]|
             && at + |w| <= |s|
    requires at == BodyPos(cells[id]) + field && patched == Splice(bodies[id], field, w)
    ensures Holds(Splice(s, at, w), cells, bodies[id := patched])
  {
    var n := |cells| - 1;
    if id == n {
      SpliceLast(s, cells, end, bodies, field, w, at, patched);
    } else {
      var before, held := cells[..n], bodies[..n];
      assert held[id] == bodies[id] && before[id] == cells[id];
      SpliceBody(s, before, cells[n].offset, held, id, field, w, at, patched);
      BodyInside(s, before, cells[n].offset, held, id);
      LastKept(s, cells, end, bodies, id, at, w, patched);
    }
  }

  lemma {:induction false} TiledPrefix(cells: seq<AllocatedCell>, end: nat, n: nat)
    requires Tiled(cells, end) && 0 < n <= |cells|
    ensures Tiled(cells[..n], cells[n - 1].End()) && cells[n - 1].End() <= end
  {
    if n == |cells| {
      assert cells[..n] == cells;
    } else {
      TiledPrefix(cells[..|cells| - 1], cells[|cells| - 1].offset, n);
      assert cells[..|cells| - 1][..n] == cells[..n];
    }
  }

  // ----- reading a cell back -----

  lemma {:induction false} SizeField(s: Buf, c: AllocatedCell)
    requires SizeHolds(s, c) && 0 < c.alignedSize <= 0x7FFF_FFFF
    ensures I32At(s, FilePos(c)) + c.alignedSize == 0
  {
    assert AsU32(c.alignedSize) == c.alignedSize;
  }

  /** The reader finds the cell at its offset: its body, followed by padding. */
  lemma {:induction false} BodyReadBack(s: Buf, c: AllocatedCell, body: Buf)
    requires CellHolds(s, c, body) && SizeHolds(s, c) && c.alignedSize <= 0x7FFF_FFFF
             && HBIN_DATA + c.offset < NULL_OFFSET
    ensures ReadCellRaw(s, CellOffset(c)).Ok? && body <= ReadCellRaw(s, CellOffset(c)).value.body
  {
    SizeField(s, c);
    assert CellOffset(c) == HBIN_DATA + c.offset;
    var e := s[FilePos(c) + 4..FilePos(c) + c.alignedSize];
    assert e[..|body|] == s[BodyPos(c)..BodyPos(c) + |body|];
  }

  // ----- writing -----

  method WriteAt(buf: array<byte>, at: nat, w: Buf)
    requires at + |w| <= buf.Length
    modifies buf
    ensures buf[..] == Splice(old(buf[..]), at, w)
  {
    forall i | 0 <= i < |w| {
      buf[at + i] := w[i];
    }
  }

  method WriteU32(buf: array<byte>, at: nat, x: u32)
    requires at + 4 <= buf.Length
    modifies buf
    ensures buf[..] == Put32(old(buf[..]), at, x)
  {
    WriteAt(buf, at, U32Bytes(x));
  }

  /** The bodies as allocated. */
  function Bodies(cells: seq<AllocatedCell>): (bs: seq<Buf>)
    ensures |bs| == |cells| && forall i | 0 <= i < |cells| :: bs[i] == cells[i].body
  {
    seq(|cells|, i requires 0 <= i < |cells| => cells[i].body)
  }

  lemma {:induction false} Patched(s: Buf, cells: seq<AllocatedCell>, end: nat, bodies: seq<Buf>, id: nat, field: nat,
                                   w: Buf)
    requires Tiled(cells, end) && Holds(s, cells, bodies) && SizesHold(s, cells) && id < |cells|
             && field + |w| <= |bodies[id]|
    ensures BodyPos(cells[id]) + field + |w| <= |s|
    ensures Holds(Splice(s, BodyPos(cells[id]) + field, w), cells, bodies[id := Splice(bodies[id], field, w)])
    ensures SizesHold(Splice(s, BodyPos(cells[id]) + field, w), cells)
  {
    BodyInside(s, cells, end, bodies, id);
    SpliceBody(s, cells, end, bodies, id, field, w, BodyPos(cells[id]) + field, Splice(bodies[id], field, w));
    SizesInside(s, cells, end, id, BodyPos(cells[id]) + field, w);
  }

  class Image {
    const buf: array<byte>
    const cells: seq<AllocatedCell>
    const end: nat
    ghost var bodies: seq<Buf>

    ghost predicate Valid()
      reads this, buf
    {
      Tiled(cells, end) && BASE_SIZE + HBIN_DATA + end <= buf.Length && Holds(buf[..], cells, bodies)
        && SizesHold(buf[..], cells)
    }

    /** Step 3: a zeroed buffer, then the cells as allocated. */
    constructor (cells: seq<AllocatedCell>, end: nat)
      requires Tiled(cells, end)
      ensures Valid() && fresh(buf) && this.cells == cells && this.end == end
      ensures buf.Length == BASE_SIZE + Align4096(HBIN_DATA + end)
      ensures bodies == Bodies(cells)
    {
      var bytes := new byte[BASE_SIZE + Align4096(HBIN_DATA + end)](_ => 0);
      this.cells, this.end := cells, end;
      buf := bytes;
      bodies := Bodies(cells);
      new;
      WriteCells(bytes, cells, end);
    }

    /** `copy_from_slice` into a cell's body. */
    method PatchBytes(id: nat, field: nat, w: Buf)
      requires Valid() && id < |cells| && field + |w| <= |bodies[id]|
      modifies this, buf
      ensures Valid() && bodies == old(bodies)[id := Splice(old(bodies)[id], field, w)]
    {
      Patched(buf[..], cells, end, bodies, id, field, w);
      WriteAt(buf, BodyPos(cells[id]) + field, w);
      bodies := bodies[id := Splice(bodies[id], field, w)];
    }

    /** `write_u32` into a field of a cell's body. */
    method Patch(id: nat, field: nat, x: u32)
      requires Valid() && id < |cells| && field + 4 <= |bodies[id]|
      modifies this, buf
      ensures Valid() && bodies == old(bodies)[id := Put32(old(bodies)[id], field, x)]
    {
      PatchBytes(id, field, U32Bytes(x));
    }
  }

  /** The size field and the body of one cell, the cells before it untouched. */
  method WriteCell(buf: array<byte>, cells: seq<AllocatedCell>, ghost bodies: seq<Buf>, i: nat)
    requires i < |cells| == |bodies| && bodies[i] == cells[i].body && Tiled(cells[..i + 1], cells[i].End())
    requires FilePos(cells[i]) + cells[i].alignedSize <= buf.Length
    requires Holds(buf[..], cells[..i], bodies[..i]) && SizesHold(buf[..], cells[..i])
    modifies buf
    ensures Holds(buf[..], cells[..i + 1], bodies[..i + 1]) && SizesHold(buf[..], cells[..i + 1])
  {
    var c := cells[i];
    ghost var before, held := cells[..i], bodies[..i];
    assert cells[..i + 1][..i] == before && bodies[..i + 1][..i] == held;
    var size := U32Bytes(Negated(c.alignedSize));
    SpliceAround(buf[..], before, c.offset, held, FilePos(c), size);
    SizesAround(buf[..], before, c.offset, FilePos(c), size);
    ghost var s0 := buf[..];
    WriteAt(buf, FilePos(c), size);
    SizeWritten(s0, c);
    SpliceAround(buf[..], before, c.offset, held, BodyPos(c), c.body);
    SizesAround(buf[..], before, c.offset, BodyPos(c), c.body);
    SizeElsewhere(buf[..], c, BodyPos(c), c.body);
    BodyWritten(buf[..], c);
    WriteAt(buf, BodyPos(c), c.body);
  }

  method WriteCells(buf: array<byte>, cells: seq<AllocatedCell>, ghost end: nat)
    requires Tiled(cells, end) && BASE_SIZE + HBIN_DATA + end <= buf.Length
    modifies buf
    ensures Holds(buf[..], cells, Bodies(cells)) && SizesHold(buf[..], cells)
  {
    ghost var bodies := Bodies(cells);
    for i := 0 to |cells|
      invariant Holds(buf[..], cells[..i], bodies[..i]) && SizesHold(buf[..], cells[..i])
    {
      TiledPrefix(cells, end, i + 1);
      WriteCell(buf, cells, bodies, i);
    }
    assert cells[..|cells|] == cells && bodies[..|cells|] == bodies;
  }

  lemma {:induction false} SizeWritten(s: Buf, c: AllocatedCell)
    requires FilePos(c) + 4 <= |s|
    ensures SizeHolds(Splice(s, FilePos(c), U32Bytes(Negated(c.alignedSize))), c)
  {
    Put32Read(s, FilePos(c), Negated(c.alignedSize));
  }

  lemma {:induction false} BodyWritten(s: Buf, c: AllocatedCell)
    requires FilePos(c) + c.alignedSize <= |s| && 4 + |c.body| <= c.alignedSize
    ensures CellHolds(Splice(s, BodyPos(c), c.body), c, c.body)
  {
    assert Splice(s, BodyPos(c), c.body)[BodyPos(c)..BodyPos(c) + |c.body|] == c.body;
  }
}
