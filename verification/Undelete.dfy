/** Free-then-carve: a cell of a built hive whose size is negated is no longer read, and carving reports the
    record in it (`winreg-carve/src/lib.rs` against `winreg-testutil/src/lib.rs`). */
module Undelete {
  import opened Wrappers
  import opened Bytes
  import opened Sequences
  import opened Cells
  import opened Header
  import opened Hives
  import opened Carve
  import opened CarveExact
  import opened Records
  import opened Allocation
  import opened Layouts
  import opened Images
  import opened Headers
  import opened Builder
  import opened BuiltCells

  /** The size field at `at` negated. */
  function Flipped(s: Buf, at: nat): (r: Buf)
    ensures |r| == |s|
  {
    if at + 4 <= |s| then Put32(s, at, Negated(U32At(s, at))) else s
  }

  // ----- the cells of a build and the free tail are the cell chain of its bin -----

  lemma {:induction false} TiledNext(cells: seq<AllocatedCell>, end: nat, i: nat)
    requires Tiled(cells, end) && i < |cells|
    ensures cells[i].End() == (if i + 1 < |cells| then cells[i + 1].offset else end)
    ensures cells[0].offset == 0
  {
    var n := |cells| - 1;
    if n > 0 {
      TiledNext(cells[..n], cells[n].offset, if i < n then i else 0);
    }
  }

  function StartOf(cells: seq<AllocatedCell>, end: nat, k: nat): nat {
    if k < |cells| then FilePos(cells[k]) else BASE_SIZE + HBIN_DATA + end
  }

  ghost predicate CellFollows(cells: seq<AllocatedCell>, end: nat, k: nat)
    requires k < |cells|
  {
    cells[k].alignedSize >= MIN_CELL_SIZE && StartOf(cells, end, k + 1) == FilePos(cells[k]) + cells[k].alignedSize
  }

  ghost predicate CellsFollow(cells: seq<AllocatedCell>, end: nat) {
    forall k: nat | k < |cells| :: CellFollows(cells, end, k)
  }

  function CellSpan(c: AllocatedCell, free: bool): Span {
    Span(FilePos(c), FilePos(c) + c.alignedSize, free)
  }

  function CellSpans(cells: seq<AllocatedCell>, k: nat, freed: nat): seq<Span>
    decreases |cells| - k
  {
    if k >= |cells| then [] else [CellSpan(cells[k], k == freed)] + CellSpans(cells, k + 1, freed)
  }

  function TailSpan(at: nat, binEnd: nat): seq<Span> {
    if at + 8 <= binEnd then [Span(at, binEnd, true)] else []
  }

  /** The size fields are those of the cells, and only cell `freed` is free. */
  ghost predicate SizesRead(s: Buf, cells: seq<AllocatedCell>, freed: nat) {
    forall i | 0 <= i < |cells| :: SizeRead(s, cells[i], i == freed)
  }

  ghost predicate SizeRead(s: Buf, c: AllocatedCell, free: bool) {
    && FilePos(c) + c.alignedSize <= |s| && c.alignedSize >= 4
    && HeaderAt(s, FilePos(c)).Size() == c.alignedSize && HeaderAt(s, FilePos(c)).IsAllocated() == !free
  }

  lemma {:induction false} TailIsSpan(s: Buf, end: nat)
    requires |s| == BASE_SIZE + Align4096(HBIN_DATA + end) && end % 8 == 0 && TailFree(s, end)
    ensures Spans(s, BASE_SIZE + HBIN_DATA + end, |s|) == TailSpan(BASE_SIZE + HBIN_DATA + end, |s|)
  {
    var at := BASE_SIZE + HBIN_DATA + end;
    if |s| - at >= 8 {
      assert HeaderAt(s, at).rawSize == |s| - at;
      assert Spans(s, |s|, |s|) == [];
    } else {
      assert |s| == at;
    }
  }

  lemma {:induction false} ChainStep(s: Buf, c: AllocatedCell, free: bool, next: nat, rest: seq<Span>)
    requires SizeRead(s, c, free) && c.alignedSize >= MIN_CELL_SIZE
    requires next == FilePos(c) + c.alignedSize && Spans(s, next, |s|) == rest
    ensures Spans(s, FilePos(c), |s|) == [CellSpan(c, free)] + rest
  {
  }

  lemma {:induction false} NextCell(cells: seq<AllocatedCell>, end: nat, k: nat)
    requires Tiled(cells, end) && k < |cells|
    ensures CellFollows(cells, end, k)
  {
    TiledCell(cells, end, k);
    TiledNext(cells, end, k);
  }

  /** Walking the chain from a cell of the build meets that cell and those after it. */
  lemma {:induction false} ChainOfCells(s: Buf, cells: seq<AllocatedCell>, end: nat, k: nat, freed: nat,
                                        tail: seq<Span>)
    requires SizesRead(s, cells, freed) && k <= |cells| && CellsFollow(cells, end)
    requires Spans(s, BASE_SIZE + HBIN_DATA + end, |s|) == tail
    ensures Spans(s, StartOf(cells, end, k), |s|) == CellSpans(cells, k, freed) + tail
    decreases |cells| - k
  {
    if k == |cells| {
      assert [] + tail == tail;
    } else {
      ChainOfCells(s, cells, end, k + 1, freed, tail);
      assert SizeRead(s, cells[k], k == freed) && CellFollows(cells, end, k);
      ChainStep(s, cells[k], k == freed, StartOf(cells, end, k + 1), CellSpans(cells, k + 1, freed) + tail);
      AppendAssociates([CellSpan(cells[k], k == freed)], CellSpans(cells, k + 1, freed), tail);
    }
  }

  lemma {:induction false} CellSpanIn(cells: seq<AllocatedCell>, k: nat, freed: nat, i: nat)
    requires k <= i < |cells|
    ensures CellSpan(cells[i], i == freed) in CellSpans(cells, k, freed)
    decreases i - k
  {
    if k < i {
      CellSpanIn(cells, k + 1, freed, i);
    }
  }

  // ----- a built hive, with or without a freed cell -----

  /** Every size fits the signed 32-bit size field. */
  ghost predicate SizesFit(h: BuiltHive) {
    forall i | 0 <= i < |h.layout.cells| :: h.layout.cells[i].alignedSize <= 0x7FFF_FFFF
  }

  lemma {:induction false} SizesAsBuilt(h: BuiltHive)
    requires h.Held() && SizesFit(h)
    ensures SizesRead(h.bytes, h.layout.cells, |h.layout.cells|)
  {
    var cells := h.layout.cells;
    forall i | 0 <= i < |cells| ensures SizeRead(h.bytes, cells[i], i == |cells|) {
      SizeAt(h.bytes, cells, i);
      HoldsAt(h.bytes, cells, h.bodies, i);
      TiledCell(cells, h.layout.end, i);
      SizeField(h.bytes, cells[i]);
    }
  }

  lemma {:induction false} FlippedSize(s: Buf, c: AllocatedCell)
    requires SizeRead(s, c, false) && c.alignedSize <= 0x7FFF_FFFF
    ensures SizeRead(Flipped(s, FilePos(c)), c, true)
  {
    Put32Read(s, FilePos(c), Negated(U32At(s, FilePos(c))));
    assert U32At(s, FilePos(c)) == 0x1_0000_0000 - c.alignedSize;
  }

  lemma {:induction false} OtherSize(s: Buf, c: AllocatedCell, at: nat, free: bool)
    requires SizeRead(s, c, free) && at + 4 <= |s| && (at + 4 <= FilePos(c) || FilePos(c) + 4 <= at)
    ensures SizeRead(Flipped(s, at), c, free)
  {
    Put32Elsewhere(s, at, Negated(U32At(s, at)), FilePos(c));
  }

  lemma {:induction false} SizesWhenFreed(s: Buf, cells: seq<AllocatedCell>, end: nat, id: nat)
    requires Tiled(cells, end) && SizesRead(s, cells, |cells|) && id < |cells| && cells[id].alignedSize <= 0x7FFF_FFFF
    ensures FilePos(cells[id]) + 4 <= |s| && SizesRead(Flipped(s, FilePos(cells[id])), cells, id)
  {
    assert SizeRead(s, cells[id], false);
    forall i | 0 <= i < |cells| ensures SizeRead(Flipped(s, FilePos(cells[id])), cells[i], i == id) {
      assert SizeRead(s, cells[i], false);
      if i < id {
        TiledApart(cells, end, i, id);
        OtherSize(s, cells[i], FilePos(cells[id]), false);
      } else if i == id {
        FlippedSize(s, cells[id]);
      } else {
        TiledApart(cells, end, id, i);
        OtherSize(s, cells[i], FilePos(cells[id]), false);
      }
    }
  }

  /** The whole file behind the base block as one bin. */
  function WholeBin(s: Buf): seq<HbinDescriptor> {
    if 0 <= |s| - BASE_SIZE < 0x1_0000_0000 then [HbinDescriptor(0, |s| - BASE_SIZE, BASE_SIZE)] else []
  }

  ghost predicate BinThere(s: Buf) {
    4096 <= |s| - BASE_SIZE < 0x1_0000_0000
  }

  /** Bytes that open as a hive of one bin. */
  ghost predicate OpensAsBin(s: Buf) {
    && 0 <= |s| - BASE_SIZE < 0x1_0000_0000
    && FromBytes(s).Ok? && FromBytes(s).value.data == s
    && FromBytes(s).value.bins == WholeBin(s)
  }

  /** The cell chain of that bin is the cells of the build, then the free tail. */
  ghost predicate ChainIs(s: Buf, l: Layout, freed: nat) {
    Spans(s, BASE_SIZE + HBIN_DATA, |s|) == CellSpans(l.cells, 0, freed) + TailSpan(BASE_SIZE + HBIN_DATA + l.end, |s|)
  }

  /** The header fields, as written. */
  ghost predicate Headed(s: Buf, root: u32) {
    && 0 <= |s| - BASE_SIZE < 0x1_0000_0000 && (|s| - BASE_SIZE) % 4096 == 0 && |s| > BASE_SIZE
    && BaseFields(s, root, |s| - BASE_SIZE) && ValidChecksum(s) && BinFields(s, |s| - BASE_SIZE)
  }

  lemma {:induction false} HeadedOpens(s: Buf, root: u32)
    requires Headed(s, root)
    ensures OpensAsBin(s)
  {
    Opens(s, root, |s| - BASE_SIZE);
  }

  lemma {:induction false} HeadersKept(s: Buf, r: Buf, root: u32)
    requires Headed(s, root) && KeepsRange(s, r, 0, BASE_SIZE + HBIN_DATA)
    ensures Headed(r, root)
  {
    RawSumFrame(s, r, SUMMED_WORDS);
  }

  lemma {:induction false} WholeChain(s: Buf, l: Layout, freed: nat)
    requires Tiled(l.cells, l.end) && |s| == BASE_SIZE + Align4096(HBIN_DATA + l.end) && TailFree(s, l.end)
             && SizesRead(s, l.cells, freed)
    ensures ChainIs(s, l, freed)
  {
    if l.cells != [] {
      TiledNext(l.cells, l.end, 0);
    }
    TiledEnd(l.cells, l.end);
    TailIsSpan(s, l.end);
    forall k: nat | k < |l.cells| ensures CellFollows(l.cells, l.end, k) {
      NextCell(l.cells, l.end, k);
    }
    ChainOfCells(s, l.cells, l.end, 0, freed, TailSpan(BASE_SIZE + HBIN_DATA + l.end, |s|));
  }

  lemma {:induction false} HeadedFrom(s: Buf, root: u32, size: nat)
    requires |s| == BASE_SIZE + size && AsU32(size) == size && size % 4096 == 0 && size >= 4096
    requires BaseFields(s, root, AsU32(size)) && ValidChecksum(s) && BinFields(s, AsU32(size))
    ensures Headed(s, root)
  {
  }

  lemma {:induction false} HeadedAsBuilt(h: BuiltHive)
    requires h.Held() && FileFinished(h.bytes, h.layout)
    ensures Headed(h.bytes, h.At(h.layout.rootId)) && TailFree(h.bytes, h.layout.end)
  {
    SizeAsWritten(|h.bytes| - BASE_SIZE, h.layout.end);
    HeadedFrom(h.bytes, h.At(h.layout.rootId), |h.bytes| - BASE_SIZE);
  }

  lemma {:induction false} ChainAsBuilt(h: BuiltHive)
    requires h.Held() && TailFree(h.bytes, h.layout.end) && SizesFit(h)
    ensures ChainIs(h.bytes, h.layout, |h.layout.cells|) && BinThere(h.bytes)
    ensures Fills(Spans(h.bytes, BASE_SIZE + HBIN_DATA, |h.bytes|), BASE_SIZE + HBIN_DATA, |h.bytes|)
  {
    SizesAsBuilt(h);
    SizeAsWritten(|h.bytes| - BASE_SIZE, h.layout.end);
    WholeChain(h.bytes, h.layout, |h.layout.cells|);
    BinFilled(h.bytes, h.layout, |h.layout.cells|);
  }

  // ----- the chain fills the bin -----

  /** One cell behind the other, from `lo` to `hi`. */
  ghost predicate Fills(spans: seq<Span>, lo: nat, hi: nat) {
    if spans == [] then lo == hi else spans[0].pos == lo && Fills(spans[1..], spans[0].end, hi)
  }

  lemma {:induction false} FillsAppend(a: seq<Span>, b: seq<Span>, lo: nat, mid: nat, hi: nat)
    requires Fills(a, lo, mid) && Fills(b, mid, hi)
    ensures Fills(a + b, lo, hi)
  {
    if a == [] {
      assert a + b == b;
    } else {
      FillsAppend(a[1..], b, a[0].end, mid, hi);
      assert (a + b)[1..] == a[1..] + b;
    }
  }

  lemma {:induction false} CellsFill(cells: seq<AllocatedCell>, end: nat, k: nat, freed: nat)
    requires k <= |cells| && CellsFollow(cells, end)
    ensures Fills(CellSpans(cells, k, freed), StartOf(cells, end, k), BASE_SIZE + HBIN_DATA + end)
    decreases |cells| - k
  {
    if k < |cells| {
      CellsFill(cells, end, k + 1, freed);
      assert CellFollows(cells, end, k);
      FillsAppend([CellSpan(cells[k], k == freed)], CellSpans(cells, k + 1, freed), FilePos(cells[k]),
                  StartOf(cells, end, k + 1),
                  BASE_SIZE + HBIN_DATA + end);
    }
  }

  lemma {:induction false} TailFills(size: nat, end: nat)
    requires size == BASE_SIZE + Align4096(HBIN_DATA + end) && end % 8 == 0
    ensures Fills(TailSpan(BASE_SIZE + HBIN_DATA + end, size), BASE_SIZE + HBIN_DATA + end, size)
  {
  }

  /** The cells of a build and at most one free cell behind them, one behind the other, up to the end of the bin. */
  lemma {:induction false} BinFilled(s: Buf, l: Layout, freed: nat)
    requires Tiled(l.cells, l.end) && |s| == BASE_SIZE + Align4096(HBIN_DATA + l.end) && ChainIs(s, l, freed)
    ensures Fills(Spans(s, BASE_SIZE + HBIN_DATA, |s|), BASE_SIZE + HBIN_DATA, |s|)
  {
    var at := BASE_SIZE + HBIN_DATA + l.end;
    forall k: nat | k < |l.cells| ensures CellFollows(l.cells, l.end, k) {
      NextCell(l.cells, l.end, k);
    }
    if l.cells != [] {
      TiledNext(l.cells, l.end, 0);
    }
    TiledEnd(l.cells, l.end);
    CellsFill(l.cells, l.end, 0, freed);
    TailFills(|s|, l.end);
    FillsAppend(CellSpans(l.cells, 0, freed), TailSpan(at, |s|), BASE_SIZE + HBIN_DATA, at, |s|);
  }

  lemma {:induction false} FlipInside(s: Buf, cells: seq<AllocatedCell>, end: nat, id: nat)
    requires Tiled(cells, end) && id < |cells| && BASE_SIZE + HBIN_DATA + end <= |s|
    ensures FilePos(cells[id]) + 4 <= |s|
    ensures KeepsRange(s, Flipped(s, FilePos(cells[id])), 0, BASE_SIZE + HBIN_DATA)
    ensures KeepsRange(s, Flipped(s, FilePos(cells[id])), BASE_SIZE + HBIN_DATA + end, |s|)
  {
    TiledCell(cells, end, id);
  }

  lemma {:induction false} TailStill(s: Buf, r: Buf, end: nat)
    requires TailFree(s, end) && KeepsRange(s, r, BASE_SIZE + HBIN_DATA + end, |s|)
    ensures TailFree(r, end)
  {
  }

  lemma {:induction false} FlippedOpens(s: Buf, l: Layout, root: u32, id: nat)
    requires Tiled(l.cells, l.end) && id < |l.cells| && BASE_SIZE + HBIN_DATA + l.end <= |s| && Headed(s, root)
    ensures FilePos(l.cells[id]) + 4 <= |s| && OpensAsBin(Flipped(s, FilePos(l.cells[id])))
  {
    FlipInside(s, l.cells, l.end, id);
    HeadersKept(s, Flipped(s, FilePos(l.cells[id])), root);
    HeadedOpens(Flipped(s, FilePos(l.cells[id])), root);
  }

  lemma {:induction false} FlippedChain(s: Buf, l: Layout, id: nat)
    requires Tiled(l.cells, l.end) && |s| == BASE_SIZE + Align4096(HBIN_DATA + l.end) && TailFree(s, l.end)
    requires SizesRead(s, l.cells, |l.cells|) && id < |l.cells| && l.cells[id].alignedSize <= 0x7FFF_FFFF
    ensures FilePos(l.cells[id]) + 4 <= |s| && ChainIs(Flipped(s, FilePos(l.cells[id])), l, id)
  {
    SizesWhenFreed(s, l.cells, l.end, id);
    FlipInside(s, l.cells, l.end, id);
    TailStill(s, Flipped(s, FilePos(l.cells[id])), l.end);
    WholeChain(Flipped(s, FilePos(l.cells[id])), l, id);
  }

  /** Freeing a cell leaves a hive that opens with the same bin. */
  lemma {:induction false} OpensWhenFreed(h: BuiltHive, id: nat)
    requires h.Held() && FileFinished(h.bytes, h.layout) && id < |h.layout.cells|
    ensures FilePos(h.layout.cells[id]) + 4 <= |h.bytes| && OpensAsBin(Flipped(h.bytes, FilePos(h.layout.cells[id])))
  {
    HeadedAsBuilt(h);
    FlippedOpens(h.bytes, h.layout, h.At(h.layout.rootId), id);
  }

  /** Its cell chain is as before, with that one cell free. */
  lemma {:induction false} ChainWhenFreed(h: BuiltHive, id: nat)
    requires h.Held() && TailFree(h.bytes, h.layout.end) && SizesFit(h) && id < |h.layout.cells|
    ensures FilePos(h.layout.cells[id]) + 4 <= |h.bytes|
            && ChainIs(Flipped(h.bytes, FilePos(h.layout.cells[id])), h.layout, id)
  {
    SizesAsBuilt(h);
    FlippedChain(h.bytes, h.layout, id);
  }

  // ----- what carving sees of a cell -----

  /** Where carving reports a free cell's own record. */
  function HeadOf(c: AllocatedCell): Hit {
    Hit(BodyPos(c), FilePos(c) + c.alignedSize, RecoverySource.UnallocatedCell)
  }

  /** The cells of the one bin. */
  lemma {:induction false} BinIsWhole(s: Buf)
    requires BinThere(s)
    ensures BinsTile(WholeBin(s), BASE_BLOCK_SIZE, |s|)
    ensures BinSpans(s, WholeBin(s)[0]) == Spans(s, BASE_SIZE + HBIN_DATA, |s|)
    ensures ScannedBin(WholeBin(s), 0, 0, |s|) && |WholeBin(s)| == 1
  {
  }

  lemma {:induction false} CellSeen(s: Buf, l: Layout, freed: nat, i: nat)
    requires BinThere(s) && ChainIs(s, l, freed) && i < |l.cells|
    ensures CellSpan(l.cells[i], i == freed) in BinSpans(s, WholeBin(s)[0])
  {
    BinIsWhole(s);
    CellSpanIn(l.cells, 0, freed, i);
  }

  /** A record is recognised only where its signature fits. */
  ghost predicate SignaturesFit(c: Carver) {
    forall x: Hit | c.record(x).Some? :: x.pos + 2 <= x.end
  }

  lemma {:induction false} HeadIsHit(c: Carver, bins: seq<HbinDescriptor>, lo: nat, cell: AllocatedCell)
    requires BinsTile(bins, lo, |c.data|) && |bins| == 1 && ScannedBin(bins, 0, 0, |c.data|) && SignaturesFit(c)
    requires CellSpan(cell, true) in BinSpans(c.data, bins[0])
    ensures HeadOf(cell) in HiveHits(c, bins, 0) <==> c.record(HeadOf(cell)).Some?
  {
    HitsExact(c, bins, lo);
    if c.record(HeadOf(cell)).Some? {
      assert HitIn(c, CellSpan(cell, true), HeadOf(cell));
      assert HitInBin(c, bins[0], HeadOf(cell));
    }
  }

  lemma {:induction false} HeadAlone(c: Carver, spans: seq<Span>, lo: nat, hi: nat, cell: AllocatedCell, span: Span,
                                     x: Hit)
    requires Chained(spans, lo, hi) && span in spans && CellSpan(cell, true) in spans
             && cell.alignedSize >= MIN_CELL_SIZE
    requires HitIn(c, span, x) && x.pos == BodyPos(cell)
    ensures x == HeadOf(cell)
  {
    OneCellPerPlace(spans, lo, hi, span, CellSpan(cell, true));
  }

  /** Nothing else is reported at that place. */
  lemma {:induction false} OnlyHeadThere(c: Carver, bins: seq<HbinDescriptor>, lo: nat, cell: AllocatedCell)
    requires BinsTile(bins, lo, |c.data|) && |bins| == 1 && cell.alignedSize >= MIN_CELL_SIZE
    requires CellSpan(cell, true) in BinSpans(c.data, bins[0])
    ensures forall x | x in HiveHits(c, bins, 0) && x.pos == BodyPos(cell) :: x == HeadOf(cell)
  {
    HitsExact(c, bins, lo);
    SpansChained(c.data, BinStart(bins[0]), BinEnd(bins[0], |c.data|));
    forall x | x in HiveHits(c, bins, 0) && x.pos == BodyPos(cell) ensures x == HeadOf(cell) {
      assert HitInBin(c, bins[0], x);
      var span :| span in BinSpans(c.data, bins[0]) && HitIn(c, span, x);
      HeadAlone(c, BinSpans(c.data, bins[0]), BinStart(bins[0]), BinEnd(bins[0], |c.data|), cell, span, x);
    }
  }

  /** No allocated cell's own record is reported. */
  lemma {:induction false} LiveHeadUnreported(c: Carver, l: Layout, freed: nat, i: nat)
    requires BinThere(c.data) && ChainIs(c.data, l, freed) && i < |l.cells| && i != freed
    ensures forall x | x in HiveHits(c, WholeBin(c.data), 0) :: x.pos != BodyPos(l.cells[i])
  {
    BinIsWhole(c.data);
    HitsExact(c, WholeBin(c.data), BASE_BLOCK_SIZE);
    CellSeen(c.data, l, freed, i);
    assert !CellSpan(l.cells[i], false).free;
  }

  // ----- the record in the freed cell -----

  lemma {:induction false} BodyStays(s: Buf, c: AllocatedCell, body: Buf)
    requires CellHolds(s, c, body)
    ensures CellHolds(Flipped(s, FilePos(c)), c, body)
  {
    var r := Flipped(s, FilePos(c));
    assert r[BodyPos(c)..BodyPos(c) + |body|] == s[BodyPos(c)..BodyPos(c) + |body|];
  }

  /** The stretch that the record of a cell may take. */
  predicate IsStretch(x: Hit, c: AllocatedCell) {
    x.pos == BodyPos(c) && x.end == FilePos(c) + c.alignedSize
  }

  lemma {:induction false} BodyStarts(s: Buf, c: AllocatedCell, body: Buf, x: Hit)
    requires CellHolds(s, c, body) && |body| >= 2 && IsStretch(x, c)
    ensures Starts(s, x.pos, x.end, body)
  {
    var e := s[x.pos + 2..x.end];
    assert s[BodyPos(c)..BodyPos(c) + |body|] == body;
    assert e[..|body| - 2] == body[2..];
  }

  /** A key node with its signature at `pos`, or a value. */
  ghost predicate NkHere(s: Buf, pos: nat, end: nat, nk: RawKeyNode) {
    && pos + 2 <= end <= |s| && s[pos] == 'n' as int && s[pos + 1] == 'k' as int
    && ParseKeyNode(s[pos + 2..end]) == Some(nk)
  }

  ghost predicate VkHere(s: Buf, pos: nat, end: nat, vk: RawKeyValue) {
    && pos + 2 <= end <= |s| && s[pos] == 'v' as int && s[pos + 1] == 'k' as int
    && ParseKeyValue(s[pos + 2..end]) == Some(vk)
  }

  /** The bytes from `pos` to `end` start with this body. */
  ghost predicate Starts(s: Buf, pos: nat, end: nat, body: Buf) {
    && 2 <= |body| && pos + 2 <= end <= |s| && s[pos] == body[0] && s[pos + 1] == body[1]
    && body[2..] <= s[pos + 2..end]
  }

  lemma {:induction false} NodeParsesHere(s: Buf, pos: nat, end: nat, body: Buf, nk: RawKeyNode)
    requires Starts(s, pos, end, body) && body[0] == 'n' as int && body[1] == 'k' as int
             && ParseKeyNode(body[2..]) == Some(nk)
    ensures NkHere(s, pos, end, nk)
  {
    KeyNodePadding(body[2..], s[pos + 2..end]);
  }

  lemma {:induction false} ValueParsesHere(s: Buf, pos: nat, end: nat, body: Buf, vk: RawKeyValue)
    requires Starts(s, pos, end, body) && body[0] == 'v' as int && body[1] == 'k' as int
             && ParseKeyValue(body[2..]) == Some(vk)
    ensures VkHere(s, pos, end, vk)
  {
    KeyValuePadding(body[2..], s[pos + 2..end]);
  }

  /** A recogniser that tries a record at this place. */
  ghost predicate Tries(record: Hit -> Option<RecoveredCell>, x: Hit, s: Buf, at: nat) {
    record(x) == TryRecord(s, x.pos, x.end, at, RecoverySource.UnallocatedCell)
  }

  lemma {:induction false} NodeRecognised(record: Hit -> Option<RecoveredCell>, x: Hit, s: Buf, at: nat, nk: RawKeyNode)
    requires NkHere(s, x.pos, x.end, nk) && Tries(record, x, s, at)
    ensures record(x) == KeyRecord(nk, at, RecoverySource.UnallocatedCell)
  {
    assert SignatureOf(s[x.pos], s[x.pos + 1]) == Some(KeyNode);
  }

  lemma {:induction false} ValueRecognised(record: Hit -> Option<RecoveredCell>, x: Hit, s: Buf, at: nat,
                                           vk: RawKeyValue)
    requires VkHere(s, x.pos, x.end, vk) && Tries(record, x, s, at)
    ensures record(x) == ValueRecord(vk, at, RecoverySource.UnallocatedCell)
  {
    assert SignatureOf(s[x.pos], s[x.pos + 1]) == Some(KeyValue);
  }

  // ----- what carving returns -----

  function Recovered(c: Carver, bins: seq<HbinDescriptor>): seq<RecoveredCell> {
    Carve.Records(c, Take(HiveHits(c, bins, 0), MAX_RECOVERIES))
  }

  /** `x` is preceded by `i` other hits, and unless the cap is reached it is reported as `rec`. */
  ghost predicate ReportedAt(c: Carver, bins: seq<HbinDescriptor>, x: Hit, i: nat, rec: RecoveredCell) {
    && i < |HiveHits(c, bins, 0)| && HiveHits(c, bins, 0)[i] == x
    && (i < MAX_RECOVERIES ==> i < |Recovered(c, bins)| && Recovered(c, bins)[i] == rec)
  }

  /** What becomes of the head of a freed cell, for the record that is recognised there, if any. */
  ghost predicate HeadCarved(c: Carver, bins: seq<HbinDescriptor>, cell: AllocatedCell, i: nat,
                             rec: Option<RecoveredCell>)
  {
    if rec.Some? then ReportedAt(c, bins, HeadOf(cell), i, rec.value)
    else forall x | x in HiveHits(c, bins, 0) :: x.pos != BodyPos(cell)
  }

  /** A hit that fewer than the cap precede is in the result, in its place. */
  lemma {:induction false} HitReported(c: Carver, bins: seq<HbinDescriptor>, lo: nat, x: Hit) returns (i: nat)
    requires BinsTile(bins, lo, |c.data|) && x in HiveHits(c, bins, 0)
    ensures c.record(x).Some? && ReportedAt(c, bins, x, i, c.record(x).value)
  {
    var hits := HiveHits(c, bins, 0);
    HitsExact(c, bins, lo);
    i :| 0 <= i < |hits| && hits[i] == x;
    if i < MAX_RECOVERIES {
      assert forall y | y in Take(hits, MAX_RECOVERIES) :: y in hits;
      RecordsAt(c, Take(hits, MAX_RECOVERIES), i);
    }
  }

  lemma {:induction false} CarveHead(c: Carver, bins: seq<HbinDescriptor>, lo: nat, cell: AllocatedCell,
                                     rec: Option<RecoveredCell>)
    returns (i: nat)
    requires BinsTile(bins, lo, |c.data|) && |bins| == 1 && ScannedBin(bins, 0, 0, |c.data|) && SignaturesFit(c)
    requires CellSpan(cell, true) in BinSpans(c.data, bins[0]) && cell.alignedSize >= MIN_CELL_SIZE
    requires c.record(HeadOf(cell)) == rec
    ensures HeadCarved(c, bins, cell, i, rec)
  {
    HeadIsHit(c, bins, lo, cell);
    i := 0;
    if rec.Some? {
      i := HitReported(c, bins, lo, HeadOf(cell));
    } else {
      OnlyHeadThere(c, bins, lo, cell);
    }
  }

  // ----- the record in the freed cell is carved -----

  /** What the theorems need of the recogniser: a free cell's head is tried, reported at the cell's offset. */
  ghost predicate CarvesLike(c: Carver) {
    SignaturesFit(c) && forall x: Hit, at: nat {:trigger HeadAt(x, at), Tries(c.record, x, c.data, at)} | HeadAt(x,
        at) :: Tries(c.record, x, c.data, at)
  }

  predicate HeadAt(x: Hit, at: nat) {
    x.pos == at + 4 && x.source == RecoverySource.UnallocatedCell
  }

  lemma {:induction false} FlatCarves(s: Buf)
    ensures CarvesLike(FlatCarver(s)) && FlatCarver(s).data == s
  {
  }

  lemma {:induction false} NodeTried(c: Carver, x: Hit, at: nat, nk: RawKeyNode)
    requires CarvesLike(c) && HeadAt(x, at) && NkHere(c.data, x.pos, x.end, nk)
    ensures c.record(x) == KeyRecord(nk, at, RecoverySource.UnallocatedCell)
  {
    assert Tries(c.record, x, c.data, at);
    NodeRecognised(c.record, x, c.data, at, nk);
  }

  lemma {:induction false} ValueTried(c: Carver, x: Hit, at: nat, vk: RawKeyValue)
    requires CarvesLike(c) && HeadAt(x, at) && VkHere(c.data, x.pos, x.end, vk)
    ensures c.record(x) == ValueRecord(vk, at, RecoverySource.UnallocatedCell)
  {
    assert Tries(c.record, x, c.data, at);
    ValueRecognised(c.record, x, c.data, at, vk);
  }

  lemma {:induction false} NodeThere(c: Carver, cell: AllocatedCell, body: Buf, x: Hit, at: nat, nk: RawKeyNode)
    requires CarvesLike(c) && HeadAt(x, at) && IsStretch(x, cell) && CellHolds(c.data, cell, body) && IsNode(body, nk)
    ensures c.record(x) == KeyRecord(nk, at, RecoverySource.UnallocatedCell)
  {
    BodyStarts(c.data, cell, body, x);
    NodeParses(body, nk);
    NodeParsesHere(c.data, x.pos, x.end, body, nk);
    NodeTried(c, x, at, nk);
  }

  lemma {:induction false} ValueThere(c: Carver, cell: AllocatedCell, body: Buf, x: Hit, at: nat, vk: RawKeyValue)
    requires CarvesLike(c) && HeadAt(x, at) && IsStretch(x, cell) && CellHolds(c.data, cell, body) && IsValue(body, vk)
    ensures c.record(x) == ValueRecord(vk, at, RecoverySource.UnallocatedCell)
  {
    BodyStarts(c.data, cell, body, x);
    ValueParses(body, vk);
    ValueParsesHere(c.data, x.pos, x.end, body, vk);
    ValueTried(c, x, at, vk);
  }

  /** A file whose one bin holds the cells of the build, cell `id` of them free. */
  ghost predicate Freed(s: Buf, h: BuiltHive, id: nat) {
    && id < |h.layout.cells| && id < |h.bodies| && h.layout.cells[id].alignedSize >= MIN_CELL_SIZE
    && BinThere(s) && ChainIs(s, h.layout, id) && CellHolds(s, h.layout.cells[id], h.bodies[id])
  }

  lemma {:induction false} CellStays(h: BuiltHive, id: nat)
    requires h.Held() && id < |h.layout.cells|
    ensures id < |h.bodies| && CellHolds(Flipped(h.bytes, FilePos(h.layout.cells[id])), h.layout.cells[id],
                                         h.bodies[id])
    ensures h.layout.cells[id].alignedSize >= MIN_CELL_SIZE && BinThere(h.bytes)
  {
    HoldsAt(h.bytes, h.layout.cells, h.bodies, id);
    BodyStays(h.bytes, h.layout.cells[id], h.bodies[id]);
    NextCell(h.layout.cells, h.layout.end, id);
    SizeAsWritten(|h.bytes| - BASE_SIZE, h.layout.end);
  }

  lemma {:induction false} FlippedIsFreed(h: BuiltHive, id: nat)
    requires h.Held() && TailFree(h.bytes, h.layout.end) && SizesFit(h) && id < |h.layout.cells|
    ensures Freed(Flipped(h.bytes, FilePos(h.layout.cells[id])), h, id)
  {
    CellStays(h, id);
    ChainWhenFreed(h, id);
  }

  /** However the file around it looks, this record is what is recognised at the head of the cell. */
  ghost predicate HoldsRecord(cell: AllocatedCell, body: Buf, rec: Option<RecoveredCell>) {
    forall c: Carver {:trigger CellHolds(c.data, cell, body)} | CarvesLike(c) && CellHolds(c.data, cell, body) ::
      c.record(HeadOf(cell)) == rec
  }

  lemma {:induction false} NodeHolds(cell: AllocatedCell, at: nat, body: Buf, nk: RawKeyNode,
                                     rec: Option<RecoveredCell>)
    requires IsNode(body, nk) && at == FilePos(cell) && rec == KeyRecord(nk, at, RecoverySource.UnallocatedCell)
    ensures HoldsRecord(cell, body, rec)
  {
    forall c: Carver | CarvesLike(c) && CellHolds(c.data, cell, body) ensures c.record(HeadOf(cell)) == rec {
      NodeThere(c, cell, body, HeadOf(cell), at, nk);
    }
  }

  lemma {:induction false} ValueHolds(cell: AllocatedCell, at: nat, body: Buf, vk: RawKeyValue,
                                      rec: Option<RecoveredCell>)
    requires IsValue(body, vk) && at == FilePos(cell) && rec == ValueRecord(vk, at, RecoverySource.UnallocatedCell)
    ensures HoldsRecord(cell, body, rec)
  {
    forall c: Carver | CarvesLike(c) && CellHolds(c.data, cell, body) ensures c.record(HeadOf(cell)) == rec {
      ValueThere(c, cell, body, HeadOf(cell), at, vk);
    }
  }

  /** Carving a file in which the cell is free. */
  lemma {:induction false} FreedCarved(c: Carver, h: BuiltHive, id: nat, rec: Option<RecoveredCell>) returns (i: nat)
    requires CarvesLike(c) && Freed(c.data, h, id) && HoldsRecord(h.layout.cells[id], h.bodies[id], rec)
    ensures HeadCarved(c, WholeBin(c.data), h.layout.cells[id], i, rec)
  {
    CellSeen(c.data, h.layout, id, id);
    BinIsWhole(c.data);
    i := CarveHead(c, WholeBin(c.data), BASE_BLOCK_SIZE, h.layout.cells[id], rec);
  }
}
