/** Carving, told by the bytes of the hive: which positions are looked at, and what is reported
    (`winreg-carve/src/lib.rs`). */
module CarvedBytes {
  import opened Wrappers
  import opened Bytes
  import opened Sequences
  import opened Header
  import opened Hives
  import opened Carve
  import opened CarveExact
  import opened CarvedRecords

  // ----- the cells of a bin -----

  /** The number in a size field, whatever its sign. */
  function SizeField(data: Buf, pos: nat): nat
    requires pos + 4 <= |data|
  {
    if U32At(data, pos) < 0x8000_0000 then U32At(data, pos) else 0x1_0000_0000 - U32At(data, pos)
  }

  /** Cells one behind the other from `start` on, each as long as its size field says, and at least 8 bytes. */
  ghost predicate Chain(data: Buf, start: nat, end: nat, cells: seq<nat>)
    requires end <= |data|
  {
    && cells != [] && cells[0] == start
    && (forall i | 0 <= i < |cells| :: cells[i] + 4 <= end && SizeField(data, cells[i]) >= 8)
    && forall i | 0 < i < |cells| :: cells[i] == cells[i - 1] + SizeField(data, cells[i - 1])
  }

  ghost predicate IsCell(data: Buf, start: nat, end: nat, pos: nat)
    requires end <= |data|
  {
    exists cells :: Chain(data, start, end, cells) && cells[|cells| - 1] == pos
  }

  lemma ChainTail(data: Buf, start: nat, end: nat, cells: seq<nat>)
    requires end <= |data| && Chain(data, start, end, cells) && |cells| > 1
    ensures SizeField(data, start) >= 8 && Chain(data, start + SizeField(data, start), end, cells[1..])
  {
    assert cells[1] == cells[0] + SizeField(data, cells[0]);
  }

  lemma ChainFront(data: Buf, start: nat, end: nat, cells: seq<nat>)
    requires end <= |data| && start + 4 <= end && SizeField(data, start) >= 8
    requires Chain(data, start + SizeField(data, start), end, cells)
    ensures Chain(data, start, end, [start] + cells)
  {
  }

  lemma ChainHead(data: Buf, start: nat, end: nat, pos: nat)
    requires end <= |data| && start + 4 <= end && SizeField(data, start) >= 8
    ensures IsCell(data, start, end, pos) <==> pos == start || IsCell(data, start + SizeField(data, start), end, pos)
  {
    assert Chain(data, start, end, [start]);
    if cells :| Chain(data, start, end, cells) && cells[|cells| - 1] == pos {
      if |cells| > 1 {
        ChainTail(data, start, end, cells);
      }
    }
    if cells :| Chain(data, start + SizeField(data, start), end, cells) && cells[|cells| - 1] == pos {
      ChainFront(data, start, end, cells);
    }
  }

  lemma NoChain(data: Buf, start: nat, end: nat, pos: nat)
    requires end <= |data| && (start + 4 > end || SizeField(data, start) < 8)
    ensures !IsCell(data, start, end, pos)
  {
  }

  /** The cell at `pos`, as far as it lies in the bin; a clear sign bit means that it is free. */
  function CellSpanAt(data: Buf, pos: nat, end: nat): Span
    requires pos + 4 <= |data|
  {
    Span(pos, if pos + SizeField(data, pos) < end then pos + SizeField(data, pos) else end,
         U32At(data, pos) < 0x8000_0000)
  }

  lemma SpanHere(data: Buf, pos: nat, end: nat)
    requires pos + 4 <= |data|
    ensures SpanAt(data, pos, end) == CellSpanAt(data, pos, end)
    ensures HeaderAt(data, pos).Size() == SizeField(data, pos)
  {
  }

  ghost predicate CellIn(data: Buf, start: nat, end: nat, s: Span)
    requires end <= |data|
  {
    IsCell(data, start, end, s.pos) && s.pos + 4 <= end && s == CellSpanAt(data, s.pos, end)
  }

  /** The walk along the size fields meets exactly these cells. */
  lemma {:induction false} SpansExact(data: Buf, start: nat, end: nat, s: Span)
    requires end <= |data|
    ensures s in Spans(data, start, end) <==> CellIn(data, start, end, s)
    decreases end - start
  {
    if start + 4 <= end {
      SpanHere(data, start, end);
    }
    if start + 4 > end || SizeField(data, start) < 8 {
      NoChain(data, start, end, s.pos);
    } else {
      SpansExact(data, start + SizeField(data, start), end, s);
      ChainHead(data, start, end, s.pos);
    }
  }

  // ----- the positions that are looked at -----

  /** In a free cell every position behind the size field, in an allocated one every position behind the signature too.
      A record right at the head of a free cell is one of an unallocated cell; any other is slack. */
  ghost predicate LookedAt(data: Buf, cell: nat, end: nat, x: Hit)
    requires cell + 4 <= |data|
  {
    var free := U32At(data, cell) < 0x8000_0000;
    && (if free then cell + 4 else cell + 6) <= x.pos && x.pos + 2 <= x.end
    && x.end == (if cell + SizeField(data, cell) < end then cell + SizeField(data, cell) else end)
    && x.source == if free && x.pos == cell + 4 then RecoverySource.UnallocatedCell else Slack
  }

  /** Where the bin's cells end. */
  function CellsEnd(bin: HbinDescriptor, dataLen: nat): nat {
    if bin.fileOffset + bin.size < dataLen then bin.fileOffset + bin.size else dataLen
  }

  ghost predicate LookedAtIn(data: Buf, bin: HbinDescriptor, x: Hit) {
    exists cell :: LookedAtCell(data, bin, cell, x)
  }

  ghost predicate LookedAtCell(data: Buf, bin: HbinDescriptor, cell: nat, x: Hit) {
    && IsCell(data, bin.fileOffset + 32, CellsEnd(bin, |data|), cell) && cell + 4 <= CellsEnd(bin, |data|)
    && LookedAt(data, cell, CellsEnd(bin, |data|), x)
  }

  /** A recognised position of a cell of a scanned bin. */
  ghost predicate IsFound(data: Buf, bins: seq<HbinDescriptor>, x: Hit) {
    && (exists n: nat :: ScannedBin(bins, n, 0, |data|) && LookedAtIn(data, bins[n], x))
    && exists rec :: Reports(data, x, rec)
  }

  lemma HitLooksAt(c: Carver, s: Span, cell: nat, end: nat, x: Hit)
    requires cell + 4 <= |c.data| && s == CellSpanAt(c.data, cell, end)
    ensures HitIn(c, s, x) <==> LookedAt(c.data, cell, end, x) && c.record(x).Some?
  {
  }

  lemma BinLooksAt(c: Carver, bin: HbinDescriptor, x: Hit)
    ensures HitInBin(c, bin, x) <==> LookedAtIn(c.data, bin, x) && c.record(x).Some?
  {
    var start, end := bin.fileOffset + 32, CellsEnd(bin, |c.data|);
    if HitInBin(c, bin, x) {
      var s :| s in BinSpans(c.data, bin) && HitIn(c, s, x);
      SpansExact(c.data, start, end, s);
      HitLooksAt(c, s, s.pos, end, x);
      assert LookedAtCell(c.data, bin, s.pos, x);
    }
    if LookedAtIn(c.data, bin, x) && c.record(x).Some? {
      var cell :| LookedAtCell(c.data, bin, cell, x);
      var s := CellSpanAt(c.data, cell, end);
      SpansExact(c.data, start, end, s);
      HitLooksAt(c, s, cell, end, x);
    }
  }

  lemma RecognisedBy(data: Buf, x: Hit)
    ensures FlatCarver(data).record(x).Some? <==> exists rec :: Reports(data, x, rec)
  {
    if FlatCarver(data).record(x).Some? {
      RecordExact(data, x, FlatCarver(data).record(x).value);
    }
    if rec :| Reports(data, x, rec) {
      RecordExact(data, x, rec);
    }
  }

  lemma FoundExact(data: Buf, bins: seq<HbinDescriptor>, x: Hit)
    ensures HitInHive(FlatCarver(data), bins, 0, x) <==> IsFound(data, bins, x)
  {
    var c := FlatCarver(data);
    RecognisedBy(data, x);
    forall n: nat | ScannedBin(bins, n, 0, |data|)
      ensures HitInBin(c, bins[n], x) <==> LookedAtIn(data, bins[n], x) && c.record(x).Some?
    {
      BinLooksAt(c, bins[n], x);
    }
  }

  // ----- the result -----

  /** The recognised positions in increasing order, each reported as its bytes say, up to 100,000 of them. */
  ghost predicate CarvedFrom(data: Buf, bins: seq<HbinDescriptor>, hits: seq<Hit>, out: seq<RecoveredCell>) {
    && (forall i, j | 0 <= i < j < |hits| :: hits[i].pos < hits[j].pos)
    && (forall x: Hit :: x in hits <==> IsFound(data, bins, x))
    && |out| == (if |hits| < 100_000 then |hits| else 100_000)
    && forall i | 0 <= i < |out| :: Reports(data, hits[i], out[i])
  }

  lemma FlatCarverReports(data: Buf)
    ensures ReportsOffsets(FlatCarver(data))
  {
  }

  lemma OutIs(data: Buf, hits: seq<Hit>, out: seq<RecoveredCell>)
    requires forall x | x in hits :: FlatCarver(data).record(x).Some?
    requires out == Records(FlatCarver(data), Take(hits, MAX_RECOVERIES))
    ensures |out| == (if |hits| < 100_000 then |hits| else 100_000)
    ensures forall i | 0 <= i < |out| :: Reports(data, hits[i], out[i])
  {
    var taken := Take(hits, MAX_RECOVERIES);
    assert forall x | x in taken :: x in hits;
    if taken == [] {
      assert out == [];
    } else {
      RecordsAt(FlatCarver(data), taken, 0);
    }
    forall i | 0 <= i < |out| ensures Reports(data, hits[i], out[i]) {
      RecordsAt(FlatCarver(data), taken, i);
      RecordExact(data, hits[i], out[i]);
    }
  }

  /** What carving does to any bytes that open as a hive. */
  lemma CarvingExact(h: Hive) returns (hits: seq<Hit>)
    requires FromBytes(h.data) == Ok(h)
    ensures hits == HiveHits(FlatCarver(h.data), h.bins, 0) && ReportsOffsets(FlatCarver(h.data))
    ensures CarvedFrom(h.data, h.bins, hits, Records(FlatCarver(h.data), Take(hits, MAX_RECOVERIES)))
  {
    var c := FlatCarver(h.data);
    hits := HiveHits(c, h.bins, 0);
    FlatCarverReports(h.data);
    HitsExact(c, h.bins, BASE_BLOCK_SIZE);
    forall x: Hit ensures x in hits <==> IsFound(h.data, h.bins, x) {
      FoundExact(h.data, h.bins, x);
    }
    OutIs(h.data, hits, Records(c, Take(hits, MAX_RECOVERIES)));
  }

  /** Carving a hive. */
  method RecoverDeleted(h: Hive) returns (out: seq<RecoveredCell>)
    ensures out == Records(FlatCarver(h.data), Take(HiveHits(FlatCarver(h.data), h.bins, 0), MAX_RECOVERIES))
    ensures FromBytes(h.data) == Ok(h) ==> exists hits :: CarvedFrom(h.data, h.bins, hits, out)
  {
    FlatCarverSound(h.data);
    out := RecoverWith(FlatCarver(h.data), h.bins);
    if FromBytes(h.data) == Ok(h) {
      ghost var hits := CarvingExact(h);
    }
  }
}
