/** What carving finds, stated without reference to the order of the scans. */
module CarveExact {
  import opened Wrappers
  import opened Bytes
  import opened Sequences
  import opened Hives
  import opened Carve

  ghost predicate Increasing(hits: seq<Hit>) {
    forall i, j | 0 <= i < j < |hits| :: hits[i].pos < hits[j].pos
  }

  ghost predicate Within(hits: seq<Hit>, lo: nat, hi: nat) {
    forall h | h in hits :: lo <= h.pos < hi
  }

  lemma IncreasingJoin(a: seq<Hit>, b: seq<Hit>, lo: nat, mid: nat, hi: nat)
    requires Increasing(a) && Increasing(b) && Within(a, lo, mid) && Within(b, mid, hi) && lo <= mid <= hi
    ensures Increasing(a + b) && Within(a + b, lo, hi)
  {
    IncreasingConcat(a, b, mid);
  }

  lemma IncreasingConcat(a: seq<Hit>, b: seq<Hit>, mid: nat)
    requires Increasing(a) && Increasing(b)
    requires (forall h | h in a :: h.pos < mid) && (forall h | h in b :: mid <= h.pos)
    ensures Increasing(a + b)
  {
    var c := a + b;
    forall i, j | 0 <= i < j < |c| ensures c[i].pos < c[j].pos {
      if i < |a| <= j {
        assert c[i] in a && c[j] in b;
      }
    }
  }

  // ----- one cell -----

  /** A record of this cell: its signature lies where the cell may be looked at, it ends with the cell,
      and it is recognised there. */
  ghost predicate HitIn(c: Carver, span: Span, h: Hit) {
    && span.First() <= h.pos && h.pos + 2 <= span.end
    && h.end == span.end && h.source == span.SourceAt(h.pos)
    && c.record(h).Some?
  }

  lemma {:induction false} HitsFromExact(c: Carver, span: Span, q: nat)
    requires q >= span.First()
    ensures forall h: Hit :: h in HitsFrom(c, span, q) <==> HitIn(c, span, h) && q <= h.pos
    ensures Increasing(HitsFrom(c, span, q)) && Within(HitsFrom(c, span, q), q, if q < span.end then span.end else q)
    decreases span.end - q
  {
    if q + 2 <= span.end {
      HitsFromExact(c, span, q + 1);
      IncreasingJoin(HitHere(c, span, q), HitsFrom(c, span, q + 1), q, q + 1, span.end);
    }
  }

  // ----- one bin -----

  /** The cells of a chain lie one after another inside the bin. */
  ghost predicate Chained(spans: seq<Span>, lo: nat, hi: nat) {
    && (forall s | s in spans :: lo <= s.pos && s.pos + 4 <= s.end <= hi)
    && (forall i, j | 0 <= i < j < |spans| :: spans[i].end <= spans[j].pos)
  }

  lemma {:induction false} SpansChained(data: Buf, pos: nat, end: nat)
    requires end <= |data|
    ensures Chained(Spans(data, pos, end), pos, end)
    decreases end - pos
  {
    if pos + 4 <= end && HeaderAt(data, pos).Size() >= MIN_CELL_SIZE {
      SpansChained(data, pos + HeaderAt(data, pos).Size(), end);
    }
  }

  lemma {:induction false} SpanHitsExact(c: Carver, spans: seq<Span>, lo: nat, hi: nat)
    requires Chained(spans, lo, hi) && lo <= hi
    ensures forall h: Hit :: h in SpanHits(c, spans) <==> exists s | s in spans :: HitIn(c, s, h)
    ensures Increasing(SpanHits(c, spans)) && Within(SpanHits(c, spans), lo, hi)
  {
    if spans != [] {
      var first, rest := spans[0], spans[1..];
      assert first in spans;
      forall s | s in rest ensures s in spans && first.end <= s.pos {
        var i :| 0 <= i < |rest| && rest[i] == s;
        assert spans[i + 1] == s;
      }
      SpanHitsExact(c, rest, first.end, hi);
      HitsFromExact(c, first, first.First());
      CellWithin(c, first, lo);
      IncreasingJoin(CellHits(c, first), SpanHits(c, rest), lo, first.end, hi);
      forall h: Hit ensures h in SpanHits(c, spans) <==> exists s | s in spans :: HitIn(c, s, h) {
        assert forall s :: s in spans <==> s == first || s in rest;
      }
    }
  }

  lemma CellWithin(c: Carver, span: Span, lo: nat)
    requires lo <= span.pos
    ensures Within(CellHits(c, span), lo, if lo < span.end then span.end else lo)
  {
    HitsFromExact(c, span, span.First());
    forall h | h in CellHits(c, span) ensures lo <= h.pos < span.end {
      assert HitIn(c, span, h);
    }
  }

  // ----- the hive -----

  function BinSpans(data: Buf, bin: HbinDescriptor): seq<Span> {
    Spans(data, BinStart(bin), BinEnd(bin, |data|))
  }

  /** How many bytes lie behind the bin's header, as far as the data go. */
  function Room(bin: HbinDescriptor, dataLen: nat): nat {
    var end := if bin.fileOffset + bin.size < dataLen then bin.fileOffset + bin.size else dataLen;
    if bin.fileOffset + 32 < end then end - (bin.fileOffset + 32) else 0
  }

  /** The bytes of cells in the first `n` bins; a bin is scanned while this stays below 512 MiB. */
  function BytesBefore(bins: seq<HbinDescriptor>, n: nat, dataLen: nat): nat
    requires n <= |bins|
  {
    if n == 0 then 0 else Room(bins[0], dataLen) + BytesBefore(bins[1..], n - 1, dataLen)
  }

  ghost predicate ScannedBin(bins: seq<HbinDescriptor>, n: nat, scanned: nat, dataLen: nat) {
    n < |bins| && scanned + BytesBefore(bins, n, dataLen) < 536_870_912
  }

  ghost predicate HitInBin(c: Carver, bin: HbinDescriptor, h: Hit) {
    exists s | s in BinSpans(c.data, bin) :: HitIn(c, s, h)
  }

  /** `h` lies in a cell of a scanned bin and is recognised there. */
  ghost predicate HitInHive(c: Carver, bins: seq<HbinDescriptor>, scanned: nat, h: Hit) {
    exists n: nat | ScannedBin(bins, n, scanned, |c.data|) :: HitInBin(c, bins[n], h)
  }

  lemma HitInFirstOrRest(c: Carver, bins: seq<HbinDescriptor>, scanned: nat, h: Hit)
    requires bins != [] && scanned < MAX_SCAN_BYTES
    ensures HitInHive(c, bins, scanned, h) <==>
            HitInBin(c, bins[0], h) || HitInHive(c, bins[1..], scanned + BinBytes(bins[0], |c.data|), h)
  {
    var rest, scanned1, dataLen := bins[1..], scanned + BinBytes(bins[0], |c.data|), |c.data|;
    if HitInBin(c, bins[0], h) {
      assert ScannedBin(bins, 0, scanned, dataLen);
    }
    if n: nat :| ScannedBin(rest, n, scanned1, dataLen) && HitInBin(c, rest[n], h) {
      assert ScannedBin(bins, n + 1, scanned, dataLen) && HitInBin(c, bins[n + 1], h);
    }
    if n: nat :| ScannedBin(bins, n, scanned, dataLen) && HitInBin(c, bins[n], h) {
      if n > 0 {
        assert ScannedBin(rest, n - 1, scanned1, dataLen) && HitInBin(c, rest[n - 1], h);
      }
    }
  }

  lemma {:induction false} HiveHitsAre(c: Carver, bins: seq<HbinDescriptor>, scanned: nat, lo: nat, h: Hit)
    requires BinsTile(bins, lo, |c.data|)
    ensures h in HiveHits(c, bins, scanned) <==> HitInHive(c, bins, scanned, h)
    decreases |bins|
  {
    if bins != [] && scanned < MAX_SCAN_BYTES {
      HiveHitsAre(c, bins[1..], scanned + BinBytes(bins[0], |c.data|), bins[0].fileOffset + bins[0].size, h);
      BinHitsExact(c, bins[0]);
      HitInFirstOrRest(c, bins, scanned, h);
    } else {
      NothingScanned(bins, scanned, |c.data|);
    }
  }

  lemma {:induction false} HiveHitsOrdered(c: Carver, bins: seq<HbinDescriptor>, scanned: nat, lo: nat)
    requires BinsTile(bins, lo, |c.data|)
    ensures Increasing(HiveHits(c, bins, scanned)) && forall h | h in HiveHits(c, bins, scanned) :: lo <= h.pos
    decreases |bins|
  {
    if bins != [] && scanned < MAX_SCAN_BYTES {
      var first, scanned1 := bins[0], scanned + BinBytes(bins[0], |c.data|);
      var lo1 := first.fileOffset + first.size;
      HiveHitsOrdered(c, bins[1..], scanned1, lo1);
      BinHitsExact(c, first);
      IncreasingConcat(BinHits(c, BinStart(first), BinEnd(first, |c.data|)), HiveHits(c, bins[1..], scanned1), lo1);
    }
  }

  lemma HiveHitsExact(c: Carver, bins: seq<HbinDescriptor>, scanned: nat, lo: nat)
    requires BinsTile(bins, lo, |c.data|)
    ensures forall h: Hit :: h in HiveHits(c, bins, scanned) <==> HitInHive(c, bins, scanned, h)
    ensures Increasing(HiveHits(c, bins, scanned)) && forall h | h in HiveHits(c, bins, scanned) :: lo <= h.pos
  {
    HiveHitsOrdered(c, bins, scanned, lo);
    forall h: Hit ensures h in HiveHits(c, bins, scanned) <==> HitInHive(c, bins, scanned, h) {
      HiveHitsAre(c, bins, scanned, lo, h);
    }
  }

  lemma NothingScanned(bins: seq<HbinDescriptor>, scanned: nat, dataLen: nat)
    requires bins == [] || scanned >= MAX_SCAN_BYTES
    ensures forall n: nat :: !ScannedBin(bins, n, scanned, dataLen)
  {
  }

  lemma BinHitsExact(c: Carver, bin: HbinDescriptor)
    requires bin.fileOffset + 32 <= |c.data|
    ensures var hits := BinHits(c, BinStart(bin), BinEnd(bin, |c.data|));
            && Increasing(hits)
            && (forall h: Hit :: h in hits <==> HitInBin(c, bin, h))
            && (forall h | h in hits :: bin.fileOffset <= h.pos < bin.fileOffset + bin.size)
  {
    var start, end := BinStart(bin), BinEnd(bin, |c.data|);
    SpansChained(c.data, start, end);
    if start <= end {
      SpanHitsExact(c, Spans(c.data, start, end), start, end);
    }
  }

  // ----- the results -----

  lemma {:induction false} RecordsAt(c: Carver, hits: seq<Hit>, i: nat)
    requires i < |hits| && forall h | h in hits :: c.record(h).Some?
    ensures |Records(c, hits)| == |hits| && Records(c, hits)[i] == c.record(hits[i]).value
  {
    assert hits[0] in hits && forall h | h in hits[1..] :: h in hits;
    if |hits| > 1 {
      RecordsAt(c, hits[1..], if i > 0 then i - 1 else 0);
    }
  }

  /** The hits are precisely the recognised positions of the cells of the scanned bins, in increasing
      order; no hit lies at the head of an allocated cell of any bin. */
  lemma HitsExact(c: Carver, bins: seq<HbinDescriptor>, lo: nat)
    requires BinsTile(bins, lo, |c.data|)
    ensures var hits := HiveHits(c, bins, 0);
            && Increasing(hits)
            && (forall x: Hit :: x in hits <==> HitInHive(c, bins, 0, x))
            && (forall x, n, live | x in hits && 0 <= n < |bins| && live in BinSpans(c.data, bins[n]) && !live.free ::
                  x.pos != live.pos + 4)
            && (forall x | x in hits :: c.record(x).Some? && lo <= x.pos < x.end <= |c.data|)
  {
    HiveHitsExact(c, bins, 0, lo);
    forall x | x in HiveHits(c, bins, 0)
      ensures c.record(x).Some? && lo <= x.pos < x.end <= |c.data|
      ensures forall n, live | 0 <= n < |bins| && live in BinSpans(c.data, bins[n]) && !live.free ::
                x.pos != live.pos + 4
    {
      var m: nat :| ScannedBin(bins, m, 0, |c.data|) && HitInBin(c, bins[m], x);
      var s :| s in BinSpans(c.data, bins[m]) && HitIn(c, s, x);
      SpansChained(c.data, BinStart(bins[m]), BinEnd(bins[m], |c.data|));
      forall n, live | 0 <= n < |bins| && live in BinSpans(c.data, bins[n]) && !live.free
        ensures x.pos != live.pos + 4
      {
        LiveHeadMissed(c, bins, lo, m, s, x, n, live);
      }
    }
  }

  lemma LiveHeadMissed(c: Carver, bins: seq<HbinDescriptor>, lo: nat, m: nat, s: Span, x: Hit, n: nat, live: Span)
    requires BinsTile(bins, lo, |c.data|) && m < |bins| && n < |bins|
    requires s in BinSpans(c.data, bins[m]) && HitIn(c, s, x)
    requires live in BinSpans(c.data, bins[n]) && !live.free
    ensures x.pos != live.pos + 4
  {
    SpansChained(c.data, BinStart(bins[m]), BinEnd(bins[m], |c.data|));
    SpansChained(c.data, BinStart(bins[n]), BinEnd(bins[n], |c.data|));
    if n == m {
      OneCellPerPlace(BinSpans(c.data, bins[n]), BinStart(bins[n]), BinEnd(bins[n], |c.data|), s, live);
    } else {
      assert n < m ==> bins[n].fileOffset + bins[n].size <= bins[m].fileOffset;
      assert m < n ==> bins[m].fileOffset + bins[m].size <= bins[n].fileOffset;
    }
  }

  lemma OneCellPerPlace(spans: seq<Span>, lo: nat, hi: nat, a: Span, b: Span)
    requires Chained(spans, lo, hi) && a in spans && b in spans
    ensures a == b || a.end <= b.pos || b.end <= a.pos
  {
    var i :| 0 <= i < |spans| && spans[i] == a;
    var j :| 0 <= j < |spans| && spans[j] == b;
    assert i < j ==> a.end <= b.pos;
    assert j < i ==> b.end <= a.pos;
  }

  /** The file offset reported for a hit is that of the size field in front of its signature. */
  ghost predicate ReportsOffsets(c: Carver) {
    forall x: Hit | x.pos >= 4 && c.record(x).Some? :: c.record(x).value.fileOffset == Saturate(x.pos - 4)
  }

  lemma {:induction false} ReportedOffset(c: Carver, bins: seq<HbinDescriptor>, lo: nat, i: nat)
    requires BinsTile(bins, lo, |c.data|) && ReportsOffsets(c) && 4 <= lo
    requires i < |Take(HiveHits(c, bins, 0), MAX_RECOVERIES)|
    ensures var out := Records(c, Take(HiveHits(c, bins, 0), MAX_RECOVERIES));
            && lo <= HiveHits(c, bins, 0)[i].pos < |c.data|
            && i < |out| && out[i].fileOffset == Saturate(HiveHits(c, bins, 0)[i].pos - 4)
  {
    var all := HiveHits(c, bins, 0);
    var hits := Take(all, MAX_RECOVERIES);
    HitsExact(c, bins, lo);
    assert forall x | x in hits :: x in all;
    RecordsAt(c, hits, i);
    assert hits[i] in all && hits[i] == all[i];
  }

  lemma {:induction false} HitsInOrder(c: Carver, bins: seq<HbinDescriptor>, lo: nat, i: nat, j: nat)
    requires BinsTile(bins, lo, |c.data|) && i < j < |HiveHits(c, bins, 0)|
    ensures HiveHits(c, bins, 0)[i].pos < HiveHits(c, bins, 0)[j].pos
  {
    HitsExact(c, bins, lo);
  }

  /** In data of at most 2^32 bytes the reported file offsets increase strictly: nothing comes twice. */
  lemma {:induction false} OffsetsIncrease(c: Carver, bins: seq<HbinDescriptor>, lo: nat, i: nat, j: nat)
    requires BinsTile(bins, lo, |c.data|) && ReportsOffsets(c) && 4 <= lo && |c.data| <= 0x1_0000_0000
    requires i < j < |Take(HiveHits(c, bins, 0), MAX_RECOVERIES)|
    ensures var out := Records(c, Take(HiveHits(c, bins, 0), MAX_RECOVERIES));
            j < |out| && out[i].fileOffset < out[j].fileOffset
  {
    ReportedOffset(c, bins, lo, i);
    ReportedOffset(c, bins, lo, j);
    HitsInOrder(c, bins, lo, i, j);
  }

  lemma FlatCarverReports(data: Buf)
    ensures ReportsOffsets(FlatCarver(data))
  {
  }
}
