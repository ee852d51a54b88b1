/** Recovering deleted keys and values from free cells and slack (`winreg-carve/src/lib.rs`). */
module Carve {
  import opened Wrappers
  import opened Bytes
  import opened Sequences
  import opened Text
  import opened Cells
  import opened Hives

  const MAX_RECOVERIES: nat := 100_000
  const MAX_SCAN_BYTES: nat := 512 * 1024 * 1024
  const MIN_CELL_SIZE: nat := 8

  datatype RecoverySource = UnallocatedCell | Slack
  datatype Confidence = High | Medium | Low

  datatype RecoveredCell =
    | RecoveredKey(name: string, lastWritten: u64, parentOffset: u32,
                   fileOffset: u32, wasLive: bool, source: RecoverySource, confidence: Confidence)
    | RecoveredValue(name: string, dataType: u32, data: Buf,
                     fileOffset: u32, wasLive: bool, source: RecoverySource, confidence: Confidence)

  // ----- recognising one record -----

  predicate KeyIsPlausible(nk: RawKeyNode) {
    0 < nk.keyNameLen <= 512 && nk.subkeyCount <= 1_000_000 && nk.valueCount <= 1_000_000
  }

  predicate ValueIsPlausible(vk: RawKeyValue) {
    vk.nameLen <= 512 && vk.DataSize() <= 16 * 1024 * 1024
  }

  predicate NameIsPlausible(name: string) {
    && name != [] && |Utf8(name)| <= 1024
    && forall c | c in name :: c != REPLACEMENT && !IsControl(c)
  }

  /** File offsets are reported as 32-bit numbers, saturating. */
  function Saturate(n: nat): u32 {
    if n < 0x1_0000_0000 then n else 0xFFFF_FFFF
  }

  function ConfidenceOf(source: RecoverySource): Confidence {
    if source == RecoverySource.UnallocatedCell then High else Medium
  }

  predicate IsRecordSignature(data: Buf, pos: nat) {
    && pos + 2 <= |data|
    && (data[pos] as int == 'n' as int || data[pos] as int == 'v' as int)
    && data[pos + 1] as int == 'k' as int
  }

  /** What is made of a parsed key node. */
  function KeyRecord(nk: RawKeyNode, cellOffset: nat, source: RecoverySource): (r: Option<RecoveredCell>)
    ensures r.Some? ==> r.value.fileOffset == Saturate(cellOffset) && r.value.source == source
  {
    if !KeyIsPlausible(nk) || !NameIsPlausible(nk.Name()) then None
    else Some(RecoveredKey(nk.Name(), nk.lastWritten, nk.parent, Saturate(cellOffset), false, source,
                           ConfidenceOf(source)))
  }

  /** The same for a value, which may have no name. */
  function ValueRecord(vk: RawKeyValue, cellOffset: nat, source: RecoverySource): (r: Option<RecoveredCell>)
    ensures r.Some? ==> r.value.fileOffset == Saturate(cellOffset) && r.value.source == source
  {
    if !ValueIsPlausible(vk) || (vk.Name() != [] && !NameIsPlausible(vk.Name())) then None
    else Some(RecoveredValue(vk.Name(), TypeToRaw(vk.dataType), if vk.IsResident() then vk.InlineData() else [],
                             Saturate(cellOffset), false, source, ConfidenceOf(source)))
  }

  datatype Candidate = NodeCandidate(nk: RawKeyNode) | ValueCandidate(vk: RawKeyValue)

  /** The `nk` or `vk` record whose signature is at `pos` and which ends before `end`, if one can be parsed. */
  function CandidateAt(data: Buf, pos: nat, end: nat): (c: Option<Candidate>)
    ensures c.Some? ==> IsRecordSignature(data, pos)
  {
    if pos + 2 > end || end > |data| then None
    else
      match SignatureOf(data[pos], data[pos + 1])
      case Some(KeyNode) =>
        (match ParseKeyNode(data[pos + 2..end])
         case None => None
         case Some(nk) => Some(NodeCandidate(nk)))
      case Some(KeyValue) =>
        (match ParseKeyValue(data[pos + 2..end])
         case None => None
         case Some(vk) => Some(ValueCandidate(vk)))
      case _ => None
  }

  /** The plausible record there. */
  function TryRecord(data: Buf, pos: nat, end: nat, cellOffset: nat, source: RecoverySource): (r: Option<RecoveredCell>)
    ensures r.Some? ==>
            IsRecordSignature(data, pos) && r.value.fileOffset == Saturate(cellOffset) && r.value.source == source
  {
    match CandidateAt(data, pos, end)
    case None => None
    case Some(NodeCandidate(nk)) => KeyRecord(nk, cellOffset, source)
    case Some(ValueCandidate(vk)) => ValueRecord(vk, cellOffset, source)
  }

  // ----- scanning, for any recogniser of records -----

  /** Where a record may be found: its signature position, the end of its cell, and how it is reported. */
  datatype Hit = Hit(pos: nat, end: nat, source: RecoverySource)

  /** The bytes together with the recogniser that the scans consult. */
  datatype Carver = Carver(data: Buf, record: Hit -> Option<RecoveredCell>) {
    /** What the scans rely on: only `nk` and `vk` signatures are recognised, and whether something is a
        record does not depend on how it would be reported. */
    ghost predicate Sound() {
      && (forall h: Hit | record(h).Some? :: IsRecordSignature(data, h.pos))
      && (forall h: Hit, s | record(h).Some? :: record(h.(source := s)).Some?)
    }
  }

  function RecordAt(c: Carver, h: Hit): (r: seq<RecoveredCell>) {
    match c.record(h)
    case None => []
    case Some(rec) => [rec]
  }

  function FlatCarver(data: Buf): Carver {
    Carver(data, (h: Hit) => TryRecord(data, h.pos, h.end, if h.pos < 4 then 0 else h.pos - 4, h.source))
  }

  lemma TrySourceIndependent(data: Buf, pos: nat, end: nat, off: nat, s: RecoverySource, t: RecoverySource)
    ensures TryRecord(data, pos, end, off, s).Some? ==> TryRecord(data, pos, end, off, t).Some?
  {
  }

  lemma FlatCarverSound(data: Buf)
    ensures FlatCarver(data).Sound()
  {
    var c := FlatCarver(data);
    forall h: Hit, s | c.record(h).Some? ensures c.record(h.(source := s)).Some? {
      TrySourceIndependent(data, h.pos, h.end, if h.pos < 4 then 0 else h.pos - 4, h.source, s);
    }
  }

  // ----- the cells of a bin -----

  /** A cell of the chain: where it starts, where it ends (clipped to the bin) and whether it is free. */
  datatype Span = Span(pos: nat, end: nat, free: bool) {
    /** The first position whose bytes are looked at: an allocated cell's own signature is skipped. */
    function First(): nat { if free then pos + 4 else pos + 6 }

    /** A record right at the head of a free cell is reported as an unallocated cell. */
    function SourceAt(q: nat): RecoverySource {
      if free && q == pos + 4 then RecoverySource.UnallocatedCell else Slack
    }
  }

  function HeaderAt(data: Buf, pos: nat): CellHeader
    requires pos + 4 <= |data|
  {
    CellHeader(I32At(data, pos))
  }

  function Min(a: nat, b: nat): nat { if a < b then a else b }

  function SpanAt(data: Buf, pos: nat, end: nat): Span
    requires pos + 4 <= |data|
  {
    Span(pos, Min(pos + HeaderAt(data, pos).Size(), end), !HeaderAt(data, pos).IsAllocated())
  }

  /** The chain of cells from `pos`: a size below the minimum ends it. */
  function Spans(data: Buf, pos: nat, end: nat): seq<Span>
    requires end <= |data|
    decreases end - pos
  {
    if pos + 4 > end || HeaderAt(data, pos).Size() < MIN_CELL_SIZE then []
    else [SpanAt(data, pos, end)] + Spans(data, pos + HeaderAt(data, pos).Size(), end)
  }

  // ----- the hits of a cell, of a bin, of the hive -----

  function HitHere(c: Carver, span: Span, q: nat): seq<Hit> {
    var h := Hit(q, span.end, span.SourceAt(q));
    if c.record(h).Some? then [h] else []
  }

  /** Every recognised position from `q` to the end of the cell. */
  function HitsFrom(c: Carver, span: Span, q: nat): seq<Hit>
    decreases span.end - q
  {
    if q + 2 > span.end then [] else HitHere(c, span, q) + HitsFrom(c, span, q + 1)
  }

  function CellHits(c: Carver, span: Span): seq<Hit> {
    HitsFrom(c, span, span.First())
  }

  function SpanHits(c: Carver, spans: seq<Span>): seq<Hit> {
    if spans == [] then [] else CellHits(c, spans[0]) + SpanHits(c, spans[1..])
  }

  function BinHits(c: Carver, start: nat, end: nat): seq<Hit>
    requires end <= |c.data|
  {
    SpanHits(c, Spans(c.data, start, end))
  }

  function Records(c: Carver, hits: seq<Hit>): seq<RecoveredCell> {
    if hits == [] then [] else RecordAt(c, hits[0]) + Records(c, hits[1..])
  }

  function BinStart(bin: HbinDescriptor): nat { bin.fileOffset + 32 }

  function BinEnd(bin: HbinDescriptor, dataLen: nat): nat { Min(bin.fileOffset + bin.size, dataLen) }

  /** How many bytes of cells a bin holds. */
  function BinBytes(bin: HbinDescriptor, dataLen: nat): nat {
    if BinStart(bin) >= BinEnd(bin, dataLen) then 0 else BinEnd(bin, dataLen) - BinStart(bin)
  }

  function HiveHits(c: Carver, bins: seq<HbinDescriptor>, scanned: nat): seq<Hit> {
    if bins == [] || scanned >= MAX_SCAN_BYTES then []
    else
      BinHits(c, BinStart(bins[0]), BinEnd(bins[0], |c.data|))
        + HiveHits(c, bins[1..], scanned + BinBytes(bins[0], |c.data|))
  }

  // ----- the scans of the source -----

  /** One step of the sweep, which never asks for more than a slack record. */
  lemma SweepStep(c: Carver, span: Span, i: nat)
    requires c.Sound() && i + 2 <= span.end
    requires span.SourceAt(i) == RecoverySource.UnallocatedCell ==>
             c.record(Hit(i, span.end, RecoverySource.UnallocatedCell)).None?
    ensures var h := Hit(i, span.end, Slack);
            && (c.record(h).Some? ==> IsRecordSignature(c.data, i))
            && HitsFrom(c, span, i) == (if c.record(h).Some? then [h] else []) + HitsFrom(c, span, i + 1)
  {
    var h := Hit(i, span.end, Slack);
    if span.SourceAt(i) == RecoverySource.UnallocatedCell {
      assert c.record(h).Some? ==> c.record(h.(source := RecoverySource.UnallocatedCell)).Some?;
    }
  }

  /** A record at the head of a free cell rules out one at the next byte, which the sweep skips. */
  lemma HeadRules(c: Carver, span: Span)
    requires c.Sound() && span.free
    ensures var h := Hit(span.pos + 4, span.end, RecoverySource.UnallocatedCell);
            c.record(h).Some? && span.pos + 6 <= span.end ==> CellHits(c, span) == [h] + HitsFrom(c, span, span.pos + 6)
  {
    var h := Hit(span.pos + 4, span.end, RecoverySource.UnallocatedCell);
    if c.record(h).Some? && span.pos + 6 <= span.end {
      var next := Hit(span.pos + 5, span.end, Slack);
      assert IsRecordSignature(c.data, span.pos + 4);
      assert c.record(next).None? by {
        assert c.record(next).Some? ==> IsRecordSignature(c.data, span.pos + 5);
      }
      assert HitHere(c, span, span.pos + 5) == [];
      assert HitsFrom(c, span, span.pos + 5) == HitsFrom(c, span, span.pos + 6);
    }
  }

  lemma {:induction false} RecordsPush(c: Carver, hits: seq<Hit>, h: Hit)
    requires c.record(h).Some?
    ensures Records(c, hits + [h]) == Records(c, hits) + [c.record(h).value]
  {
    if hits != [] {
      RecordsPush(c, hits[1..], h);
      assert (hits + [h])[1..] == hits[1..] + [h];
    }
  }

  /** The state the scans share: the records found so far, never more than the cap. */
  class Scanner {
    const carver: Carver
    var out: seq<RecoveredCell>
    ghost var hits: seq<Hit>  // where they were found

    ghost predicate Valid()
      reads this
    {
      carver.Sound() && out == Records(carver, hits) && |out| == |hits| <= MAX_RECOVERIES
    }

    constructor (c: Carver)
      requires c.Sound()
      ensures Valid() && carver == c && hits == []
    {
      carver := c;
      out, hits := [], [];
    }

    method Push(h: Hit)
      requires Valid() && |out| < MAX_RECOVERIES && carver.record(h).Some?
      modifies this
      ensures Valid() && hits == old(hits) + [h]
    {
      RecordsPush(carver, hits, h);
      out := out + [carver.record(h).value];
      hits := hits + [h];
    }

    /** Byte-scan of `[start, end)`. */
    method ScanSlack(start: nat, end: nat, ghost span: Span)
      requires Valid() && span.end == end && start >= span.First()
      requires span.SourceAt(start) == RecoverySource.UnallocatedCell ==>
               carver.record(Hit(start, end, RecoverySource.UnallocatedCell)).None?
      modifies this
      ensures Valid() && hits == Take(old(hits) + HitsFrom(carver, span, start), MAX_RECOVERIES)
    {
      var i := start;
      ghost var goal := Take(hits + HitsFrom(carver, span, start), MAX_RECOVERIES);
      while i + 2 <= end && |out| < MAX_RECOVERIES
        invariant start <= i && Valid()
        invariant goal == Take(hits + HitsFrom(carver, span, i), MAX_RECOVERIES)
      {
        ghost var was, rest := hits, HitsFrom(carver, span, i + 1);
        SweepStep(carver, span, i);
        if IsRecordSignature(carver.data, i) && carver.record(Hit(i, end, Slack)).Some? {
          Push(Hit(i, end, Slack));
          AppendAssociates(was, [Hit(i, end, Slack)], rest);
        } else {
          assert [] + rest == rest;
        }
        i := i + 1;
      }
    }

    /** One cell: a free one may hold a record at its head; the rest of any cell is swept. */
    method ScanCell(pos: nat, cellEnd: nat, free: bool)
      requires Valid() && |out| < MAX_RECOVERIES
      modifies this
      ensures Valid() && hits == Take(old(hits) + CellHits(carver, Span(pos, cellEnd, free)), MAX_RECOVERIES)
    {
      ghost var span := Span(pos, cellEnd, free);
      if !free {
        ScanSlack(pos + 4 + 2, cellEnd, span);
        return;
      }
      var bodyStart := pos + 4;
      var head := Hit(bodyStart, cellEnd, RecoverySource.UnallocatedCell);
      if bodyStart + 2 <= cellEnd && carver.record(head).Some? {
        HeadRules(carver, span);
        ghost var was, rest := hits, HitsFrom(carver, span, bodyStart + 2);
        Push(head);
        ScanSlack(bodyStart + 2, cellEnd, span);
        AppendAssociates(was, [head], rest);
      } else if bodyStart + 2 <= cellEnd {
        ScanSlack(bodyStart, cellEnd, span);
      }
    }

    /** The cell at `pos`, as far as it lies in the bin. */
    method ScanNextCell(pos: nat, end: nat)
      requires Valid() && |out| < MAX_RECOVERIES && pos + 4 <= |carver.data|
      modifies this
      ensures Valid() && hits == Take(old(hits) + CellHits(carver, SpanAt(carver.data, pos, end)), MAX_RECOVERIES)
    {
      var header := HeaderAt(carver.data, pos);
      ScanCell(pos, Min(pos + header.Size(), end), !header.IsAllocated());
    }

    /** The walk along one bin's cell chain. */
    method ScanBin(start: nat, end: nat)
      requires Valid() && end <= |carver.data|
      modifies this
      ensures Valid() && hits == Take(old(hits) + BinHits(carver, start, end), MAX_RECOVERIES)
    {
      var pos := start;
      ghost var left := BinHits(carver, start, end);
      ghost var goal := Take(hits + left, MAX_RECOVERIES);
      while pos + 4 <= end && |out| < MAX_RECOVERIES
        invariant Valid()
        invariant left == BinHits(carver, pos, end)
        invariant goal == Take(hits + left, MAX_RECOVERIES)
        decreases end - pos
      {
        var cellSize := HeaderAt(carver.data, pos).Size();
        if cellSize < MIN_CELL_SIZE {
          break;
        }
        left := CellByCell(carver, pos, end, hits);
        ScanNextCell(pos, end);
        pos := pos + cellSize;
      }
      NothingLeft(carver, pos, end, hits);
    }
  }

  /** At the cap, or where the chain ends, nothing more is taken. */
  lemma NothingLeft(c: Carver, pos: nat, end: nat, hits: seq<Hit>)
    requires end <= |c.data| && |hits| <= MAX_RECOVERIES
    requires |hits| == MAX_RECOVERIES || pos + 4 > end || HeaderAt(c.data, pos).Size() < MIN_CELL_SIZE
    ensures Take(hits + BinHits(c, pos, end), MAX_RECOVERIES) == hits
  {
    if |hits| == MAX_RECOVERIES {
      TakeFull(hits, BinHits(c, pos, end), MAX_RECOVERIES);
    } else {
      assert BinHits(c, pos, end) == [];
      TakeNoMore(hits, MAX_RECOVERIES);
    }
  }

  /** What is left after one more cell. */
  lemma CellByCell(c: Carver, pos: nat, end: nat, hits: seq<Hit>) returns (rest: seq<Hit>)
    requires pos + 4 <= end <= |c.data| && HeaderAt(c.data, pos).Size() >= MIN_CELL_SIZE
    ensures rest == BinHits(c, pos + HeaderAt(c.data, pos).Size(), end)
    ensures Take(hits + BinHits(c, pos, end), MAX_RECOVERIES) ==
            Take(Take(hits + CellHits(c, SpanAt(c.data, pos, end)), MAX_RECOVERIES) + rest, MAX_RECOVERIES)
  {
    var span, spans := SpanAt(c.data, pos, end), Spans(c.data, pos + HeaderAt(c.data, pos).Size(), end);
    rest := BinHits(c, pos + HeaderAt(c.data, pos).Size(), end);
    assert ([span] + spans)[1..] == spans;
    TakeInTwo(hits, CellHits(c, span), rest, MAX_RECOVERIES);
  }

  /** Carving these bins: the records at their hits, truncated at the cap. */
  method RecoverWith(c: Carver, bins: seq<HbinDescriptor>) returns (out: seq<RecoveredCell>)
    requires c.Sound()
    ensures out == Records(c, Take(HiveHits(c, bins, 0), MAX_RECOVERIES))
  {
    var scanner := new Scanner(c);
    var scanned: nat := 0;
    ghost var goal, left := Take(HiveHits(c, bins, 0), MAX_RECOVERIES), HiveHits(c, bins, 0);
    assert scanner.hits + left == left;
    for i := 0 to |bins|
      invariant scanner.carver == c && scanner.Valid() && fresh(scanner)
      invariant left == HiveHits(c, bins[i..], scanned)
      invariant goal == Take(scanner.hits + left, MAX_RECOVERIES)
    {
      if |scanner.out| >= MAX_RECOVERIES || scanned >= MAX_SCAN_BYTES {
        break;
      }
      left := BinByBin(c, bins, i, scanned, scanner.hits);
      ScanOneBin(scanner, bins[i]);
      scanned := scanned + BinBytes(bins[i], |c.data|);
    }
    out := scanner.out;
    if |scanner.hits| == MAX_RECOVERIES {
      TakeFull(scanner.hits, left, MAX_RECOVERIES);
    } else {
      assert left == [];
      TakeNoMore(scanner.hits, MAX_RECOVERIES);
    }
  }

  /** What is left after one more bin. */
  lemma BinByBin(c: Carver, bins: seq<HbinDescriptor>, i: nat, scanned: nat, hits: seq<Hit>) returns (rest: seq<Hit>)
    requires i < |bins| && scanned < MAX_SCAN_BYTES
    ensures rest == HiveHits(c, bins[i + 1..], scanned + BinBytes(bins[i], |c.data|))
    ensures Take(hits + HiveHits(c, bins[i..], scanned), MAX_RECOVERIES) ==
            Take(Take(hits + BinHits(c, BinStart(bins[i]), BinEnd(bins[i], |c.data|)), MAX_RECOVERIES) + rest,
                 MAX_RECOVERIES)
  {
    SuffixHead(bins, i);
    rest := HiveHits(c, bins[i + 1..], scanned + BinBytes(bins[i], |c.data|));
    TakeInTwo(hits, BinHits(c, BinStart(bins[i]), BinEnd(bins[i], |c.data|)), rest, MAX_RECOVERIES);
  }

  /** A bin without room for cells, as in a truncated file, is passed over. */
  method ScanOneBin(scanner: Scanner, bin: HbinDescriptor)
    requires scanner.Valid()
    modifies scanner
    ensures scanner.Valid()
    ensures scanner.hits == Take(old(scanner.hits) + BinHits(scanner.carver, BinStart(bin),
              BinEnd(bin, |scanner.carver.data|)), MAX_RECOVERIES)
  {
    var cellsStart, binEnd := BinStart(bin), BinEnd(bin, |scanner.carver.data|);
    if cellsStart >= binEnd {
      TakeNoMore(scanner.hits, MAX_RECOVERIES);
      return;
    }
    scanner.ScanBin(cellsStart, binEnd);
  }
}
