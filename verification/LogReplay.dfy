/** Reading dirty pages out of transaction logs (`replay_transaction_logs` and `parse_new_format_log` in
    `winreg-core/src/txlog.rs`), in the entry layout that code reads. */
module LogReplay {
  import opened Bytes
  import opened Sequences
  import opened TxLog
  import opened LogFormat
  import opened LogBytes

  /** The inner sum over the references before the `n`-th. */
  method SumSizes(log: Buf, refStart: nat, n: nat) returns (sum: u32)
    requires n > 0 ==> refStart + 8 * n <= |log|
    ensures sum == SizesBefore(log, refStart, n)
  {
    sum := 0;
    for j := 0 to n
      invariant sum == SizesBefore(log, refStart, j)
    {
      sum := (sum + U32At(log, refStart + j * 8 + 4)) % 0x1_0000_0000;
    }
  }

  method ApplyReference(log: Buf, refStart: nat, count: nat, i: nat, overlay: OverlayBuffer)
    requires i < count && refStart + 8 * i + 8 <= |log|
    modifies overlay
    ensures overlay.dirtyPages == ApplyAll(old(overlay.dirtyPages), ReferencedPage(log, refStart, count, i))
  {
    var pageOffset := LeU32(log, refStart + 8 * i);
    var pageSize := LeU32(log, refStart + 8 * i + 4);
    var accumulated := SumSizes(log, refStart, i);
    var dataOffset := refStart + count * 8 + accumulated;
    var dataEnd := dataOffset + pageSize;
    if dataEnd <= |log| {
      ApplyOne(overlay.dirtyPages, Page(4096 + pageOffset as nat, log[dataOffset..dataEnd]));
      overlay.ApplyPage(4096 + pageOffset as nat, log[dataOffset..dataEnd]);
    }
  }

  /** Applying the page of reference `i` leaves those from `i + 1` on. */
  lemma {:induction false} NextReference(before: Pages, log: Buf, refStart: nat, count: nat, i: nat, after: Pages)
    requires i < count && refStart + 8 * i + 8 <= |log|
             && after == ApplyAll(before, ReferencedPage(log, refStart, count, i))
    ensures ApplyAll(before, EntryPages(log, refStart, count, i))
            == ApplyAll(after, EntryPages(log, refStart, count, i + 1))
  {
    ApplyAppend(before, ReferencedPage(log, refStart, count, i), EntryPages(log, refStart, count, i + 1));
  }

  lemma {:induction false} NoMoreReferences(pages: Pages, log: Buf, refStart: nat, count: nat, i: nat)
    requires i >= count || refStart + 8 * i + 8 > |log|
    ensures ApplyAll(pages, EntryPages(log, refStart, count, i)) == pages
  {
  }

  method ParseEntry(log: Buf, pos: nat, overlay: OverlayBuffer)
    requires pos + ENTRY_HEADER_SIZE <= |log|
    modifies overlay
    ensures overlay.dirtyPages == ApplyAll(old(overlay.dirtyPages),
                                           EntryPages(log, pos + ENTRY_HEADER_SIZE, U32At(log, pos + 16), 0))
  {
    var pageCount := LeU32(log, pos + 16);
    ParseReferences(log, pos + ENTRY_HEADER_SIZE, pageCount, overlay);
  }

  method ParseReferences(log: Buf, refStart: nat, count: nat, overlay: OverlayBuffer)
    modifies overlay
    ensures overlay.dirtyPages == ApplyAll(old(overlay.dirtyPages), EntryPages(log, refStart, count, 0))
  {
    ghost var goal := ApplyAll(overlay.dirtyPages, EntryPages(log, refStart, count, 0));
    for i := 0 to count
      invariant goal == ApplyAll(overlay.dirtyPages, EntryPages(log, refStart, count, i))
    {
      if refStart + i * 8 + 8 > |log| {
        NoMoreReferences(overlay.dirtyPages, log, refStart, count, i);
        return;
      }
      ghost var before := overlay.dirtyPages;
      ApplyReference(log, refStart, count, i, overlay);
      NextReference(before, log, refStart, count, i, overlay.dirtyPages);
    }
    NoMoreReferences(overlay.dirtyPages, log, refStart, count, count);
  }

  method ParseNewFormatLog(log: Buf, overlay: OverlayBuffer)
    requires Advances(log, LOG_HEADER_SIZE)
    modifies overlay
    ensures overlay.dirtyPages == ApplyAll(old(overlay.dirtyPages), LogPages(log, LOG_HEADER_SIZE))
  {
    var pos := LOG_HEADER_SIZE;
    ghost var goal := ApplyAll(overlay.dirtyPages, LogPages(log, pos));
    while pos + 4 <= |log|
      invariant Advances(log, pos)
      invariant goal == ApplyAll(overlay.dirtyPages, LogPages(log, pos))
      decreases |log| - pos
    {
      if IsEntry(log, pos) {
        if pos + ENTRY_HEADER_SIZE > |log| {
          break;
        }
        var size := LeU32(log, pos + 4);
        ApplyAppend(overlay.dirtyPages, EntryPages(log, pos + ENTRY_HEADER_SIZE, U32At(log, pos + 16), 0),
                    LogPages(log, pos + size));
        ParseEntry(log, pos, overlay);
        pos := pos + size;
      } else {
        pos := pos + 1;
      }
    }
  }

  // ----- replaying a list of logs -----

  method ReplayTransactionLogs(hiveData: Buf, logs: seq<Buf>) returns (overlay: OverlayBuffer)
    requires AllAdvance(logs)
    ensures fresh(overlay) && overlay.base == hiveData
    ensures overlay.dirtyPages == ApplyAll(map[], ReplayPages(logs))
    ensures exists pages :: ReplayYields(logs, pages) && HoldsLast(overlay.dirtyPages, pages)
  {
    overlay := new OverlayBuffer(hiveData);
    for n := 0 to |logs|
      invariant fresh(overlay) && overlay.base == hiveData
      invariant overlay.dirtyPages == ApplyAll(map[], ReplayPages(logs[..n]))
    {
      assert logs[..n + 1][..n] == logs[..n];
      if IsLog(logs[n]) {
        ApplyAppend(map[], ReplayPages(logs[..n]), LogPages(logs[n], LOG_HEADER_SIZE));
        ParseNewFormatLog(logs[n], overlay);
      } else {
        assert ReplayPages(logs[..n]) + [] == ReplayPages(logs[..n]);
      }
    }
    assert logs[..|logs|] == logs;
    ReplayPagesExact(logs);
    AppliedHolds(ReplayPages(logs));
  }

  /** Replay and then materialize: sequential patching, for any bytes, whenever no position is stale. */
  method ReplayAndMaterialize(hiveData: Buf, logs: seq<Buf>) returns (result: Buf)
    requires AllAdvance(logs) && NoStale(RangesOf(ReplayPages(logs)), |hiveData|)
    ensures result == PatchAll(hiveData, ReplayPages(logs))
    ensures exists pages :: ReplayYields(logs, pages) && PatchedTo(hiveData, pages, result)
  {
    var overlay := ReplayTransactionLogs(hiveData, logs);
    result := overlay.Materialize();
    ReplayExact(RangesOf(ReplayPages(logs)), |hiveData|);
    ReplayPagesExact(logs);
    PatchAllExact(hiveData, ReplayPages(logs));
  }

  // ----- encoded logs are read back -----

  /** A page reference as an entry stores it: its offset is relative to the hive bins. */
  datatype DirtyPage = DirtyPage(offset: u32, data: Buf)

  function Datas(pages: seq<DirtyPage>): Buf {
    if pages == [] then [] else Datas(pages[..|pages| - 1]) + pages[|pages| - 1].data
  }

  /** Where the reference to page `i` lies in an entry at `pos`, and what it must say. */
  function RefPlace(pos: nat, i: nat): nat { pos + ENTRY_HEADER_SIZE + 8 * i }

  predicate RefIs(log: Buf, at: nat, p: DirtyPage) {
    at + 8 <= |log| && U32At(log, at) == p.offset && U32At(log, at + 4) == |p.data|
  }

  ghost predicate RefsHold(log: Buf, pos: nat, pages: seq<DirtyPage>) {
    forall i {:trigger RefPlace(pos, i)} | 0 <= i < |pages| :: RefIs(log, RefPlace(pos, i), pages[i])
  }

  /** `b` is an entry for `pages`: signature, own size, page count, one (offset, size) reference per page,
      then the page data back to back. Everything else, padding at the end included, is arbitrary. */
  ghost predicate EncodesEntry(b: Buf, pages: seq<DirtyPage>) {
    var d := ENTRY_HEADER_SIZE + 8 * |pages|;
    && d + |Datas(pages)| <= |b| < 0x1_0000_0000
    && IsEntry(b, 0) && U32At(b, 4) == |b| && U32At(b, 16) == |pages|
    && RefsHold(b, 0, pages)
    && b[d..d + |Datas(pages)|] == Datas(pages)
  }

  /** The same, for an entry inside a log. */
  ghost predicate HoldsEntry(log: Buf, pos: nat, size: nat, pages: seq<DirtyPage>) {
    var d := pos + ENTRY_HEADER_SIZE + 8 * |pages|;
    && d + |Datas(pages)| <= pos + size <= |log| && size < 0x1_0000_0000
    && IsEntry(log, pos) && U32At(log, pos + 4) == size && U32At(log, pos + 16) == |pages|
    && RefsHold(log, pos, pages)
    && log[d..d + |Datas(pages)|] == Datas(pages)
  }

  lemma EntryInside(log: Buf, pos: nat, b: Buf, pages: seq<DirtyPage>)
    requires EncodesEntry(b, pages) && pos + |b| <= |log| && log[pos..pos + |b|] == b
    ensures HoldsEntry(log, pos, |b|, pages)
  {
    assert forall k | 0 <= k < |b| :: log[pos + k] == b[k];
    assert forall o: nat | o + 4 <= |b| :: U32At(log, pos + o) == U32At(b, o);
    var d := ENTRY_HEADER_SIZE + 8 * |pages|;
    assert log[pos + d..pos + d + |Datas(pages)|] == b[d..d + |Datas(pages)|];
    forall i {:trigger RefPlace(pos, i)} | 0 <= i < |pages| ensures RefIs(log, RefPlace(pos, i), pages[i]) {
      assert RefIs(b, RefPlace(0, i), pages[i]);
      assert U32At(log, pos + RefPlace(0, i)) == U32At(b, RefPlace(0, i));
      assert U32At(log, pos + (RefPlace(0, i) + 4)) == U32At(b, RefPlace(0, i) + 4);
    }
  }

  /** Page `i` lies in the concatenated data right after the pages before it. */
  lemma {:induction false} DataPlace(pages: seq<DirtyPage>, i: nat)
    requires i < |pages|
    ensures var s := |Datas(pages[..i])|;
            s + |pages[i].data| <= |Datas(pages)| && Datas(pages)[s..s + |pages[i].data|] == pages[i].data
  {
    var n := |pages| - 1;
    if i < n {
      DataPlace(pages[..n], i);
      assert pages[..n][..i] == pages[..i];
      var d := Datas(pages[..n]);
      assert d == Datas(pages)[..|d|];
    }
  }

  /** The prefix sums of the sizes locate each page's data. */
  lemma {:induction false} SizesLocate(log: Buf, pos: nat, pages: seq<DirtyPage>, i: nat)
    requires RefsHold(log, pos, pages) && |Datas(pages)| < 0x1_0000_0000
    requires i <= |pages| && RefPlace(pos, |pages|) <= |log|
    ensures SizesBefore(log, pos + ENTRY_HEADER_SIZE, i) == |Datas(pages[..i])| <= |Datas(pages)|
  {
    if i > 0 {
      SizesLocate(log, pos, pages, i - 1);
      DataPlace(pages, i - 1);
      assert pages[..i][..i - 1] == pages[..i - 1];
      assert RefIs(log, RefPlace(pos, i - 1), pages[i - 1]);
    }
  }

  function PagesOf(pages: seq<DirtyPage>): (r: seq<Page>)
    ensures |r| == |pages|
  {
    seq(|pages|, i requires 0 <= i < |pages| => Page(4096 + pages[i].offset, pages[i].data))
  }

  lemma PageData(log: Buf, pos: nat, size: nat, pages: seq<DirtyPage>, i: nat)
    requires HoldsEntry(log, pos, size, pages) && i < |pages|
    ensures RefPlace(pos, i) + 8 <= |log|
    ensures ReferencedPage(log, pos + ENTRY_HEADER_SIZE, |pages|, i) == [PagesOf(pages)[i]]
  {
    assert RefIs(log, RefPlace(pos, i), pages[i]);
    SizesLocate(log, pos, pages, i);
    DataPlace(pages, i);
    var d := pos + ENTRY_HEADER_SIZE + 8 * |pages|;
    var s := |Datas(pages[..i])|;
    SliceOfSlice(log, d, d + |Datas(pages)|, s, s + |pages[i].data|);
  }

  lemma {:induction false} EntryReadBack(log: Buf, pos: nat, size: nat, pages: seq<DirtyPage>, i: nat)
    requires HoldsEntry(log, pos, size, pages) && i <= |pages|
    ensures EntryPages(log, pos + ENTRY_HEADER_SIZE, |pages|, i) == PagesOf(pages)[i..]
    decreases |pages| - i
  {
    if i < |pages| {
      var refStart := pos + ENTRY_HEADER_SIZE;
      assert EntryPages(log, refStart, |pages|, i)
             == [PagesOf(pages)[i]] + EntryPages(log, refStart, |pages|, i + 1) by {
        PageData(log, pos, size, pages, i);
      }
      EntryReadBack(log, pos, size, pages, i + 1);
      SuffixHead(PagesOf(pages), i);
    }
  }

  /** Bytes after the last entry in which no entry starts. */
  predicate NoEntries(tail: Buf) {
    forall p: nat | p < |tail| :: !IsEntry(tail, p)
  }

  lemma {:induction false} TailIsSkipped(log: Buf, pos: nat, tail: Buf)
    requires pos <= |log| && log[pos..] == tail && NoEntries(tail)
    ensures Advances(log, pos) && LogPages(log, pos) == []
    decreases |log| - pos
  {
    if pos + 4 <= |log| {
      assert forall k | 0 <= k < |tail| :: tail[k] == log[pos + k];
      assert !IsEntry(tail, 0);
      assert log[pos + 1..] == tail[1..];
      NoEntriesRest(tail);
      TailIsSkipped(log, pos + 1, tail[1..]);
    }
  }

  lemma NoEntriesRest(tail: Buf)
    requires tail != [] && NoEntries(tail)
    ensures NoEntries(tail[1..])
  {
    assert forall p: nat | p < |tail| - 1 && IsEntry(tail[1..], p) :: IsEntry(tail, p + 1);
  }

  /** Entries that follow one another are read back in order. */
  lemma {:induction false} EntriesReadBack(log: Buf, pos: nat, bs: seq<Buf>, es: seq<seq<DirtyPage>>, tail: Buf)
    requires |bs| == |es| && forall i | 0 <= i < |bs| :: EncodesEntry(bs[i], es[i])
    requires pos <= |log| && log[pos..] == Flatten(bs) + tail && NoEntries(tail)
    ensures Advances(log, pos) && LogPages(log, pos) == Flatten(Map(PagesOf, es))
    decreases |es|
  {
    if es == [] {
      assert log[pos..] == tail;
      TailIsSkipped(log, pos, tail);
    } else {
      var size := |bs[0]|;
      var rest := Flatten(bs[1..]) + tail;
      AppendAssociates(bs[0], Flatten(bs[1..]), tail);
      SplitSuffix(log, pos, bs[0], rest);
      EntryInside(log, pos, bs[0], es[0]);
      EntryReadBack(log, pos, size, es[0], 0);
      EntriesReadBack(log, pos + size, bs[1..], es[1..], tail);
      assert Flatten(Map(PagesOf, es)) == PagesOf(es[0]) + Flatten(Map(PagesOf, es[1..])) by {
        assert Map(PagesOf, es)[1..] == Map(PagesOf, es[1..]);
      }
    }
  }

  /** A log made of a header, encoded entries and an entry-free tail yields exactly the pages of its
      entries, in order, at 4096 plus their offsets. */
  lemma LogReadBack(header: Buf, bs: seq<Buf>, es: seq<seq<DirtyPage>>, tail: Buf)
    requires |header| == LOG_HEADER_SIZE && NoEntries(tail)
    requires |bs| == |es| && forall i | 0 <= i < |bs| :: EncodesEntry(bs[i], es[i])
    ensures var log := header + Flatten(bs) + tail;
            Advances(log, LOG_HEADER_SIZE) && LogPages(log, LOG_HEADER_SIZE) == Flatten(Map(PagesOf, es))
  {
    var log := header + Flatten(bs) + tail;
    AppendAssociates(header, Flatten(bs), tail);
    EntriesReadBack(log, LOG_HEADER_SIZE, bs, es, tail);
  }

  // ----- such entries exist for every list of pages that fits -----

  function Refs(pages: seq<DirtyPage>): (r: Buf)
    requires forall p | p in pages :: |p.data| < 0x1_0000_0000
    ensures |r| == 8 * |pages|
  {
    if pages == [] then []
    else Refs(pages[..|pages| - 1]) + U32Bytes(pages[|pages| - 1].offset) + U32Bytes(|pages[|pages| - 1].data|)
  }

  lemma {:induction false} RefAt(pages: seq<DirtyPage>, i: nat)
    requires (forall p | p in pages :: |p.data| < 0x1_0000_0000) && i < |pages|
    ensures U32At(Refs(pages), 8 * i) == pages[i].offset && U32At(Refs(pages), 8 * i + 4) == |pages[i].data|
  {
    var n := |pages| - 1;
    if i < n {
      RefAt(pages[..n], i);
    }
  }

  lemma EntryHead(size: u32, count: u32) returns (head: Buf)
    ensures |head| == ENTRY_HEADER_SIZE && IsEntry(head, 0) && U32At(head, 4) == size && U32At(head, 16) == count
  {
    var sig: Buf := ['H' as int, 'v' as int, 'L' as int, 'E' as int];
    head := sig + U32Bytes(size) + seq(8, _ => 0) + U32Bytes(count) + seq(20, _ => 0);
    assert head[4..8] == U32Bytes(size) && head[16..20] == U32Bytes(count);
    U32AtSlice(head, 4, 8, 0);
    U32AtSlice(head, 16, 20, 0);
  }

  lemma WriteEntry(pages: seq<DirtyPage>) returns (b: Buf)
    requires ENTRY_HEADER_SIZE + 8 * |pages| + |Datas(pages)| < 0x1_0000_0000
    ensures EncodesEntry(b, pages)
  {
    forall i | 0 <= i < |pages| ensures |pages[i].data| < 0x1_0000_0000 {
      DataPlace(pages, i);
    }
    var refs, datas := Refs(pages), Datas(pages);
    var head := EntryHead(ENTRY_HEADER_SIZE + 8 * |pages| + |datas|, |pages|);
    b := head + refs + datas;
    assert b[..ENTRY_HEADER_SIZE] == head;
    U32AtSlice(b, 0, ENTRY_HEADER_SIZE, 4);
    U32AtSlice(b, 0, ENTRY_HEADER_SIZE, 16);
    assert b[ENTRY_HEADER_SIZE..ENTRY_HEADER_SIZE + |refs|] == refs;
    forall i {:trigger RefPlace(0, i)} | 0 <= i < |pages| ensures RefIs(b, RefPlace(0, i), pages[i]) {
      RefAt(pages, i);
      U32AtSlice(b, ENTRY_HEADER_SIZE, ENTRY_HEADER_SIZE + |refs|, 8 * i);
      U32AtSlice(b, ENTRY_HEADER_SIZE, ENTRY_HEADER_SIZE + |refs|, 8 * i + 4);
    }
  }
}
