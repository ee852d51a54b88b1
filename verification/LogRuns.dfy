/** Whole replays: from the pages that were logged, through the bytes of the logs, to the materialized hive
    (`winreg-core/src/txlog.rs`). */
module LogRuns {
  import opened Bytes
  import opened Sequences
  import opened TxLog
  import opened LogFormat
  import opened LogBytes
  import opened LogReplay

  /** How a log was written: a header, entries with the pages they encode, and bytes without an entry. */
  datatype LogParts = LogParts(header: Buf, entries: seq<Buf>, pages: seq<seq<DirtyPage>>, tail: Buf) {
    function Log(): Buf { header + Flatten(entries) + tail }

    function Pages(): seq<Page> { Flatten(Map(PagesOf, pages)) }

    ghost predicate Valid() {
      && |header| == 512 && Accepted(header) && NoEntries(tail)
      && |entries| == |pages| && forall i | 0 <= i < |entries| :: EncodesEntry(entries[i], pages[i])
    }
  }

  ghost predicate AllValid(parts: seq<LogParts>) {
    forall p | p in parts :: p.Valid()
  }

  /** The bytes of the logs. */
  function LogsOf(parts: seq<LogParts>): (r: seq<Buf>)
    ensures |r| == |parts| && forall i | 0 <= i < |parts| :: r[i] == parts[i].Log()
  {
    seq(|parts|, i requires 0 <= i < |parts| => parts[i].Log())
  }

  /** All logged pages, log by log and entry by entry. */
  function LoggedPages(parts: seq<LogParts>): seq<Page> {
    if parts == [] then [] else LoggedPages(parts[..|parts| - 1]) + parts[|parts| - 1].Pages()
  }

  lemma LogAccepted(p: LogParts)
    requires p.Valid()
    ensures Accepted(p.Log()) && IsLog(p.Log()) && Advances(p.Log(), LOG_HEADER_SIZE)
    ensures LogPages(p.Log(), LOG_HEADER_SIZE) == p.Pages()
  {
    LogReadBack(p.header, p.entries, p.pages, p.tail);
    assert p.Log()[..LOG_HEADER_SIZE] == p.header;
    U32AtSlice(p.Log(), 0, LOG_HEADER_SIZE, FILE_TYPE_OFFSET);
    assert forall k | 0 <= k < 4 :: p.Log()[k] == p.header[k];
    AcceptedExact(p.Log());
  }

  lemma AllLogsAdvance(parts: seq<LogParts>)
    requires AllValid(parts)
    ensures AllAdvance(LogsOf(parts))
  {
    forall i | 0 <= i < |parts| ensures Advances(LogsOf(parts)[i], LOG_HEADER_SIZE) {
      LogAccepted(parts[i]);
    }
  }

  /** The replay reads exactly the logged pages, in order. */
  lemma {:induction false} ReplaysLogged(parts: seq<LogParts>)
    requires AllValid(parts)
    ensures AllAdvance(LogsOf(parts)) && ReplayPages(LogsOf(parts)) == LoggedPages(parts)
  {
    AllLogsAdvance(parts);
    if parts != [] {
      var init, last := parts[..|parts| - 1], parts[|parts| - 1];
      assert last in parts && forall p | p in init :: p in parts;
      ReplaysLogged(init);
      LogAccepted(last);
      assert LogsOf(parts)[..|parts| - 1] == LogsOf(init);
    }
  }

  /** Pages of distinct offsets are disjoint, pages of one offset have one length. */
  ghost predicate Untangled(rs: seq<Range>) {
    forall i, j | 0 <= i < j < |rs| ::
      ApartOrSame(rs[i], rs[j]) && (rs[i].offset == rs[j].offset ==> rs[i].len == rs[j].len)
  }

  /** End to end: replaying such logs and materializing writes every logged page over the hive, in order. */
  method ReplayLogged(hiveData: Buf, logs: seq<Buf>, ghost parts: seq<LogParts>) returns (result: Buf)
    requires AllValid(parts) && logs == LogsOf(parts) && Untangled(RangesOf(LoggedPages(parts)))
    ensures PatchedTo(hiveData, LoggedPages(parts), result)
  {
    ReplaysLogged(parts);
    DisjointNeverStale(RangesOf(LoggedPages(parts)), |hiveData|);
    result := ReplayAndMaterialize(hiveData, logs);
    PatchAllExact(hiveData, LoggedPages(parts));
  }

  // ----- logs whose replay is not patching -----

  function PlainHeader(): (h: Buf)
    ensures |h| == LOG_HEADER_SIZE
  {
    seq(LOG_HEADER_SIZE, i => if i == 0 then 'r' as int else if i == 1 then 'e' as int else if i == 2 then 'g' as int
                              else if i == 3 then 'f' as int else if i == FILE_TYPE_OFFSET then 1 else 0)
  }

  lemma OneLog(parts: LogParts)
    ensures LoggedPages([parts]) == parts.Pages()
  {
    var none: seq<LogParts> := [];
    assert [parts][..|[parts]| - 1] == none && LoggedPages(none) == [] && [] + parts.Pages() == parts.Pages();
  }

  /** One log with one entry. */
  lemma LogOf(ds: seq<DirtyPage>) returns (parts: LogParts)
    requires ENTRY_HEADER_SIZE + 8 * |ds| + |Datas(ds)| < 0x1_0000_0000
    ensures parts.Valid() && LoggedPages([parts]) == PagesOf(ds)
  {
    var b := WriteEntry(ds);
    parts := LogParts(PlainHeader(), [b], [ds], []);
    assert U32At(PlainHeader(), FILE_TYPE_OFFSET) == 1;
    assert Map(PagesOf, parts.pages) == [PagesOf(ds)];
    FlattenOne(PagesOf(ds));
    OneLog(parts);
  }

  /** Pages at the same places with other contents. */
  function Refilled(ds: seq<DirtyPage>, ps: seq<Page>): (r: seq<DirtyPage>)
    requires |ps| == |ds|
    ensures |r| == |ds| && forall i | 0 <= i < |ds| :: r[i] == DirtyPage(ds[i].offset, ps[i].bytes)
  {
    seq(|ds|, i requires 0 <= i < |ds| => DirtyPage(ds[i].offset, ps[i].bytes))
  }

  lemma {:induction false} RefilledSize(ds: seq<DirtyPage>, ps: seq<Page>)
    requires |ps| == |ds| && forall i | 0 <= i < |ds| :: |ps[i].bytes| == |ds[i].data|
    ensures |Datas(Refilled(ds, ps))| == |Datas(ds)|
  {
    if ds != [] {
      var n := |ds| - 1;
      RefilledSize(ds[..n], ps[..n]);
      assert Refilled(ds, ps)[..n] == Refilled(ds[..n], ps[..n]);
    }
  }

  lemma RefilledPages(ds: seq<DirtyPage>, ps: seq<Page>)
    requires |ps| == |ds| && RangesOf(ps) == RangesOf(PagesOf(ds))
    ensures PagesOf(Refilled(ds, ps)) == ps && forall i | 0 <= i < |ds| :: |ps[i].bytes| == |ds[i].data|
  {
    forall i | 0 <= i < |ds| ensures ps[i].offset == 4096 + ds[i].offset && |ps[i].bytes| == |ds[i].data| {
      assert RangesOf(ps)[i] == RangesOf(PagesOf(ds))[i];
    }
  }

  /** Where pages can be logged that leave a byte stale, there is a log with pages of these ranges, accepted by the
      replayer, whose overlay is not the patched hive. */
  lemma StaleLogDiffers(ds: seq<DirtyPage>, n: nat, x: nat) returns (base: Buf, log: Buf)
    requires ENTRY_HEADER_SIZE + 8 * |ds| + |Datas(ds)| < 0x1_0000_0000
    requires x < n && Stale(RangesOf(PagesOf(ds)), x)
    ensures |base| == n && Accepted(log) && AllAdvance([log]) && RangesOf(ReplayPages([log])) == RangesOf(PagesOf(ds))
    ensures Overlaid(base, ApplyAll(map[], ReplayPages([log]))) != PatchAll(base, ReplayPages([log]))
  {
    var ps;
    base, ps := StaleByteDiffers(RangesOf(PagesOf(ds)), n, x);
    RefilledPages(ds, ps);
    RefilledSize(ds, ps);
    var parts := LogOf(Refilled(ds, ps));
    log := parts.Log();
    LogAccepted(parts);
    assert LogsOf([parts]) == [log];
    ReplaysLogged([parts]);
  }

  /** A page of two bytes, then one of one byte at the same offset: the second byte is lost. */
  lemma ShorterPageLog() returns (base: Buf, log: Buf)
    ensures |base| == 4098 && Accepted(log) && AllAdvance([log])
    ensures RangesOf(ReplayPages([log])) == [Range(4096, 2), Range(4096, 1)]
    ensures Overlaid(base, ApplyAll(map[], ReplayPages([log]))) != PatchAll(base, ReplayPages([log]))
  {
    var ds := [DirtyPage(0, [0, 0]), DirtyPage(0, [0])];
    var rs := [Range(4096, 2), Range(4096, 1)];
    assert RangesOf(PagesOf(ds)) == rs;
    assert IsLastOver(rs, 0, 4097) && !IsLive(rs, 0) by {
      assert rs[1].offset == rs[0].offset;
    }
    TwoDatas(ds);
    base, log := StaleLogDiffers(ds, 4098, 4097);
  }

  /** A page of one byte, then one of two bytes that starts before it and covers it: the earlier page shows. */
  lemma HiddenPageLog() returns (base: Buf, log: Buf)
    ensures |base| == 4098 && Accepted(log) && AllAdvance([log])
    ensures RangesOf(ReplayPages([log])) == [Range(4097, 1), Range(4096, 2)]
    ensures Overlaid(base, ApplyAll(map[], ReplayPages([log]))) != PatchAll(base, ReplayPages([log]))
  {
    var ds := [DirtyPage(1, [0]), DirtyPage(0, [0, 0])];
    var rs := [Range(4097, 1), Range(4096, 2)];
    assert RangesOf(PagesOf(ds)) == rs;
    assert IsLastOver(rs, 1, 4097) && IsHidden(rs, 1, 4097) by {
      assert rs[0].Has(4097) && IsLive(rs, 0);
    }
    TwoDatas(ds);
    base, log := StaleLogDiffers(ds, 4098, 4097);
  }

  lemma TwoDatas(ds: seq<DirtyPage>)
    requires |ds| == 2
    ensures |Datas(ds)| == |ds[0].data| + |ds[1].data|
  {
    var first := ds[..|ds| - 1];
    assert |first| == 1 && first[0] == ds[0] && first[..|first| - 1] == [];
    assert |Datas(first)| == |ds[0].data|;
  }
}
