/** What replaying any logs yields, told by their bytes: where the entries are, which pages they refer to
    (`winreg-core/src/txlog.rs`). */
module LogBytes {
  import opened Bytes
  import opened Sequences
  import opened TxLog
  import opened LogFormat

  // ----- the entries of a log -----

  ghost predicate StartsEntry(log: Buf, p: nat) {
    p + 4 <= |log| && log[p] == 0x48 && log[p + 1] == 0x76 && log[p + 2] == 0x4C && log[p + 3] == 0x45
  }

  ghost predicate FullEntry(log: Buf, p: nat) {
    p + 40 <= |log| && StartsEntry(log, p)
  }

  /** The entries that the scan from `from` meets: the first one there is, then the first one from where its size
      leads. An entry cut off in its header ends the scan. */
  ghost predicate Entries(log: Buf, from: nat, ps: seq<nat>)
    decreases |ps|
  {
    if ps == [] then forall p: nat | from <= p :: !FullEntry(log, p)
    else
      && from <= ps[0] && FullEntry(log, ps[0]) && (forall p: nat | from <= p < ps[0] :: !FullEntry(log, p))
      && Entries(log, ps[0] + U32At(log, ps[0] + 4), ps[1..])
  }

  lemma SignatureThere(log: Buf, p: nat)
    ensures IsEntry(log, p) <==> StartsEntry(log, p)
  {
  }

  /** An entry of size 0 is met again and again. */
  lemma {:induction false} NoProgress(log: Buf, p: nat, ps: seq<nat>)
    requires FullEntry(log, p) && U32At(log, p + 4) == 0
    ensures !Entries(log, p, ps)
  {
    if ps != [] && ps[0] == p {
      NoProgress(log, p, ps[1..]);
    }
  }

  lemma NoEntryHere(log: Buf, from: nat, ps: seq<nat>)
    requires !FullEntry(log, from)
    ensures Entries(log, from, ps) <==> Entries(log, from + 1, ps)
  {
  }

  /** The scan ends exactly where there is such a list of entries, that is unless it meets one of size 0. */
  lemma {:induction false} AdvancesExact(log: Buf, from: nat)
    ensures Advances(log, from) <==> exists ps :: Entries(log, from, ps)
    decreases |log| - from
  {
    SignatureThere(log, from);
    if from + 40 > |log| {
      CutOff(log, from);
      var none: seq<nat> := [];
      assert Entries(log, from, none);
    } else if !IsEntry(log, from) {
      AdvancesExact(log, from + 1);
      LaterEntries(log, from, from + 1);
    } else if U32At(log, from + 4) == 0 {
      forall ps ensures !Entries(log, from, ps) {
        NoProgress(log, from, ps);
      }
    } else {
      AdvancesExact(log, from + U32At(log, from + 4));
      FirstEntry(log, from, from + U32At(log, from + 4));
    }
  }

  lemma LaterEntries(log: Buf, from: nat, later: nat)
    requires !FullEntry(log, from) && later == from + 1
    ensures (exists ps :: Entries(log, from, ps)) <==> exists ps :: Entries(log, later, ps)
  {
    if ps :| Entries(log, from, ps) {
      NoEntryHere(log, from, ps);
    }
    if ps :| Entries(log, later, ps) {
      NoEntryHere(log, from, ps);
    }
  }

  lemma FirstEntry(log: Buf, from: nat, next: nat)
    requires FullEntry(log, from) && next == from + U32At(log, from + 4)
    ensures (exists ps :: Entries(log, from, ps)) <==> exists qs :: Entries(log, next, qs)
  {
    if ps :| Entries(log, from, ps) {
      assert ps != [] && ps[0] == from && Entries(log, next, ps[1..]);
    }
    if qs :| Entries(log, next, qs) {
      assert ([from] + qs)[1..] == qs && Entries(log, from, [from] + qs);
    }
  }

  lemma {:induction false} CutOff(log: Buf, from: nat)
    requires from + 40 > |log|
    ensures Advances(log, from) && Entries(log, from, [])
    ensures LogPages(log, from) == []
    decreases |log| - from
  {
    if from + 4 <= |log| && !IsEntry(log, from) {
      CutOff(log, from + 1);
    }
  }

  // ----- the pages of an entry -----

  /** The sum of the first `n` sizes. */
  ghost function SizeSum(log: Buf, p: nat, n: nat): nat
    requires p + 40 + 8 * n <= |log|
  {
    if n == 0 then 0 else SizeSum(log, p, n - 1) + U32At(log, p + 40 + 8 * (n - 1) + 4)
  }

  /** Where the data of page `i` start: behind all references, after the data of the pages before it; the sum of their
      sizes is taken modulo 2^32. */
  ghost function DataStart(log: Buf, p: nat, i: nat): nat
    requires p + 40 + 8 * i <= |log|
  {
    p + 40 + 8 * U32At(log, p + 16) + SizeSum(log, p, i) % 0x1_0000_0000
  }

  /** The entry has an `i`-th reference, and both it and its page's data lie inside the log. */
  ghost predicate Refers(log: Buf, p: nat, i: nat) {
    && p + 40 + 8 * i + 8 <= |log| && i < U32At(log, p + 16)
    && DataStart(log, p, i) + U32At(log, p + 40 + 8 * i + 4) <= |log|
  }

  /** At the offset of the hive bins plus the stored one. */
  ghost predicate PageIs(log: Buf, p: nat, i: nat, page: Page) {
    && Refers(log, p, i) && page.offset == 4096 + U32At(log, p + 40 + 8 * i)
    && page.bytes == log[DataStart(log, p, i)..DataStart(log, p, i) + U32At(log, p + 40 + 8 * i + 4)]
  }

  ghost predicate PagesAre(log: Buf, p: nat, idx: seq<nat>, pages: seq<Page>) {
    |pages| == |idx| && forall k | 0 <= k < |idx| :: PageIs(log, p, idx[k], pages[k])
  }

  ghost predicate PagesAt(log: Buf, p: nat, idx: seq<nat>, pages: seq<Page>) {
    Lists(idx, set i: nat | i < |log| && Refers(log, p, i)) && PagesAre(log, p, idx, pages)
  }

  /** The pages of all such references, in order. */
  ghost predicate EntryYields(log: Buf, p: nat, pages: seq<Page>) {
    exists idx :: PagesAt(log, p, idx, pages)
  }

  lemma WrapAdd(a: nat, b: nat)
    ensures (a % 0x1_0000_0000 + b) % 0x1_0000_0000 == (a + b) % 0x1_0000_0000
  {
    var q := a / 0x1_0000_0000;
    assert a == a % 0x1_0000_0000 + 0x1_0000_0000 * q;
    WrapMultiple(a % 0x1_0000_0000 + b, q);
  }

  lemma {:induction false} SumWraps(log: Buf, p: nat, n: nat)
    requires p + 40 + 8 * n <= |log|
    ensures SizesBefore(log, p + 40, n) as int == SizeSum(log, p, n) % 0x1_0000_0000
  {
    if n > 0 {
      SumWraps(log, p, n - 1);
      WrapAdd(SizeSum(log, p, n - 1), U32At(log, p + 40 + 8 * (n - 1) + 4));
    }
  }

  lemma PageReferred(log: Buf, p: nat, i: nat, ps: seq<Page>)
    requires p + 40 + 8 * i + 8 <= |log| && i < U32At(log, p + 16)
    requires ps == ReferencedPage(log, p + 40, U32At(log, p + 16), i)
    ensures if Refers(log, p, i) then |ps| == 1 && PageIs(log, p, i, ps[0]) else ps == []
  {
    SumWraps(log, p, i);
  }

  ghost predicate ReferredFrom(log: Buf, p: nat, i: nat, idx: seq<nat>) {
    Ascends(idx) && forall j: nat :: j in idx <==> i <= j && Refers(log, p, j)
  }

  lemma ReferredFirst(log: Buf, p: nat, i: nat, idx: seq<nat>)
    requires ReferredFrom(log, p, i + 1, idx)
    ensures ReferredFrom(log, p, i, if Refers(log, p, i) then [i] + idx else idx)
  {
    if Refers(log, p, i) {
      assert forall k | 0 <= k < |idx| :: idx[k] in idx;
      forall j: nat ensures j in [i] + idx <==> i <= j && Refers(log, p, j) {
        assert j in [i] + idx <==> j == i || j in idx;
      }
    }
  }

  lemma PagesFirst(log: Buf, p: nat, i: nat, idx: seq<nat>, first: seq<Page>, rest: seq<Page>)
    requires PagesAre(log, p, idx, rest)
    requires if Refers(log, p, i) then |first| == 1 && PageIs(log, p, i, first[0]) else first == []
    ensures PagesAre(log, p, if Refers(log, p, i) then [i] + idx else idx, first + rest)
  {
    if Refers(log, p, i) {
      var jdx, pages := [i] + idx, first + rest;
      forall k | 0 <= k < |jdx| ensures PageIs(log, p, jdx[k], pages[k]) {
        if k > 0 {
          assert jdx[k] == idx[k - 1] && pages[k] == rest[k - 1];
        }
      }
    } else {
      assert first + rest == rest;
    }
  }

  lemma {:induction false} ReferredPages(log: Buf, p: nat, count: nat, i: nat) returns (idx: seq<nat>)
    requires p + 40 <= |log| && count == U32At(log, p + 16)
    ensures ReferredFrom(log, p, i, idx) && PagesAre(log, p, idx, EntryPages(log, p + 40, count, i))
    decreases count - i
  {
    if i >= count || p + 40 + 8 * i + 8 > |log| {
      idx := [];
    } else {
      var later := ReferredPages(log, p, count, i + 1);
      var first := ReferencedPage(log, p + 40, count, i);
      PageReferred(log, p, i, first);
      idx := ReferredNext(log, p, i, later, first, EntryPages(log, p + 40, count, i + 1));
    }
  }

  lemma ReferredNext(log: Buf, p: nat, i: nat, idx: seq<nat>, first: seq<Page>, rest: seq<Page>) returns (jdx: seq<nat>)
    requires ReferredFrom(log, p, i + 1, idx) && PagesAre(log, p, idx, rest)
    requires if Refers(log, p, i) then |first| == 1 && PageIs(log, p, i, first[0]) else first == []
    ensures ReferredFrom(log, p, i, jdx) && PagesAre(log, p, jdx, first + rest)
  {
    ReferredFirst(log, p, i, idx);
    PagesFirst(log, p, i, idx, first, rest);
    jdx := if Refers(log, p, i) then [i] + idx else idx;
  }

  lemma EntryExact(log: Buf, p: nat)
    requires p + 40 <= |log|
    ensures EntryYields(log, p, EntryPages(log, p + 40, U32At(log, p + 16), 0))
  {
    var idx := ReferredPages(log, p, U32At(log, p + 16), 0);
    assert forall i: nat | Refers(log, p, i) :: i < |log|;
    assert PagesAt(log, p, idx, EntryPages(log, p + 40, U32At(log, p + 16), 0));
  }

  // ----- the pages of a log -----

  ghost predicate EntriesYield(log: Buf, ps: seq<nat>, parts: seq<seq<Page>>) {
    |parts| == |ps| && forall k | 0 <= k < |ps| :: EntryYields(log, ps[k], parts[k])
  }

  /** Entry by entry, what the entries from the end of the header on yield. */
  ghost predicate LogYields(log: Buf, pages: seq<Page>) {
    exists ps, parts :: Entries(log, 512, ps) && EntriesYield(log, ps, parts) && pages == Flatten(parts)
  }

  lemma ScanEntry(log: Buf, from: nat, qs: seq<nat>, first: seq<Page>, rest: seq<seq<Page>>)
    requires FullEntry(log, from) && EntryYields(log, from, first)
    requires Entries(log, from + U32At(log, from + 4), qs) && EntriesYield(log, qs, rest)
    ensures Entries(log, from, [from] + qs) && EntriesYield(log, [from] + qs, [first] + rest)
    ensures Flatten([first] + rest) == first + Flatten(rest)
  {
    var ps, parts := [from] + qs, [first] + rest;
    assert ps[1..] == qs && parts[1..] == rest;
    forall k | 0 <= k < |ps| ensures EntryYields(log, ps[k], parts[k]) {
      if k > 0 {
        assert ps[k] == qs[k - 1] && parts[k] == rest[k - 1];
      }
    }
  }

  lemma PagesSkipped(log: Buf, from: nat)
    requires from + 40 <= |log| && !IsEntry(log, from) && Advances(log, from)
    ensures Advances(log, from + 1) && LogPages(log, from) == LogPages(log, from + 1)
  {
  }

  lemma PagesHere(log: Buf, from: nat) returns (next: nat, first: seq<Page>)
    requires from + 40 <= |log| && IsEntry(log, from) && Advances(log, from)
    ensures next == from + U32At(log, from + 4) && next > from && EntryYields(log, from, first)
    ensures Advances(log, next) && LogPages(log, from) == first + LogPages(log, next)
  {
    next, first := from + U32At(log, from + 4), EntryPages(log, from + 40, U32At(log, from + 16), 0);
    EntryExact(log, from);
  }

  lemma {:induction false} ScanExact(log: Buf, from: nat) returns (ps: seq<nat>, parts: seq<seq<Page>>)
    requires Advances(log, from)
    ensures Entries(log, from, ps) && EntriesYield(log, ps, parts) && LogPages(log, from) == Flatten(parts)
    decreases |log| - from
  {
    SignatureThere(log, from);
    if from + 40 > |log| {
      ps, parts := [], [];
      CutOff(log, from);
    } else if !IsEntry(log, from) {
      PagesSkipped(log, from);
      ps, parts := ScanExact(log, from + 1);
      NoEntryHere(log, from, ps);
    } else {
      var next, first := PagesHere(log, from);
      var qs, rest := ScanExact(log, next);
      ScanEntry(log, from, qs, first, rest);
      ps, parts := [from] + qs, [first] + rest;
    }
  }

  // ----- the pages of a replay -----

  /** At least 512 bytes, starting with `regf`, of file type 1 or 6. */
  ghost predicate Accepted(log: Buf) {
    && |log| >= 512 && log[0] == 0x72 && log[1] == 0x65 && log[2] == 0x67 && log[3] == 0x66
    && (U32At(log, 0x1C) == 1 || U32At(log, 0x1C) == 6)
  }

  lemma AcceptedExact(log: Buf)
    ensures IsLog(log) <==> Accepted(log)
  {
  }

  ghost predicate LogsYield(logs: seq<Buf>, parts: seq<seq<Page>>) {
    |parts| == |logs| && forall i | 0 <= i < |logs| ::
                           if Accepted(logs[i]) then LogYields(logs[i], parts[i]) else parts[i] == []
  }

  /** Log by log, what the accepted logs yield; from any other log comes nothing. */
  ghost predicate ReplayYields(logs: seq<Buf>, pages: seq<Page>) {
    exists parts :: LogsYield(logs, parts) && pages == Flatten(parts)
  }

  lemma LogExact(log: Buf)
    requires Advances(log, 512)
    ensures LogYields(log, LogPages(log, 512))
  {
    var ps, parts := ScanExact(log, 512);
  }

  lemma OneLogExact(log: Buf) returns (part: seq<Page>)
    requires IsLog(log) ==> Advances(log, 512)
    ensures part == if IsLog(log) then LogPages(log, 512) else []
    ensures if Accepted(log) then LogYields(log, part) else part == []
  {
    AcceptedExact(log);
    part := [];
    if IsLog(log) {
      part := LogPages(log, 512);
      LogExact(log);
    }
  }

  lemma LogsMore(logs: seq<Buf>, before: seq<seq<Page>>, last: seq<Page>) returns (parts: seq<seq<Page>>)
    requires logs != [] && LogsYield(logs[..|logs| - 1], before)
    requires if Accepted(logs[|logs| - 1]) then LogYields(logs[|logs| - 1], last) else last == []
    ensures LogsYield(logs, parts) && Flatten(parts) == Flatten(before) + last
  {
    parts := before + [last];
    FlattenAppend(before, [last]);
    FlattenOne(last);
    forall i | 0 <= i < |logs| ensures if Accepted(logs[i]) then LogYields(logs[i], parts[i]) else parts[i] == [] {
      assert i < |logs| - 1 ==> logs[..|logs| - 1][i] == logs[i];
    }
  }

  lemma {:induction false} LogsExact(logs: seq<Buf>) returns (parts: seq<seq<Page>>)
    requires AllAdvance(logs)
    ensures LogsYield(logs, parts) && ReplayPages(logs) == Flatten(parts)
  {
    parts := [];
    if logs != [] {
      var n := |logs| - 1;
      var before := LogsExact(logs[..n]);
      var last := OneLogExact(logs[n]);
      parts := LogsMore(logs, before, last);
    }
  }

  lemma ReplayPagesExact(logs: seq<Buf>)
    requires AllAdvance(logs)
    ensures ReplayYields(logs, ReplayPages(logs))
  {
    var parts := LogsExact(logs);
  }

  // ----- the page map of a replay -----

  ghost predicate LastAt(pages: seq<Page>, i: nat) {
    i < |pages| && forall k | i < k < |pages| :: pages[k].offset != pages[i].offset
  }

  /** For each offset the page that comes last there, and nothing else. */
  ghost predicate HoldsLast(dirty: Pages, pages: seq<Page>) {
    && (forall start | start in dirty :: exists i: nat :: LastAt(pages, i) && pages[i].offset == start)
    && forall i: nat | LastAt(pages, i) :: pages[i].offset in dirty && dirty[pages[i].offset] == pages[i].bytes
  }

  lemma AppliedHolds(pages: seq<Page>)
    ensures HoldsLast(ApplyAll(map[], pages), pages)
  {
    var dirty, rs := ApplyAll(map[], pages), RangesOf(pages);
    forall i: nat | i < |pages| ensures LastAt(pages, i) <==> IsLive(rs, i) {
      assert forall k | i < k < |pages| :: rs[k].offset == pages[k].offset;
    }
    forall start | start in dirty ensures exists i: nat :: LastAt(pages, i) && pages[i].offset == start {
      ApplyAllAt(pages, start);
      var i: nat :| i < |pages| && pages[i].offset == start && IsLive(rs, i) && dirty[start] == pages[i].bytes;
      assert LastAt(pages, i);
    }
    forall i: nat | LastAt(pages, i) ensures pages[i].offset in dirty && dirty[pages[i].offset] == pages[i].bytes {
      LiveIsHeld(pages, i);
    }
  }
}
