/** What the log reader takes from a transaction log: entries and the pages they refer to (`winreg-core/src/txlog.rs`),
    in the entry layout that code reads. */
module LogFormat {
  import opened Bytes
  import opened Header
  import opened TxLog

  const LOG_HEADER_SIZE: nat := 512
  const FILE_TYPE_OFFSET: nat := 0x1C
  const ENTRY_HEADER_SIZE: nat := 40

  // ----- the pages a log yields -----

  /** The sum of the sizes of the first `n` page references, as the release build's wrapping `u32` sum. */
  function SizesBefore(log: Buf, refStart: nat, n: nat): u32
    requires n > 0 ==> refStart + 8 * n <= |log|
  {
    if n == 0 then 0
    else (SizesBefore(log, refStart, n - 1) + U32At(log, refStart + 8 * (n - 1) + 4)) % 0x1_0000_0000
  }

  /** The pages referenced from index `i` on: a reference past the end of the log ends the list, a page
      whose data would run past the end is skipped. */
  function EntryPages(log: Buf, refStart: nat, count: nat, i: nat): seq<Page>
    decreases count - i
  {
    if i >= count || refStart + 8 * i + 8 > |log| then []
    else ReferencedPage(log, refStart, count, i) + EntryPages(log, refStart, count, i + 1)
  }

  predicate IsEntry(log: Buf, pos: nat) {
    HasSignature(log, pos, "HvLE")
  }

  /** The scan from `pos` never meets an entry of size 0, at which the source's scan would stay forever. */
  predicate Advances(log: Buf, pos: nat)
    decreases |log| - pos
  {
    if pos + 4 > |log| then true
    else if !IsEntry(log, pos) then Advances(log, pos + 1)
    else pos + ENTRY_HEADER_SIZE <= |log| ==> U32At(log, pos + 4) > 0 && Advances(log, pos + U32At(log, pos + 4))
  }

  function LogPages(log: Buf, pos: nat): seq<Page>
    requires Advances(log, pos)
    decreases |log| - pos
  {
    if pos + 4 > |log| then []
    else if !IsEntry(log, pos) then LogPages(log, pos + 1)
    else if pos + ENTRY_HEADER_SIZE > |log| then []
    else EntryPages(log, pos + ENTRY_HEADER_SIZE, U32At(log, pos + 16), 0) + LogPages(log, pos + U32At(log, pos + 4))
  }

  /** The page that reference `i` points at, if its data lies inside the log. */
  function ReferencedPage(log: Buf, refStart: nat, count: nat, i: nat): seq<Page>
    requires i < count && refStart + 8 * i + 8 <= |log|
  {
    var dataOffset := refStart + 8 * count + SizesBefore(log, refStart, i);
    var dataEnd := dataOffset + U32At(log, refStart + 8 * i + 4);
    if dataEnd <= |log| then [Page(4096 + U32At(log, refStart + 8 * i), log[dataOffset..dataEnd])] else []
  }

  /** Long enough, with a hive signature and a transaction log file type; other logs are ignored. */
  predicate IsLog(log: Buf) {
    |log| >= LOG_HEADER_SIZE && HasSignature(log, 0, "regf") && U32At(log, FILE_TYPE_OFFSET) in {1, 6}
  }

  predicate AllAdvance(logs: seq<Buf>) {
    forall i | 0 <= i < |logs| && IsLog(logs[i]) :: Advances(logs[i], LOG_HEADER_SIZE)
  }

  function ReplayPages(logs: seq<Buf>): seq<Page>
    requires AllAdvance(logs)
  {
    if logs == [] then []
    else ReplayPages(logs[..|logs| - 1]) + (if IsLog(logs[|logs| - 1]) then LogPages(logs[|logs| - 1],
           LOG_HEADER_SIZE) else [])
  }
}
