/** When bytes open as a hive and which cells can be read from them, told by the bytes (`winreg-core/src/hive.rs`,
    `winreg-format/src/header.rs`). */
module HiveBytes {
  import opened Wrappers
  import opened Bytes
  import opened Header
  import opened Hives

  // ----- the bins -----

  ghost predicate SignedBin(data: Buf, pos: nat) {
    && pos + 32 <= |data|
    && data[pos] == 0x68 && data[pos + 1] == 0x62 && data[pos + 2] == 0x69 && data[pos + 3] == 0x6E
  }

  /** A bin's header: its signature, its offset among the bins, and a size in whole pages. */
  ghost predicate IsBin(data: Buf, bin: HbinDescriptor) {
    && SignedBin(data, bin.fileOffset)
    && bin.offset == U32At(data, bin.fileOffset + 4) && bin.size == U32At(data, bin.fileOffset + 8)
    && bin.size >= 4096 && bin.size % 4096 == 0
  }

  /** The bins lie one behind the other from `start` on without a gap, up to `stop`. */
  ghost predicate BinsFill(data: Buf, start: nat, end: nat, bins: seq<HbinDescriptor>, stop: nat) {
    && (forall i | 0 <= i < |bins| :: IsBin(data, bins[i]) && bins[i].fileOffset < end)
    && (bins == [] ==> stop == start)
    && (bins != [] ==> bins[0].fileOffset == start && stop == bins[|bins| - 1].fileOffset + bins[|bins| - 1].size)
    && forall i | 0 < i < |bins| :: bins[i].fileOffset == bins[i - 1].fileOffset + bins[i - 1].size
  }

  /** The walk ends here: at the end of the range or of the data, or at a size that is zero or not in whole pages. */
  ghost predicate EndsAt(data: Buf, end: nat, stop: nat) {
    || stop >= end || stop + 32 > |data|
    || (SignedBin(data, stop) && (U32At(data, stop + 8) == 0 || U32At(data, stop + 8) % 4096 != 0))
  }

  /** There is no bin where one has to be. */
  ghost predicate BreaksAt(data: Buf, end: nat, stop: nat) {
    stop < end && stop + 32 <= |data| && !SignedBin(data, stop)
  }

  lemma FirstBinFills(data: Buf, start: nat, end: nat, bin: HbinDescriptor, rest: seq<HbinDescriptor>, stop: nat)
    requires IsBin(data, bin) && bin.fileOffset == start < end && BinsFill(data, start + bin.size, end, rest, stop)
    ensures BinsFill(data, start, end, [bin] + rest, stop)
  {
  }

  ghost predicate BinHere(data: Buf, start: nat, end: nat) {
    start < end && SignedBin(data, start) && U32At(data, start + 8) != 0 && U32At(data, start + 8) % 4096 == 0
  }

  lemma NoBinHere(data: Buf, start: nat, end: nat)
    requires !BinHere(data, start, end)
    ensures if BreaksAt(data, end, start) then BinsFrom(data, start, end) == Err(InvalidHbin(start))
            else BinsFrom(data, start, end) == Ok([]) && EndsAt(data, end, start)
  {
  }

  ghost predicate StopsAt(data: Buf, end: nat, stop: nat) {
    EndsAt(data, end, stop) || BreaksAt(data, end, stop)
  }

  ghost function Outcome(data: Buf, end: nat, bins: seq<HbinDescriptor>, stop: nat): Result<seq<HbinDescriptor>> {
    if BreaksAt(data, end, stop) then Err(InvalidHbin(stop)) else Ok(bins)
  }

  lemma FirstBin(data: Buf, start: nat, end: nat) returns (bin: HbinDescriptor)
    requires BinHere(data, start, end)
    ensures IsBin(data, bin) && bin.fileOffset == start
    ensures var later := BinsFrom(data, start + bin.size, end);
            BinsFrom(data, start, end) == if later.Err? then later else Ok([bin] + later.value)
  {
    bin := HbinDescriptor(U32At(data, start + 4), U32At(data, start + 8), start);
  }

  lemma {:induction false} BinsWalk(data: Buf, start: nat, end: nat) returns (bins: seq<HbinDescriptor>, stop: nat)
    ensures BinsFill(data, start, end, bins, stop) && StopsAt(data, end, stop)
    ensures BinsFrom(data, start, end) == Outcome(data, end, bins, stop)
    decreases |data| - start
  {
    if BinHere(data, start, end) {
      var bin := FirstBin(data, start, end);
      var rest;
      rest, stop := BinsWalk(data, start + bin.size, end);
      bins := [bin] + rest;
      FirstBinFills(data, start, end, bin, rest, stop);
    } else {
      bins, stop := [], start;
      NoBinHere(data, start, end);
    }
  }

  /** What the walk finds: bins without a gap up to where it ends, or the place where one is missing. */
  lemma {:induction false} BinsExact(data: Buf, start: nat, end: nat) returns (bins: seq<HbinDescriptor>, stop: nat)
    ensures BinsFill(data, start, end, bins, stop)
    ensures match BinsFrom(data, start, end)
            case Ok(found) => found == bins && EndsAt(data, end, stop)
            case Err(e) => e == InvalidHbin(stop) && BreaksAt(data, end, stop)
  {
    bins, stop := BinsWalk(data, start, end);
  }

  /** There is only one such list. */
  lemma {:induction false} BinsOnce(data: Buf, start: nat, end: nat, a: seq<HbinDescriptor>, b: seq<HbinDescriptor>,
                                    stopA: nat, stopB: nat)
    requires BinsFill(data, start, end, a, stopA) && (EndsAt(data, end, stopA) || BreaksAt(data, end, stopA))
    requires BinsFill(data, start, end, b, stopB) && (EndsAt(data, end, stopB) || BreaksAt(data, end, stopB))
    ensures a == b && stopA == stopB
    decreases |a|
  {
    if a != [] && b != [] {
      RestFills(data, start, end, a, stopA);
      RestFills(data, start, end, b, stopB);
      BinsOnce(data, start + a[0].size, end, a[1..], b[1..], stopA, stopB);
    }
  }

  lemma RestFills(data: Buf, start: nat, end: nat, bins: seq<HbinDescriptor>, stop: nat)
    requires BinsFill(data, start, end, bins, stop) && bins != []
    ensures bins[0] == HbinDescriptor(U32At(data, start + 4), U32At(data, start + 8), start)
    ensures BinsFill(data, start + bins[0].size, end, bins[1..], stop)
  {
  }

  // ----- the checksum -----

  function Bit(n: nat, k: nat): nat { if k == 0 then n % 2 else Bit(n / 2, k - 1) }

  /** How many of the first `n` words have bit `k` set. */
  ghost function Ones(h: Buf, n: nat, k: nat): nat
    requires 4 * n <= |h|
  {
    if n == 0 then 0 else Ones(h, n - 1, k) + Bit(U32At(h, 4 * (n - 1)), k)
  }

  lemma {:induction false} XorBit(a: nat, b: nat, k: nat)
    ensures Bit(a, k) <= 1 && Bit(b, k) <= 1 && Bit(Xor(a, b), k) == (Bit(a, k) + Bit(b, k)) % 2
    decreases k
  {
    XorHalves(a, b);
    if k > 0 {
      XorBit(a / 2, b / 2, k - 1);
    }
  }

  lemma {:induction false} SumBit(h: Buf, n: nat, k: nat)
    requires 4 * n <= |h|
    ensures Bit(RawSum(h, n), k) == Ones(h, n, k) % 2
  {
    if n > 0 {
      SumBit(h, n - 1, k);
      XorBit(RawSum(h, n - 1), U32At(h, 4 * (n - 1)), k);
    } else {
      ZeroBit(k);
    }
  }

  lemma {:induction false} ZeroBit(k: nat)
    ensures Bit(0, k) == 0
  {
    if k > 0 {
      ZeroBit(k - 1);
    }
  }

  /** `sum` has exactly the bits that an odd number of the 127 words in front of the checksum have. */
  ghost predicate IsSum(h: Buf, sum: u32)
    requires |h| >= 508
  {
    forall k: nat :: Bit(sum, k) == Ones(h, 127, k) % 2
  }

  /** The sum of the words before 508, except for the two sums that are stored differently. */
  ghost predicate ChecksumIs(h: Buf, c: nat)
    requires |h| >= 512
  {
    exists sum: u32 :: IsSum(h, sum) && c == if sum == 0 then 1 else if sum == 0xFFFF_FFFF then 0xFFFF_FFFE else sum
  }

  ghost predicate ChecksumHolds(h: Buf)
    requires |h| >= 512
  {
    ChecksumIs(h, U32At(h, 508))
  }

  lemma {:induction false} SameBits(a: nat, b: nat)
    requires forall k: nat :: Bit(a, k) == Bit(b, k)
    ensures a == b
    decreases a + b
  {
    if a != 0 || b != 0 {
      forall k: nat ensures Bit(a / 2, k) == Bit(b / 2, k) {
        assert Bit(a, k + 1) == Bit(b, k + 1);
      }
      assert Bit(a, 0) == Bit(b, 0);
      SameBits(a / 2, b / 2);
    }
  }

  lemma ChecksumExact(h: Buf)
    requires |h| >= 512
    ensures forall c: nat :: ChecksumIs(h, c) <==> c == Checksum(h)
    ensures ValidChecksum(h) <==> ChecksumHolds(h)
  {
    var raw := RawSum(h, 127);
    forall k: nat ensures Bit(raw, k) == Ones(h, 127, k) % 2 {
      SumBit(h, 127, k);
    }
    forall sum: u32 | IsSum(h, sum) ensures sum == raw {
      SameBits(sum, raw);
    }
    assert IsSum(h, raw);
  }

  // ----- opening -----

  ghost predicate SignedHive(data: Buf) {
    |data| >= 4096 && data[0] == 0x72 && data[1] == 0x65 && data[2] == 0x67 && data[3] == 0x66
  }

  /** The fields that are read from the base block. */
  ghost predicate HeaderIs(data: Buf, b: BaseBlock)
    requires |data| >= 4096
  {
    && b.primarySequence == U32At(data, 4) && b.secondarySequence == U32At(data, 8)
    && b.minorVersion == U32At(data, 0x18) && b.fileType == U32At(data, 0x1C)
    && b.rootCellOffset == U32At(data, 0x24) && b.hiveBinsDataSize == U32At(data, 0x28)
  }

  /** The bins behind the base block, as many as their total size tells to look for. */
  ghost predicate BinsFound(data: Buf, size: u32, bins: seq<HbinDescriptor>, stop: nat) {
    BinsFill(data, 4096, 4096 + size, bins, stop) && EndsAt(data, 4096 + size, stop)
  }

  ghost predicate BinMissing(data: Buf, size: u32, bins: seq<HbinDescriptor>, stop: nat) {
    BinsFill(data, 4096, 4096 + size, bins, stop) && BreaksAt(data, 4096 + size, stop)
  }

  ghost predicate OpensAs(data: Buf, h: Hive) {
    && SignedHive(data) && ChecksumHolds(data) && U32At(data, 0x18) <= 6
    && h.data == data && HeaderIs(data, h.header)
    && exists stop :: BinsFound(data, U32At(data, 0x28), h.bins, stop)
  }

  /** The first thing that is wrong. */
  ghost predicate RefusedFor(data: Buf, e: HiveError) {
    if |data| < 4096 then e == TruncatedHive
    else if !SignedHive(data) then e == InvalidSignature
    else if !ChecksumHolds(data) then
      e.ChecksumMismatch? && e.expected == U32At(data, 508) && ChecksumIs(data, e.computed)
    else if U32At(data, 0x18) > 6 then e == UnsupportedVersion(U32At(data, 0x18))
    else e.InvalidHbin? && exists bins :: BinMissing(data, U32At(data, 0x28), bins, e.fileOffset)
  }

  lemma OpeningExact(data: Buf)
    ensures match FromBytes(data)
            case Ok(h) => OpensAs(data, h)
            case Err(e) => RefusedFor(data, e)
  {
    if |data| >= 4096 {
      ChecksumExact(data);
      var bins, stop := BinsExact(data, 4096, 4096 + U32At(data, 0x28));
      assert BinsFound(data, U32At(data, 0x28), bins, stop) || BinMissing(data, U32At(data, 0x28), bins, stop);
    }
  }

  lemma BinsFoundOnce(data: Buf, start: nat, end: nat, bins: seq<HbinDescriptor>, stop: nat)
    requires BinsFill(data, start, end, bins, stop) && EndsAt(data, end, stop)
    ensures BinsFrom(data, start, end) == Ok(bins)
  {
    var found, at := BinsExact(data, start, end);
    BinsOnce(data, start, end, bins, found, stop, at);
  }

  lemma SameHeader(a: BaseBlock, b: BaseBlock, data: Buf)
    requires |data| >= 4096 && HeaderIs(data, a) && HeaderIs(data, b)
    ensures a == b
  {
  }

  /** The bytes open as one hive only. */
  lemma OpensOnce(data: Buf, h: Hive)
    requires OpensAs(data, h)
    ensures FromBytes(data) == Ok(h)
  {
    var end: nat := 4096 + U32At(data, 0x28);
    var stop :| BinsFound(data, U32At(data, 0x28), h.bins, stop);
    BinsFoundOnce(data, 4096, end, h.bins, stop);
    ChecksumExact(data);
    SameHeader(ParseBaseBlock(data).value, h.header, data);
  }

  // ----- cells -----

  /** An allocated cell at this offset behind the base block: a size field with the sign bit set, then the body. */
  ghost predicate CellHere(data: Buf, offset: u32, c: RawCell) {
    && offset != 0xFFFF_FFFF && 4096 + offset + 4 <= |data|
    && var u, at := U32At(data, 4096 + offset), 4096 + offset as nat;
       && 0x8000_0000 <= u <= 0xFFFF_FFFC && at + (0x1_0000_0000 - u) <= |data|
       && c.header.rawSize == u - 0x1_0000_0000 && c.body == data[at + 4..at + (0x1_0000_0000 - u)]
  }

  ghost predicate CellRefused(data: Buf, offset: u32, e: HiveError) {
    if offset == 0xFFFF_FFFF then e == NullOffset
    else if 4096 + offset + 4 > |data| then e == CellOverflow(offset)
    else
      var u := U32At(data, 4096 + offset);
      if u < 0x8000_0000 then e == UnallocatedCell(offset)
      else if 4096 + offset + (0x1_0000_0000 - u) > |data| then e == CellOverflow(offset)
      else u > 0xFFFF_FFFC && e == SlicePanic(offset)
  }

  /** Which cells can be read, and what refuses the others. */
  lemma CellExact(data: Buf, offset: u32)
    ensures match ReadCellRaw(data, offset)
            case Ok(c) => CellHere(data, offset, c)
            case Err(e) => CellRefused(data, offset, e)
  {
  }
}
