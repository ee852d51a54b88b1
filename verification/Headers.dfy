/** The last steps of a build: the free tail, the hbin header and the base block
    (`TestHiveBuilder::build`, steps 5 and 6, in `winreg-testutil/src/lib.rs`). */
module Headers {
  import opened Wrappers
  import opened Bytes
  import opened Header
  import opened Hives
  import opened Records
  import opened Allocation
  import opened Images

  /** Only bytes before or after `lo..hi` have changed. */
  ghost predicate KeepsRange(before: Buf, after: Buf, lo: nat, hi: nat) {
    |before| == |after| && forall i | lo <= i < hi && i < |before| :: after[i] == before[i]
  }

  /** The cells only depend on the stretch that they fill. */
  lemma {:induction false} CellsKept(s: Buf, r: Buf, cells: seq<AllocatedCell>, end: nat, bodies: seq<Buf>)
    requires Tiled(cells, end) && Holds(s, cells, bodies) && SizesHold(s, cells)
    requires KeepsRange(s, r, BASE_SIZE + HBIN_DATA, BASE_SIZE + HBIN_DATA + end)
    ensures Holds(r, cells, bodies) && SizesHold(r, cells)
  {
    if cells != [] {
      var n := |cells| - 1;
      var c := cells[n];
      CellsKept(s, r, cells[..n], c.offset, bodies[..n]);
      assert r[BodyPos(c)..BodyPos(c) + |bodies[n]|] == s[BodyPos(c)..BodyPos(c) + |bodies[n]|];
    }
  }

  const REGF: Buf := ['r' as int, 'e' as int, 'g' as int, 'f' as int]
  const HBIN: Buf := ['h' as int, 'b' as int, 'i' as int, 'n' as int]

  // ----- the base block -----

  /** What opening a hive looks at in the base block, but for the checksum. */
  ghost predicate BaseFields(s: Buf, root: u32, binsSize: u32) {
    && |s| >= BASE_SIZE
    && HasSignature(s, 0, "regf") && U32At(s, 0x18) == 5 && U32At(s, 0x24) == root && U32At(s, 0x28) == binsSize
  }

  method WriteBaseFields(buf: array<byte>, root: u32, binsSize: u32)
    requires buf.Length >= BASE_SIZE
    modifies buf
    ensures KeepsRange(old(buf[..]), buf[..], BASE_SIZE, buf.Length)
    ensures BaseFields(buf[..], root, binsSize)
  {
    ghost var s0 := buf[..];
    WriteAt(buf, 0, REGF);
    WriteU32(buf, 0x04, 1);
    WriteU32(buf, 0x08, 1);
    WriteU32(buf, 0x14, 1);
    ghost var s1 := buf[..];
    assert HasSignature(s1, 0, "regf");
    WriteU32(buf, 0x18, 5);
    Put32Read(s1, 0x18, 5);
    WriteU32(buf, 0x20, 1);
    ghost var s2 := buf[..];
    WriteU32(buf, 0x24, root);
    Put32Read(s2, 0x24, root);
    ghost var s3 := buf[..];
    WriteU32(buf, 0x28, binsSize);
    Put32Read(s3, 0x28, binsSize);
    ghost var s4 := buf[..];
    WriteU32(buf, 0x2C, 1);
  }

  lemma {:induction false} ChecksumStored(s: Buf)
    requires |s| >= BASE_SIZE
    ensures ValidChecksum(Put32(s, CHECKSUM_OFFSET, Checksum(s)))
  {
    var r := Put32(s, CHECKSUM_OFFSET, Checksum(s));
    Put32Read(s, CHECKSUM_OFFSET, Checksum(s));
    forall k | 0 <= k < SUMMED_WORDS ensures U32At(s, 4 * k) == U32At(r, 4 * k) {
      Put32Elsewhere(s, CHECKSUM_OFFSET, Checksum(s), 4 * k);
    }
    RawSumFrame(s, r, SUMMED_WORDS);
  }

  lemma {:induction false} ChecksumApart(s: Buf, root: u32, binsSize: u32, x: u32)
    requires BaseFields(s, root, binsSize)
    ensures BaseFields(Put32(s, CHECKSUM_OFFSET, x), root, binsSize)
  {
    Put32Elsewhere(s, CHECKSUM_OFFSET, x, 0x18);
    Put32Elsewhere(s, CHECKSUM_OFFSET, x, 0x24);
    Put32Elsewhere(s, CHECKSUM_OFFSET, x, 0x28);
  }

  method WriteBaseBlock(buf: array<byte>, root: u32, binsSize: u32)
    requires buf.Length >= BASE_SIZE
    modifies buf
    ensures KeepsRange(old(buf[..]), buf[..], BASE_SIZE, buf.Length)
    ensures BaseFields(buf[..], root, binsSize) && ValidChecksum(buf[..])
  {
    WriteBaseFields(buf, root, binsSize);
    ghost var s := buf[..];
    var checksum := ComputeChecksum(buf[..]);
    ChecksumStored(s);
    ChecksumApart(s, root, binsSize, checksum);
    WriteU32(buf, CHECKSUM_OFFSET, checksum);
  }

  // ----- the bin -----

  ghost predicate BinFields(s: Buf, binSize: u32) {
    && |s| >= BASE_SIZE + HBIN_DATA
    && HasSignature(s, BASE_SIZE, "hbin") && U32At(s, BASE_SIZE + 4) == 0 && U32At(s, BASE_SIZE + 8) == binSize
  }

  method WriteBinHeader(buf: array<byte>, binSize: u32)
    requires buf.Length >= BASE_SIZE + HBIN_DATA
    modifies buf
    ensures KeepsRange(old(buf[..]), buf[..], BASE_SIZE + HBIN_DATA, buf.Length) && BinFields(buf[..], binSize)
  {
    WriteAt(buf, BASE_SIZE, HBIN);
    ghost var s1 := buf[..];
    assert HasSignature(s1, BASE_SIZE, "hbin");
    WriteU32(buf, BASE_SIZE + 4, 0);
    Put32Read(s1, BASE_SIZE + 4, 0);
    ghost var s2 := buf[..];
    WriteU32(buf, BASE_SIZE + 8, binSize);
    Put32Read(s2, BASE_SIZE + 8, binSize);
    Put32Elsewhere(s2, BASE_SIZE + 8, binSize, BASE_SIZE + 4);
  }

  lemma {:induction false} BinKept(s: Buf, r: Buf, binSize: u32)
    requires BinFields(s, binSize) && KeepsRange(s, r, BASE_SIZE, |s|)
    ensures BinFields(r, binSize)
  {
  }

  // ----- opening -----

  lemma {:induction false} OneBin(s: Buf, binSize: u32)
    requires BinFields(s, binSize) && |s| == BASE_SIZE + binSize && binSize % 4096 == 0 && binSize > 0
    ensures BinsFrom(s, BASE_SIZE, BASE_SIZE + binSize) == Ok([HbinDescriptor(0, binSize, BASE_SIZE)])
  {
    var end := BASE_SIZE + binSize;
    assert BinsFrom(s, end, end) == Ok([]);
    assert BASE_SIZE + U32At(s, BASE_SIZE + 8) == end;
    assert [HbinDescriptor(0, binSize, BASE_SIZE)] + [] == [HbinDescriptor(0, binSize, BASE_SIZE)];
  }

  /** A bin below 4 GiB has the size that is written for it. */
  lemma {:induction false} SizeAsWritten(size: nat, content: nat)
    requires size == Align4096(HBIN_DATA + content) && size < 0x1_0000_0000
    ensures AsU32(size) == size && size % 4096 == 0 && size >= 4096
  {
  }

  /** A file that is one bin opens, with that bin and no other. */
  lemma {:induction false} Opens(s: Buf, root: u32, binSize: u32)
    requires BaseFields(s, root, binSize) && ValidChecksum(s) && BinFields(s, binSize)
    requires |s| == BASE_SIZE + binSize && binSize % 4096 == 0 && binSize > 0
    ensures FromBytes(s).Ok? && FromBytes(s).value.data == s && FromBytes(s).value.header.rootCellOffset == root
    ensures FromBytes(s).value.bins == [HbinDescriptor(0, binSize, BASE_SIZE)]
  {
    OneBin(s, binSize);
  }
}
