/** The base block and its XOR-32 checksum (`winreg-format/src/header.rs`). */
module Header {
  import opened Wrappers
  import opened Bytes

  const BASE_BLOCK_SIZE: nat := 4096
  const CHECKSUM_OFFSET: nat := 0x1FC
  const SUMMED_WORDS: nat := 127

  // ----- exclusive or on naturals, bit by bit -----

  function Xor(a: nat, b: nat): nat
    decreases a + b
  {
    if a == 0 && b == 0 then 0 else (if a % 2 == b % 2 then 0 else 1) + 2 * Xor(a / 2, b / 2)
  }

  lemma {:induction false} XorCommutes(a: nat, b: nat)
    ensures Xor(a, b) == Xor(b, a)
    decreases a + b
  {
    if a != 0 || b != 0 {
      XorCommutes(a / 2, b / 2);
    }
  }

  lemma {:induction false} XorZero(a: nat)
    ensures Xor(a, 0) == a
  {
    if a != 0 {
      XorZero(a / 2);
    }
  }

  lemma {:induction false} XorAssociates(a: nat, b: nat, c: nat)
    ensures Xor(Xor(a, b), c) == Xor(a, Xor(b, c))
    decreases a + b + c
  {
    if a != 0 || b != 0 || c != 0 {
      XorAssociates(a / 2, b / 2, c / 2);
      XorHalves(a, b);
      XorHalves(b, c);
      XorHalves(Xor(a, b), c);
      XorHalves(a, Xor(b, c));
      SameHalves(Xor(Xor(a, b), c), Xor(a, Xor(b, c)));
    }
  }

  lemma SameHalves(a: nat, b: nat)
    requires a % 2 == b % 2 && a / 2 == b / 2
    ensures a == b
  {
  }

  lemma XorHalves(a: nat, b: nat)
    ensures Xor(a, b) % 2 == if a % 2 == b % 2 then 0 else 1
    ensures Xor(a, b) / 2 == Xor(a / 2, b / 2)
  {
  }

  lemma {:induction false} XorSelf(a: nat)
    ensures Xor(a, a) == 0
  {
    if a != 0 {
      XorSelf(a / 2);
    }
  }

  /** Equal sums with one operand in common have the other in common too. */
  lemma XorCancels(a: nat, b: nat, c: nat)
    ensures Xor(a, c) == Xor(b, c) <==> a == b
  {
    XorAssociates(a, c, c);
    XorAssociates(b, c, c);
    XorSelf(c);
    XorZero(a);
    XorZero(b);
  }

  /** Exclusive or stays within any width both operands fit. */
  lemma {:induction false} XorFits(a: nat, b: nat, width: nat)
    requires a < Pow2(width) && b < Pow2(width)
    ensures Xor(a, b) < Pow2(width)
    decreases width
  {
    if width > 0 {
      XorFits(a / 2, b / 2, width - 1);
    }
  }

  function Pow2(n: nat): (p: nat)
    ensures p >= 1
  {
    if n == 0 then 1 else 2 * Pow2(n - 1)
  }

  lemma XorOfWords(a: u32, b: u32)
    ensures Xor(a, b) < 0x1_0000_0000
  {
    assert Pow2(8) == 256;
    assert Pow2(16) == 0x1_0000 by { assert Pow2(12) == 4096; }
    assert Pow2(24) == 0x100_0000 by { assert Pow2(20) == 0x10_0000; }
    assert Pow2(32) == 0x1_0000_0000 by { assert Pow2(28) == 0x1000_0000; }
    XorFits(a, b, 32);
  }

  // ----- the checksum -----

  /** The exclusive or of the first `n` words. */
  function RawSum(h: Buf, n: nat): u32
    requires 4 * n <= |h|
  {
    if n == 0 then 0
    else
      XorOfWords(RawSum(h, n - 1), U32At(h, 4 * (n - 1)));
      Xor(RawSum(h, n - 1), U32At(h, 4 * (n - 1)))
  }

  /** 0 is stored as 1 and 0xFFFFFFFF as 0xFFFFFFFE. */
  function Escape(sum: u32): u32 {
    if sum == 0 then 1 else if sum == 0xFFFF_FFFF then 0xFFFF_FFFE else sum
  }

  function Checksum(h: Buf): u32
    requires |h| >= 508
  {
    Escape(RawSum(h, SUMMED_WORDS))
  }

  method ComputeChecksum(h: Buf) returns (checksum: u32)
    requires |h| >= 508
    ensures checksum == Checksum(h)
    ensures checksum != 0 && checksum != 0xFFFF_FFFF
  {
    checksum := 0;
    for i := 0 to SUMMED_WORDS
      invariant checksum == RawSum(h, i)
    {
      XorOfWords(checksum, U32At(h, 4 * i));
      checksum := Xor(checksum, U32At(h, 4 * i));
    }
    if checksum == 0 {
      checksum := 1;
    }
    if checksum == 0xFFFF_FFFF {
      checksum := 0xFFFF_FFFE;
    }
  }

  predicate ValidChecksum(h: Buf) {
    |h| >= 512 && Checksum(h) == U32At(h, CHECKSUM_OFFSET)
  }

  lemma {:induction false} RawSumFrame(h: Buf, g: Buf, n: nat)
    requires 4 * n <= |h| && 4 * n <= |g|
    requires forall k | 0 <= k < n :: U32At(h, 4 * k) == U32At(g, 4 * k)
    ensures RawSum(h, n) == RawSum(g, n)
  {
    if n > 0 {
      RawSumFrame(h, g, n - 1);
    }
  }

  /** When exactly one summed word differs, so do the raw sums. */
  lemma {:induction false} OneWordMovesSum(h: Buf, g: Buf, n: nat, w: nat)
    requires w < n && 4 * n <= |h| && 4 * n <= |g|
    requires forall k | 0 <= k < n && k != w :: U32At(h, 4 * k) == U32At(g, 4 * k)
    requires U32At(h, 4 * w) != U32At(g, 4 * w)
    ensures RawSum(h, n) != RawSum(g, n)
  {
    var hn, gn := U32At(h, 4 * (n - 1)), U32At(g, 4 * (n - 1));
    if w == n - 1 {
      RawSumFrame(h, g, n - 1);
      XorCommutes(RawSum(h, n - 1), hn);
      XorCommutes(RawSum(h, n - 1), gn);
      XorCancels(hn, gn, RawSum(h, n - 1));
    } else {
      OneWordMovesSum(h, g, n - 1, w);
      XorCancels(RawSum(h, n - 1), RawSum(g, n - 1), hn);
    }
  }

  /** Detection, exactly: a valid block in which one summed word is changed stays valid if and only
      if the two raw sums are the pair {0, 1} or the pair {0xFFFFFFFE, 0xFFFFFFFF} that the escapes
      identify. */
  lemma ChangedWordDetected(h: Buf, g: Buf, w: nat)
    requires |h| >= 512 && |g| >= 512 && ValidChecksum(h)
    requires w < SUMMED_WORDS && U32At(h, 4 * w) != U32At(g, 4 * w)
    requires forall k | 0 <= k < SUMMED_WORDS && k != w :: U32At(h, 4 * k) == U32At(g, 4 * k)
    requires U32At(h, CHECKSUM_OFFSET) == U32At(g, CHECKSUM_OFFSET)
    ensures ValidChecksum(g) <==>
            var x, y := RawSum(h, SUMMED_WORDS), RawSum(g, SUMMED_WORDS);
            {x, y} == {0, 1} || {x, y} == {0xFFFF_FFFE, 0xFFFF_FFFF}
  {
    var x, y := RawSum(h, SUMMED_WORDS), RawSum(g, SUMMED_WORDS);
    OneWordMovesSum(h, g, SUMMED_WORDS, w);
    if Escape(x) == Escape(y) {
      assert {x, y} == {0, 1} || {x, y} == {0xFFFF_FFFE, 0xFFFF_FFFF};
    }
    if {x, y} == {0, 1} || {x, y} == {0xFFFF_FFFE, 0xFFFF_FFFF} {
      assert x in {x, y} && y in {x, y};
      assert Escape(x) == Escape(y);
    }
  }

  lemma {:induction false} ZeroWords(h: Buf, m: nat, n: nat)
    requires m <= n && 4 * n <= |h| && forall k | m <= k < n :: U32At(h, 4 * k) == 0
    ensures RawSum(h, n) == RawSum(h, m)
  {
    if m < n {
      ZeroWords(h, m, n - 1);
      XorZero(RawSum(h, n - 1));
    }
  }

  lemma {:induction false} XorOfZero(b: nat)
    ensures Xor(0, b) == b
  {
    XorCommutes(0, b);
    XorZero(b);
  }

  lemma {:induction false} NextWord(h: Buf, n: nat, sum: u32)
    requires 4 * n + 4 <= |h| && RawSum(h, n) == sum
    ensures RawSum(h, n + 1) == Xor(sum, U32At(h, 4 * n))
  {
  }

  /** Of five words, of which the first and the fourth are equal and the second and the third zero, the fifth is
      left. */
  lemma {:induction false} FifthWordLeft(h: Buf, a: u32)
    requires |h| >= 20 && U32At(h, 0) == U32At(h, 12) == a && U32At(h, 4) == 0 && U32At(h, 8) == 0
    ensures RawSum(h, 5) == U32At(h, 16)
  {
    NextWord(h, 0, 0);
    XorOfZero(a);
    ZeroWords(h, 1, 3);
    NextWord(h, 3, a);
    XorSelf(a);
    NextWord(h, 4, 0);
    XorOfZero(U32At(h, 16));
  }

  // ----- the fields of the base block that opening a hive uses -----

  datatype BaseBlock = BaseBlock(
    primarySequence: u32, secondarySequence: u32, minorVersion: u32, fileType: u32,
    rootCellOffset: u32, hiveBinsDataSize: u32)

  predicate HasSignature(d: Buf, off: nat, sig: string)
    requires |sig| == 4
  {
    && off + 4 <= |d|
    && d[off] as int == sig[0] as int && d[off + 1] as int == sig[1] as int
    && d[off + 2] as int == sig[2] as int && d[off + 3] as int == sig[3] as int
  }

  function ParseBaseBlock(d: Buf): Option<BaseBlock>
    requires |d| >= BASE_BLOCK_SIZE
  {
    if !HasSignature(d, 0, "regf") then None
    else Some(BaseBlock(U32At(d, 0x04), U32At(d, 0x08), U32At(d, 0x18), U32At(d, 0x1C),
                        U32At(d, 0x24), U32At(d, 0x28)))
  }
}
