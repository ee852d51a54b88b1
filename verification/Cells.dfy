/** Cell records as the reader parses them (`winreg-format/src/cells.rs`, `flags.rs`). */
module Cells {
  import opened Wrappers
  import opened Bytes
  import opened Text

  const NULL_OFFSET: u32 := 0xFFFF_FFFF

  const KEY_HIVE_ENTRY: u16 := 0x0004
  const KEY_COMP_NAME: u16 := 0x0020
  const VALUE_COMP_NAME: u16 := 0x0001

  // ----- cell header -----

  function I32At(s: Buf, off: nat): int
    requires off + 4 <= |s|
  {
    if U32At(s, off) < 0x8000_0000 then U32At(s, off) else U32At(s, off) - 0x1_0000_0000
  }

  /** The 4-byte size field: negative means allocated. */
  datatype CellHeader = CellHeader(rawSize: int) {
    predicate IsAllocated() { rawSize < 0 }

    function Size(): nat { if rawSize < 0 then -rawSize else rawSize }
  }

  // ----- signatures -----

  datatype CellSignature =
    KeyNode | KeyValue | SecurityKey | FastLeaf | HashLeaf | IndexLeaf | RootIndex | BigData

  function SignatureOf(b0: byte, b1: byte): Option<CellSignature> {
    match (b0 as int as char, b1 as int as char)
    case ('n', 'k') => Some(KeyNode)
    case ('v', 'k') => Some(KeyValue)
    case ('s', 'k') => Some(SecurityKey)
    case ('l', 'f') => Some(FastLeaf)
    case ('l', 'h') => Some(HashLeaf)
    case ('l', 'i') => Some(IndexLeaf)
    case ('r', 'i') => Some(RootIndex)
    case ('d', 'b') => Some(BigData)
    case _ => None
  }

  // ----- nk -----

  datatype RawKeyNode = RawKeyNode(
    flags: u16,
    lastWritten: u64,
    accessBits: u32,
    parent: u32,
    subkeyCount: u32,
    volatileSubkeyCount: u32,
    subkeysListOffset: u32,
    volatileSubkeysListOffset: u32,
    valueCount: u32,
    valuesListOffset: u32,
    securityOffset: u32,
    classNameOffset: u32,
    maxSubkeyNameCompound: u32,
    maxSubkeyClassLen: u32,
    maxValueNameLen: u32,
    maxValueDataSize: u32,
    workVar: u32,
    keyNameLen: u16,
    classNameLen: u16,
    keyNameRaw: Buf)
  {
    predicate IsCompressed() { (flags / KEY_COMP_NAME) % 2 == 1 }

    function Name(): string {
      if IsCompressed() then Latin(keyNameRaw) else FromUtf16Lossy(Units(keyNameRaw))
    }

    predicate IsRoot() { (flags / KEY_HIVE_ENTRY) % 2 == 1 }
  }

  /** The bits that tell the root, and a name stored in one byte per character. */
  lemma FlagsExact(nk: RawKeyNode)
    ensures nk.IsRoot() <==> nk.flags / 4 % 2 == 1
    ensures nk.IsCompressed() <==> nk.flags / 32 % 2 == 1
  {
  }

  /** Parses what follows the `nk` signature. Flag bits above 0x0200 are dropped, as
      `from_bits_truncate` does. */
  function ParseKeyNode(d: Buf): Option<RawKeyNode> {
    if |d| < 74 || |d| < 74 + U16At(d, 70) then None
    else Some(RawKeyNode(
        U16At(d, 0) % 0x400, U64At(d, 2), U32At(d, 10), U32At(d, 14), U32At(d, 18), U32At(d, 22),
        U32At(d, 26), U32At(d, 30), U32At(d, 34), U32At(d, 38), U32At(d, 42), U32At(d, 46),
        U32At(d, 50), U32At(d, 54), U32At(d, 58), U32At(d, 62), U32At(d, 66),
        U16At(d, 70), U16At(d, 72), d[74..74 + U16At(d, 70)]))
  }

  // ----- vk -----

  datatype ValueType =
    | RegNone | Sz | ExpandSz | Binary | Dword | DwordBigEndian | Link | MultiSz | ResourceList
    | FullResourceDescriptor | ResourceRequirementsList | Qword | Unknown(raw: u32)

  function TypeFromRaw(raw: u32): ValueType {
    match raw
    case 0 => RegNone
    case 1 => Sz
    case 2 => ExpandSz
    case 3 => Binary
    case 4 => Dword
    case 5 => DwordBigEndian
    case 6 => Link
    case 7 => MultiSz
    case 8 => ResourceList
    case 9 => FullResourceDescriptor
    case 10 => ResourceRequirementsList
    case 11 => Qword
    case _ => Unknown(raw)
  }

  /** The number of each value type. */
  predicate TypeIs(t: ValueType, raw: u32) {
    || (t == RegNone && raw == 0) || (t == Sz && raw == 1) || (t == ExpandSz && raw == 2) || (t == Binary && raw == 3)
    || (t == Dword && raw == 4) || (t == DwordBigEndian && raw == 5) || (t == Link && raw == 6)
    || (t == MultiSz && raw == 7) || (t == ResourceList && raw == 8) || (t == FullResourceDescriptor && raw == 9)
    || (t == ResourceRequirementsList && raw == 10) || (t == Qword && raw == 11) || (t == Unknown(raw) && raw >= 12)
  }

  lemma TypeExact(t: ValueType, raw: u32)
    ensures t == TypeFromRaw(raw) <==> TypeIs(t, raw)
  {
  }

  /** `value_type_raw` of the carver. */
  function TypeToRaw(t: ValueType): u32 {
    match t
    case RegNone => 0
    case Sz => 1
    case ExpandSz => 2
    case Binary => 3
    case Dword => 4
    case DwordBigEndian => 5
    case Link => 6
    case MultiSz => 7
    case ResourceList => 8
    case FullResourceDescriptor => 9
    case ResourceRequirementsList => 10
    case Qword => 11
    case Unknown(n) => n
  }

  datatype RawKeyValue = RawKeyValue(
    nameLen: u16,
    dataSizeRaw: u32,
    dataOffsetRaw: u32,
    dataType: ValueType,
    flags: u16,
    nameRaw: Buf)
  {
    predicate IsResident() { dataSizeRaw >= 0x8000_0000 }

    function DataSize(): nat { dataSizeRaw % 0x8000_0000 }

    function InlineData(): Buf {
      U32Bytes(dataOffsetRaw)[..if DataSize() < 4 then DataSize() else 4]
    }

    function Name(): string {
      if nameLen == 0 then []
      else if flags % 2 == 1 then Latin(nameRaw)
      else FromUtf16Lossy(Units(nameRaw))
    }
  }

  function ParseKeyValue(d: Buf): Option<RawKeyValue> {
    if |d| < 18 || |d| < 18 + U16At(d, 0) then None
    else Some(RawKeyValue(
        U16At(d, 0), U32At(d, 2), U32At(d, 6), TypeFromRaw(U32At(d, 10)), U16At(d, 14) % 2,
        d[18..18 + U16At(d, 0)]))
  }

  // ----- subkey indexes -----

  datatype LfElement = LfElement(keyOffset: u32, nameHint: Buf)
  datatype LhElement = LhElement(keyOffset: u32, nameHash: u32)

  datatype SubkeyIndex =
    | FastLeafIndex(lf: seq<LfElement>)
    | HashLeafIndex(lh: seq<LhElement>)
    | IndexLeafIndex(li: seq<u32>)
    | RootIndexIndex(ri: seq<u32>)

  function ParseLf(d: Buf): Option<SubkeyIndex> {
    if |d| < 2 || |d| - 2 < U16At(d, 0) * 8 then None
    else Some(FastLeafIndex(seq(U16At(d, 0), i requires 0 <= i < U16At(d, 0) =>
                LfElement(U32At(d, 2 + 8 * i), d[6 + 8 * i..10 + 8 * i]))))
  }

  function ParseLh(d: Buf): Option<SubkeyIndex> {
    if |d| < 2 || |d| - 2 < U16At(d, 0) * 8 then None
    else Some(HashLeafIndex(seq(U16At(d, 0), i requires 0 <= i < U16At(d, 0) =>
                LhElement(U32At(d, 2 + 8 * i), U32At(d, 6 + 8 * i)))))
  }

  function ParseOffsets(d: Buf): Option<seq<u32>> {
    if |d| < 2 || |d| - 2 < U16At(d, 0) * 4 then None
    else Some(seq(U16At(d, 0), i requires 0 <= i < U16At(d, 0) => U32At(d, 2 + 4 * i)))
  }

  function ParseLi(d: Buf): Option<SubkeyIndex> {
    match ParseOffsets(d)
    case None => None
    case Some(offs) => Some(IndexLeafIndex(offs))
  }

  function ParseRi(d: Buf): Option<SubkeyIndex> {
    match ParseOffsets(d)
    case None => None
    case Some(offs) => Some(RootIndexIndex(offs))
  }

  /** The name hash of an `lh` element: base 37 over the upper-cased bytes, modulo 2^32. */
  function HashOf(b: Buf): u32 {
    if b == [] then 0
    else (HashOf(b[..|b| - 1]) * 37 + b[|b| - 1] as int) % 0x1_0000_0000
  }

  function Power37(n: nat): nat {
    if n == 0 then 1 else 37 * Power37(n - 1)
  }

  /** The bytes as digits of a number to the base 37, most significant first. */
  function Digits37(b: Buf): nat {
    if b == [] then 0 else b[0] * Power37(|b| - 1) + Digits37(b[1..])
  }

  lemma {:induction false} DigitsLast(b: Buf)
    requires b != []
    ensures Digits37(b) == Digits37(b[..|b| - 1]) * 37 + b[|b| - 1]
  {
    if |b| > 1 {
      DigitsLast(b[1..]);
      assert b[1..][..|b[1..]| - 1] == b[..|b| - 1][1..];
    }
  }

  lemma WrapDigit(a: nat, h: nat, d: nat)
    requires h == a % 0x1_0000_0000
    ensures (h * 37 + d) % 0x1_0000_0000 == (a * 37 + d) % 0x1_0000_0000
  {
    var q := a / 0x1_0000_0000;
    assert a == h + 0x1_0000_0000 * q;
    WrapMultiple(h * 37 + d, 37 * q);
  }

  /** The hash is that number modulo 2^32. */
  lemma {:induction false} HashExact(b: Buf)
    ensures HashOf(b) as int == Digits37(b) % 0x1_0000_0000
  {
    if b != [] {
      HashExact(b[..|b| - 1]);
      DigitsLast(b);
      WrapDigit(Digits37(b[..|b| - 1]), HashOf(b[..|b| - 1]), b[|b| - 1]);
    }
  }

  method LhHash(name: string) returns (h: u32)
    ensures h == HashOf(Utf8(Upper(name))) && h as int == Digits37(Utf8(Upper(name))) % 0x1_0000_0000
  {
    HashExact(Utf8(Upper(name)));
    var bytes := Utf8(Upper(name));
    h := 0;
    for i := 0 to |bytes|
      invariant h == HashOf(bytes[..i])
    {
      h := (h * 37 + bytes[i] as int) % 0x1_0000_0000;
      assert bytes[..i + 1][..i] == bytes[..i];
    }
    assert bytes[..|bytes|] == bytes;
  }

  /** Two names that are equal up to ASCII case have the same hash. */
  lemma HashIgnoresCase(a: string, b: string)
    requires SameName(a, b)
    ensures HashOf(Utf8(Upper(a))) == HashOf(Utf8(Upper(b)))
  {
    FoldingsAgree(a, b);
  }

  // ----- sk and db -----

  datatype RawSecurityKey = RawSecurityKey(
    flink: u32, blink: u32, referenceCount: u32, descriptorSize: u32, descriptor: Buf)

  function ParseSecurityKey(d: Buf): Option<RawSecurityKey> {
    if |d| < 18 || |d| < 18 + U32At(d, 14) then None
    else Some(RawSecurityKey(U32At(d, 2), U32At(d, 6), U32At(d, 10), U32At(d, 14), d[18..18 + U32At(d, 14)]))
  }

  datatype RawBigData = RawBigData(segmentCount: u16, segmentListOffset: u32)

  function ParseBigData(d: Buf): Option<RawBigData> {
    if |d| < 6 then None else Some(RawBigData(U16At(d, 0), U32At(d, 2)))
  }

  // ----- trailing bytes do not change what is parsed -----

  lemma PrefixReads(d: Buf, e: Buf)
    requires d <= e
    ensures forall o: nat | o + 4 <= |d| :: U32At(e, o) == U32At(d, o)
    ensures forall o: nat | o + 2 <= |d| :: U16At(e, o) == U16At(d, o)
  {
  }

  /** Padding after a complete record is invisible to the parsers. */
  lemma KeyNodePadding(d: Buf, e: Buf)
    requires d <= e && ParseKeyNode(d).Some?
    ensures ParseKeyNode(e) == ParseKeyNode(d)
  {
    PrefixReads(d, e);
    assert e[74..74 + U16At(e, 70)] == d[74..74 + U16At(d, 70)];
  }

  lemma KeyValuePadding(d: Buf, e: Buf)
    requires d <= e && ParseKeyValue(d).Some?
    ensures ParseKeyValue(e) == ParseKeyValue(d)
  {
    assert e[18..18 + U16At(e, 0)] == d[18..18 + U16At(d, 0)];
  }

  lemma HashLeafPadding(d: Buf, e: Buf)
    requires d <= e && ParseLh(d).Some?
    ensures ParseLh(e) == ParseLh(d)
  {
    assert ParseLh(e).value.lh == ParseLh(d).value.lh;
  }
}
