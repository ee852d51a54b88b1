/** Cell bodies as the test hive builder lays them out before linking (`Allocator::alloc_*` in
    `winreg-testutil/src/lib.rs`), and how the reader's parsers see them while fields are patched. */
module Records {
  import opened Wrappers
  import opened Bytes
  import opened Cells

  // ----- overwriting part of a buffer -----

  /** `buf[at..at + w.len()].copy_from_slice(w)` */
  function Splice(s: Buf, at: nat, w: Buf): (r: Buf)
    requires at + |w| <= |s|
    ensures |r| == |s|
  {
    seq(|s|, i requires 0 <= i < |s| => if at <= i < at + |w| then w[i - at] else s[i])
  }

  function Put32(b: Buf, at: nat, x: u32): (r: Buf)
    requires at + 4 <= |b|
    ensures |r| == |b|
  {
    Splice(b, at, U32Bytes(x))
  }

  lemma {:induction false} Put32Read(b: Buf, at: nat, x: u32)
    requires at + 4 <= |b|
    ensures U32At(Put32(b, at, x), at) == x
  {
    assert forall k | 0 <= k < 4 :: Put32(b, at, x)[at + k] == U32Bytes(x)[k];
  }

  /** A field that does not overlap the overwritten one keeps its value. */
  lemma {:induction false} Put32Elsewhere(b: Buf, at: nat, x: u32, o: nat)
    requires at + 4 <= |b|
    ensures o + 2 <= |b| && (o + 2 <= at || at + 4 <= o) ==> U16At(Put32(b, at, x), o) == U16At(b, o)
    ensures o + 4 <= |b| && (o + 4 <= at || at + 4 <= o) ==> U32At(Put32(b, at, x), o) == U32At(b, o)
  {
  }

  // ----- key nodes -----

  const NK_PARENT: nat := 16
  const NK_SUBKEY_COUNT: nat := 20
  const NK_SUBKEYS_LIST: nat := 28
  const NK_VALUE_COUNT: nat := 36
  const NK_VALUES_LIST: nat := 40
  const NK_SECURITY: nat := 44

  const ZERO4: Buf := [0, 0, 0, 0]
  const NULL4: Buf := [0xFF, 0xFF, 0xFF, 0xFF]

  function NodeHead(flags: u16, lastWritten: u64): (b: Buf)
    ensures |b| == 16
  {
    ['n' as int, 'k' as int] + U16Bytes(flags) + U64Bytes(lastWritten) + ZERO4
  }

  /** Parent, subkey count, volatile subkey count, subkey list, volatile subkey list. */
  function NodeLinks(): (b: Buf)
    ensures |b| == 20
  {
    NULL4 + ZERO4 + ZERO4 + NULL4 + NULL4
  }

  /** Value count, values list, security, class name. */
  function NodeValues(): (b: Buf)
    ensures |b| == 16
  {
    ZERO4 + NULL4 + NULL4 + NULL4
  }

  function NodeSizes(): (b: Buf)
    ensures |b| == 20
  {
    ZERO4 + ZERO4 + ZERO4 + ZERO4 + ZERO4
  }

  function NodeBody(name: Buf, isRoot: bool, lastWritten: u64): (b: Buf)
    ensures |b| == 76 + |name|
  {
    NodeHead(if isRoot then KEY_HIVE_ENTRY + KEY_COMP_NAME else KEY_COMP_NAME, lastWritten)
    + (NodeLinks() + NodeValues() + NodeSizes()) + (U16Bytes(AsU16(|name|)) + U16Bytes(0) + name)
  }

  /** The node as parsed before linking: every link is null. A name length above 65535 wraps. */
  function UnlinkedNode(name: Buf, isRoot: bool, lastWritten: u64): RawKeyNode {
    RawKeyNode(if isRoot then KEY_HIVE_ENTRY + KEY_COMP_NAME else KEY_COMP_NAME, lastWritten, 0, NULL_OFFSET, 0, 0,
               NULL_OFFSET, NULL_OFFSET, 0, NULL_OFFSET, NULL_OFFSET, NULL_OFFSET, 0, 0, 0, 0, 0,
               AsU16(|name|), 0, name[..AsU16(|name|)])
  }

  /** The fields of a key node, by their place in a cell body. */
  function NodeAt(b: Buf): RawKeyNode
    requires |b| >= 76 && |b| >= 76 + U16At(b, 72)
  {
    RawKeyNode(U16At(b, 2) % 0x400, U64At(b, 4), U32At(b, 12), U32At(b, NK_PARENT), U32At(b, NK_SUBKEY_COUNT),
               U32At(b, 24),
               U32At(b, NK_SUBKEYS_LIST), U32At(b, 32), U32At(b, NK_VALUE_COUNT), U32At(b, NK_VALUES_LIST),
               U32At(b, NK_SECURITY), U32At(b, 48), U32At(b, 52), U32At(b, 56), U32At(b, 60), U32At(b, 64),
                 U32At(b, 68),
               U16At(b, 72), U16At(b, 74), b[76..76 + U16At(b, 72)])
  }

  /** A cell body that holds a key node. */
  ghost predicate IsNode(b: Buf, nk: RawKeyNode) {
    && |b| >= 76 && |b| >= 76 + U16At(b, 72)
    && b[0] == 'n' as int && b[1] == 'k' as int
    && NodeAt(b) == nk
  }

  lemma {:induction false} NodeParses(b: Buf, nk: RawKeyNode)
    requires IsNode(b, nk)
    ensures ParseKeyNode(b[2..]) == Some(nk)
  {
    assert b[2..][74..74 + U16At(b, 72)] == b[76..76 + U16At(b, 72)];
  }

  lemma {:induction false} HeadReads(b: Buf, flags: u16, lastWritten: u64, rest: Buf)
    requires b == NodeHead(flags, lastWritten) + rest
    ensures b[0] == 'n' as int && b[1] == 'k' as int
    ensures U16At(b, 2) == flags && U64At(b, 4) == lastWritten && U32At(b, 12) == 0
  {
    var h := NodeHead(flags, lastWritten);
    assert forall i | 0 <= i < 16 :: b[i] == h[i];
    assert forall i | 0 <= i < 2 :: h[2 + i] == U16Bytes(flags)[i];
    assert forall i | 0 <= i < 8 :: h[4 + i] == U64Bytes(lastWritten)[i];
  }

  lemma {:induction false} MiddleReads(b: Buf, head: Buf, rest: Buf)
    requires |head| == 16 && b == head + (NodeLinks() + NodeValues() + NodeSizes()) + rest
    ensures U32At(b, NK_PARENT) == NULL_OFFSET && U32At(b, NK_SUBKEY_COUNT) == 0 && U32At(b, 24) == 0
    ensures U32At(b, NK_SUBKEYS_LIST) == NULL_OFFSET && U32At(b, 32) == NULL_OFFSET
    ensures U32At(b, NK_VALUE_COUNT) == 0 && U32At(b, NK_VALUES_LIST) == NULL_OFFSET
    ensures U32At(b, NK_SECURITY) == NULL_OFFSET && U32At(b, 48) == NULL_OFFSET
    ensures U32At(b, 52) == 0 && U32At(b, 56) == 0 && U32At(b, 60) == 0 && U32At(b, 64) == 0 && U32At(b, 68) == 0
  {
    var m := NodeLinks() + NodeValues() + NodeSizes();
    assert forall i | 0 <= i < 56 :: b[16 + i] == m[i];
  }

  lemma {:induction false} TailReads(b: Buf, front: Buf, name: Buf)
    requires |front| == 72 && b == front + (U16Bytes(AsU16(|name|)) + U16Bytes(0) + name)
    ensures U16At(b, 72) == AsU16(|name|) && U16At(b, 74) == 0
    ensures b[76..76 + AsU16(|name|)] == name[..AsU16(|name|)]
  {
    var t := U16Bytes(AsU16(|name|)) + U16Bytes(0) + name;
    assert forall i | 0 <= i < |t| :: b[72 + i] == t[i];
  }

  /** The three stretches of a node's body, read one by one. */
  lemma {:induction false} StretchesRead(b: Buf, flags: u16, lastWritten: u64, head: Buf, middle: Buf, name: Buf,
                                         tail: Buf)
    requires head == NodeHead(flags, lastWritten) && middle == NodeLinks() + NodeValues() + NodeSizes()
    requires tail == U16Bytes(AsU16(|name|)) + U16Bytes(0) + name && b == head + middle + tail
    ensures |b| == 76 + |name| && b[0] == 'n' as int && b[1] == 'k' as int
    ensures U16At(b, 72) == AsU16(|name|)
    ensures NodeAt(b) == UnlinkedNode(name, true, lastWritten).(flags := flags % 0x400)
  {
    HeadReads(b, flags, lastWritten, middle + tail);
    MiddleReads(b, head, tail);
    TailReads(b, head + middle, name);
  }

  lemma {:induction false} NodeBodyIs(name: Buf, isRoot: bool, lastWritten: u64)
    ensures IsNode(NodeBody(name, isRoot, lastWritten), UnlinkedNode(name, isRoot, lastWritten))
  {
    var flags := if isRoot then KEY_HIVE_ENTRY + KEY_COMP_NAME else KEY_COMP_NAME;
    StretchesRead(NodeBody(name, isRoot, lastWritten), flags, lastWritten, NodeHead(flags, lastWritten),
                  NodeLinks() + NodeValues() + NodeSizes(), name, U16Bytes(AsU16(|name|)) + U16Bytes(0) + name);
  }

  /** Patching one link of a node changes that field of the parsed node and no other. */
  lemma {:induction false} PatchParent(b: Buf, nk: RawKeyNode, x: u32)
    requires IsNode(b, nk)
    ensures IsNode(Put32(b, NK_PARENT, x), nk.(parent := x))
  {
    Put32Read(b, NK_PARENT, x);
    assert Put32(b, NK_PARENT, x)[76..76 + nk.keyNameLen] == b[76..76 + nk.keyNameLen];
  }

  lemma {:induction false} PatchSubkeyCount(b: Buf, nk: RawKeyNode, x: u32)
    requires IsNode(b, nk)
    ensures IsNode(Put32(b, NK_SUBKEY_COUNT, x), nk.(subkeyCount := x))
  {
    Put32Read(b, NK_SUBKEY_COUNT, x);
    assert Put32(b, NK_SUBKEY_COUNT, x)[76..76 + nk.keyNameLen] == b[76..76 + nk.keyNameLen];
  }

  lemma {:induction false} PatchSubkeysList(b: Buf, nk: RawKeyNode, x: u32)
    requires IsNode(b, nk)
    ensures IsNode(Put32(b, NK_SUBKEYS_LIST, x), nk.(subkeysListOffset := x))
  {
    Put32Read(b, NK_SUBKEYS_LIST, x);
    assert Put32(b, NK_SUBKEYS_LIST, x)[76..76 + nk.keyNameLen] == b[76..76 + nk.keyNameLen];
  }

  lemma {:induction false} PatchValueCount(b: Buf, nk: RawKeyNode, x: u32)
    requires IsNode(b, nk)
    ensures IsNode(Put32(b, NK_VALUE_COUNT, x), nk.(valueCount := x))
  {
    Put32Read(b, NK_VALUE_COUNT, x);
    assert Put32(b, NK_VALUE_COUNT, x)[76..76 + nk.keyNameLen] == b[76..76 + nk.keyNameLen];
  }

  lemma {:induction false} PatchValuesList(b: Buf, nk: RawKeyNode, x: u32)
    requires IsNode(b, nk)
    ensures IsNode(Put32(b, NK_VALUES_LIST, x), nk.(valuesListOffset := x))
  {
    Put32Read(b, NK_VALUES_LIST, x);
    assert Put32(b, NK_VALUES_LIST, x)[76..76 + nk.keyNameLen] == b[76..76 + nk.keyNameLen];
  }

  lemma {:induction false} PatchSecurity(b: Buf, nk: RawKeyNode, x: u32)
    requires IsNode(b, nk)
    ensures IsNode(Put32(b, NK_SECURITY, x), nk.(securityOffset := x))
  {
    Put32Read(b, NK_SECURITY, x);
    assert Put32(b, NK_SECURITY, x)[76..76 + nk.keyNameLen] == b[76..76 + nk.keyNameLen];
  }

  // ----- values -----

  const VK_DATA_SIZE: nat := 4
  const VK_DATA_OFFSET: nat := 8

  function ValueBody(name: Buf, dataType: u32, dataSize: u32): (b: Buf)
    ensures |b| == 20 + |name|
  {
    ['v' as int, 'k' as int] + U16Bytes(AsU16(|name|)) + U32Bytes(dataSize) + NULL4 + U32Bytes(dataType)
    + U16Bytes(if name == [] then 0 else VALUE_COMP_NAME) + U16Bytes(0) + name
  }

  function UnlinkedValue(name: Buf, dataType: u32, dataSize: u32): RawKeyValue {
    RawKeyValue(AsU16(|name|), dataSize, NULL_OFFSET, TypeFromRaw(dataType), if name == [] then 0 else VALUE_COMP_NAME,
                name[..AsU16(|name|)])
  }

  /** The fields of a value, by their place in a cell body. */
  function ValueAt(b: Buf): RawKeyValue
    requires |b| >= 20 && |b| >= 20 + U16At(b, 2)
  {
    RawKeyValue(U16At(b, 2), U32At(b, VK_DATA_SIZE), U32At(b, VK_DATA_OFFSET), TypeFromRaw(U32At(b, 12)),
                U16At(b, 16) % 2,
                b[20..20 + U16At(b, 2)])
  }

  ghost predicate IsValue(b: Buf, vk: RawKeyValue) {
    && |b| >= 20 && |b| >= 20 + U16At(b, 2)
    && b[0] == 'v' as int && b[1] == 'k' as int
    && ValueAt(b) == vk
  }

  lemma {:induction false} ValueParses(b: Buf, vk: RawKeyValue)
    requires IsValue(b, vk)
    ensures ParseKeyValue(b[2..]) == Some(vk)
  {
    assert b[2..][18..18 + U16At(b, 2)] == b[20..20 + U16At(b, 2)];
  }

  lemma {:induction false} ValueBodyIs(name: Buf, dataType: u32, dataSize: u32)
    ensures IsValue(ValueBody(name, dataType, dataSize), UnlinkedValue(name, dataType, dataSize))
  {
    var b := ValueBody(name, dataType, dataSize);
    assert U16At(b, 2) == AsU16(|name|) && U32At(b, 4) == dataSize && U32At(b, 8) == NULL_OFFSET;
    assert U32At(b, 12) == dataType && U16At(b, 16) == if name == [] then 0 else VALUE_COMP_NAME;
    assert b[20..20 + U16At(b, 2)] == name[..AsU16(|name|)];
  }

  lemma {:induction false} PatchDataOffset(b: Buf, vk: RawKeyValue, x: u32)
    requires IsValue(b, vk)
    ensures IsValue(Put32(b, VK_DATA_OFFSET, x), vk.(dataOffsetRaw := x))
  {
    Put32Read(b, VK_DATA_OFFSET, x);
    assert Put32(b, VK_DATA_OFFSET, x)[20..20 + vk.nameLen] == b[20..20 + vk.nameLen];
  }

  lemma {:induction false} PatchDataSize(b: Buf, vk: RawKeyValue, x: u32)
    requires IsValue(b, vk)
    ensures IsValue(Put32(b, VK_DATA_SIZE, x), vk.(dataSizeRaw := x))
  {
    Put32Read(b, VK_DATA_SIZE, x);
    assert Put32(b, VK_DATA_SIZE, x)[20..20 + vk.nameLen] == b[20..20 + vk.nameLen];
  }

  /** Resident data overwrites the first bytes of the offset field. */
  function InlineWord(was: u32, data: Buf): u32
    requires |data| <= 4
  {
    U32At(data + U32Bytes(was)[|data|..], 0)
  }

  lemma {:induction false} PatchInline(b: Buf, vk: RawKeyValue, data: Buf)
    requires IsValue(b, vk) && |data| <= 4
    ensures IsValue(Splice(b, VK_DATA_OFFSET, data), vk.(dataOffsetRaw := InlineWord(vk.dataOffsetRaw, data)))
  {
    var r := Splice(b, VK_DATA_OFFSET, data);
    assert r[20..20 + vk.nameLen] == b[20..20 + vk.nameLen];
    U32Injective(b[8..12], U32Bytes(vk.dataOffsetRaw));
    assert r[8..12] == data + U32Bytes(vk.dataOffsetRaw)[|data|..];
    assert U32At(r, 8) == U32At(r[8..12], 0);
  }

  /** Resident data comes back out of the offset field. */
  lemma {:induction false} InlineDataBack(vk: RawKeyValue, was: u32, data: Buf)
    requires |data| <= 4 && vk.DataSize() == |data| && vk.dataOffsetRaw == InlineWord(was, data)
    ensures vk.InlineData() == data
  {
    var w := data + U32Bytes(was)[|data|..];
    U32Injective(U32Bytes(vk.dataOffsetRaw), w);
    assert w[..|data|] == data;
  }

  // ----- subkey lists -----

  function Zeros(n: nat): (b: Buf)
    ensures |b| == n
  {
    seq(n, _ => 0)
  }

  function LeafBody(count: nat): (b: Buf)
    ensures |b| == 4 + 8 * count
  {
    ['l' as int, 'h' as int] + U16Bytes(AsU16(count)) + Zeros(8 * count)
  }

  function ElementAt(b: Buf, k: nat): LhElement
    requires 12 + 8 * k <= |b|
  {
    LhElement(U32At(b, 4 + 8 * k), U32At(b, 8 + 8 * k))
  }

  /** A cell body that holds an `lh` list of `count` elements, the first of which are `es`. */
  ghost predicate IsLeaf(b: Buf, count: nat, es: seq<LhElement>) {
    && |b| == 4 + 8 * count && |es| <= count
    && b[0] == 'l' as int && b[1] == 'h' as int && U16At(b, 2) == AsU16(count)
    && forall k | 0 <= k < |es| :: ElementAt(b, k) == es[k]
  }

  lemma {:induction false} LeafBodyEmpty(count: nat)
    ensures IsLeaf(LeafBody(count), count, [])
  {
    assert U16At(LeafBody(count), 2) == AsU16(count);
  }

  function PutElement(b: Buf, k: nat, e: LhElement): (r: Buf)
    requires 12 + 8 * k <= |b|
    ensures |r| == |b|
  {
    Put32(Put32(b, 4 + 8 * k, e.keyOffset), 8 + 8 * k, e.nameHash)
  }

  lemma {:induction false} PutElementReads(b: Buf, k: nat, e: LhElement)
    requires 12 + 8 * k <= |b|
    ensures ElementAt(PutElement(b, k, e), k) == e
    ensures U16At(PutElement(b, k, e), 2) == U16At(b, 2) && PutElement(b, k, e)[..2] == b[..2]
  {
    var c := Put32(b, 4 + 8 * k, e.keyOffset);
    Put32Read(b, 4 + 8 * k, e.keyOffset);
    Put32Read(c, 8 + 8 * k, e.nameHash);
    Put32Elsewhere(c, 8 + 8 * k, e.nameHash, 4 + 8 * k);
    Put32Elsewhere(b, 4 + 8 * k, e.keyOffset, 2);
    Put32Elsewhere(c, 8 + 8 * k, e.nameHash, 2);
  }

  lemma {:induction false} PutElementElsewhere(b: Buf, k: nat, e: LhElement, j: nat)
    requires 12 + 8 * k <= |b| && j < k
    ensures ElementAt(PutElement(b, k, e), j) == ElementAt(b, j)
  {
    var c := Put32(b, 4 + 8 * k, e.keyOffset);
    Put32Elsewhere(b, 4 + 8 * k, e.keyOffset, 4 + 8 * j);
    Put32Elsewhere(b, 4 + 8 * k, e.keyOffset, 8 + 8 * j);
    Put32Elsewhere(c, 8 + 8 * k, e.nameHash, 4 + 8 * j);
    Put32Elsewhere(c, 8 + 8 * k, e.nameHash, 8 + 8 * j);
  }

  lemma {:induction false} PutElementAppends(b: Buf, count: nat, es: seq<LhElement>, e: LhElement)
    requires IsLeaf(b, count, es) && |es| < count
    ensures IsLeaf(PutElement(b, |es|, e), count, es + [e])
  {
    var r := PutElement(b, |es|, e);
    PutElementReads(b, |es|, e);
    assert r[..2][0] == b[..2][0] && r[..2][1] == b[..2][1];
    forall j | 0 <= j < |es| + 1 ensures ElementAt(r, j) == (es + [e])[j] {
      if j < |es| {
        PutElementElsewhere(b, |es|, e, j);
        assert ElementAt(b, j) == es[j];
      }
    }
  }

  /** A complete list parses to its elements, if its length fits the count field. */
  lemma {:induction false} LeafParses(b: Buf, es: seq<LhElement>)
    requires IsLeaf(b, |es|, es) && |es| <= 0xFFFF
    ensures ParseLh(b[2..]) == Some(HashLeafIndex(es))
  {
    var d := b[2..];
    assert U16At(d, 0) == |es|;
    var parsed := ParseLh(d).value.lh;
    forall k | 0 <= k < |es| ensures parsed[k] == es[k] {
      assert ElementAt(b, k) == es[k];
      assert U32At(d, 2 + 8 * k) == U32At(b, 4 + 8 * k) && U32At(d, 6 + 8 * k) == U32At(b, 8 + 8 * k);
    }
    assert parsed == es;
  }

  // ----- lists of offsets -----

  function OffsetAt(b: Buf, i: nat): u32
    requires 4 * i + 4 <= |b|
  {
    U32At(b, 4 * i)
  }

  /** A cell body that lists `count` offsets, the first of which are `offs`. */
  ghost predicate IsList(b: Buf, count: nat, offs: seq<u32>) {
    |b| == 4 * count && |offs| <= count && forall i | 0 <= i < |offs| :: OffsetAt(b, i) == offs[i]
  }

  lemma {:induction false} PutOffsetAppends(b: Buf, count: nat, offs: seq<u32>, x: u32)
    requires IsList(b, count, offs) && |offs| < count
    ensures IsList(Put32(b, 4 * |offs|, x), count, offs + [x])
  {
    Put32Read(b, 4 * |offs|, x);
    forall i | 0 <= i < |offs| ensures OffsetAt(Put32(b, 4 * |offs|, x), i) == offs[i] {
      assert OffsetAt(b, i) == offs[i];
      Put32Elsewhere(b, 4 * |offs|, x, 4 * i);
    }
  }

  // ----- big data -----

  const DB_LIST: nat := 4

  function BigDataBody(count: nat): (b: Buf)
    ensures |b| == 8
  {
    ['d' as int, 'b' as int] + U16Bytes(AsU16(count)) + ZERO4
  }

  ghost predicate IsBigData(b: Buf, count: u16, list: u32) {
    |b| == 8 && b[0] == 'd' as int && b[1] == 'b' as int && U16At(b, 2) == count && U32At(b, DB_LIST) == list
  }

  lemma {:induction false} BigDataBodyIs(count: nat)
    ensures IsBigData(BigDataBody(count), AsU16(count), 0)
  {
    assert U16At(BigDataBody(count), 2) == AsU16(count) && U32At(BigDataBody(count), 4) == 0;
  }

  lemma {:induction false} PatchBigDataList(b: Buf, count: u16, list: u32, x: u32)
    requires IsBigData(b, count, list)
    ensures IsBigData(Put32(b, DB_LIST, x), count, x)
  {
    Put32Read(b, DB_LIST, x);
    Put32Elsewhere(b, DB_LIST, x, 2);
  }

  // ----- the security descriptor -----

  const SK_FLINK: nat := 4
  const SK_BLINK: nat := 8

  const MINIMAL_DESCRIPTOR: Buf := [1, 0, 0, 0x80] + ZERO4 + ZERO4 + ZERO4 + ZERO4

  function SecurityBody(descriptor: Buf): (b: Buf)
    ensures |b| == 20 + |descriptor|
  {
    ['s' as int, 'k' as int] + U16Bytes(0) + ZERO4 + ZERO4 + U32Bytes(1) + U32Bytes(AsU32(|descriptor|)) + descriptor
  }

  // ----- all the patches of one cell -----

  /** The links of a node: parent and security descriptor always, the lists (offset and count) if there are any. */
  datatype Links = Links(parent: u32, security: u32, subkeys: Option<(u32, u32)>, values: Option<(u32, u32)>)

  function PutList(b: Buf, list: nat, count: nat, entry: Option<(u32, u32)>): (r: Buf)
    requires list + 4 <= |b| && count + 4 <= |b|
    ensures |r| == |b|
  {
    match entry
    case None => b
    case Some((offset, n)) => Put32(Put32(b, list, offset), count, n)
  }

  function LinkedBody(b: Buf, w: Links): (r: Buf)
    requires |b| >= 48
    ensures |r| == |b|
  {
    var linked := Put32(Put32(b, NK_PARENT, w.parent), NK_SECURITY, w.security);
    PutList(PutList(linked, NK_SUBKEYS_LIST, NK_SUBKEY_COUNT, w.subkeys), NK_VALUES_LIST, NK_VALUE_COUNT, w.values)
  }

  function LinkedNode(nk: RawKeyNode, w: Links): RawKeyNode {
    var a := nk.(parent := w.parent, securityOffset := w.security);
    var c := if w.subkeys.None? then a else a.(subkeysListOffset := w.subkeys.value.0,
                                               subkeyCount := w.subkeys.value.1);
    if w.values.None? then c else c.(valuesListOffset := w.values.value.0, valueCount := w.values.value.1)
  }

  lemma {:induction false} LinkedBodyIs(b: Buf, nk: RawKeyNode, w: Links)
    requires IsNode(b, nk)
    ensures IsNode(LinkedBody(b, w), LinkedNode(nk, w))
  {
    PatchParent(b, nk, w.parent);
    var b1, n1 := Put32(b, NK_PARENT, w.parent), nk.(parent := w.parent);
    PatchSecurity(b1, n1, w.security);
    var b2, n2 := Put32(b1, NK_SECURITY, w.security), n1.(securityOffset := w.security);
    SubkeysPut(b2, n2, w.subkeys);
    ValuesPut(PutList(b2, NK_SUBKEYS_LIST, NK_SUBKEY_COUNT, w.subkeys),
              if w.subkeys.None? then n2 else n2.(subkeysListOffset := w.subkeys.value.0,
                   subkeyCount := w.subkeys.value.1), w.values);
  }

  lemma {:induction false} SubkeysPut(b: Buf, nk: RawKeyNode, entry: Option<(u32, u32)>)
    requires IsNode(b, nk)
    ensures IsNode(PutList(b, NK_SUBKEYS_LIST, NK_SUBKEY_COUNT, entry),
                   if entry.None? then nk else nk.(subkeysListOffset := entry.value.0, subkeyCount := entry.value.1))
  {
    if entry.Some? {
      PatchSubkeysList(b, nk, entry.value.0);
      PatchSubkeyCount(Put32(b, NK_SUBKEYS_LIST, entry.value.0), nk.(subkeysListOffset := entry.value.0),
                       entry.value.1);
    }
  }

  lemma {:induction false} ValuesPut(b: Buf, nk: RawKeyNode, entry: Option<(u32, u32)>)
    requires IsNode(b, nk)
    ensures IsNode(PutList(b, NK_VALUES_LIST, NK_VALUE_COUNT, entry),
                   if entry.None? then nk else nk.(valuesListOffset := entry.value.0, valueCount := entry.value.1))
  {
    if entry.Some? {
      PatchValuesList(b, nk, entry.value.0);
      PatchValueCount(Put32(b, NK_VALUES_LIST, entry.value.0), nk.(valuesListOffset := entry.value.0), entry.value.1);
    }
  }

  /** Linking twice is linking once. */
  lemma {:induction false} LinkedTwice(b: Buf, w: Links)
    requires |b| >= 48
    ensures LinkedBody(LinkedBody(b, w), w) == LinkedBody(b, w)
  {
    assert LinkedBody(LinkedBody(b, w), w) == LinkedBody(b, w);
  }

  /** An `lh` list with these elements written into it. */
  function PutElements(b: Buf, es: seq<LhElement>): (r: Buf)
    requires 4 + 8 * |es| <= |b|
    ensures |r| == |b|
  {
    if es == [] then b else PutElement(PutElements(b, es[..|es| - 1]), |es| - 1, es[|es| - 1])
  }

  lemma {:induction false} PutElementsIs(b: Buf, count: nat, es: seq<LhElement>)
    requires IsLeaf(b, count, []) && |es| <= count
    ensures IsLeaf(PutElements(b, es), count, es)
  {
    if es != [] {
      var init := es[..|es| - 1];
      PutElementsIs(b, count, init);
      PutElementAppends(PutElements(b, init), count, init, es[|es| - 1]);
      assert init + [es[|es| - 1]] == es;
    }
  }

  /** What the elements overwrite does not matter. */
  lemma {:induction false} PutElementsSame(a: Buf, b: Buf, es: seq<LhElement>)
    requires |a| == |b| && 4 + 8 * |es| <= |b| && a[..4] == b[..4] && a[4 + 8 * |es|..] == b[4 + 8 * |es|..]
    ensures PutElements(a, es) == PutElements(b, es)
    decreases |es|
  {
    if es != [] {
      var n := |es| - 1;
      var x, y := PutElement(a, n, es[n]), PutElement(b, n, es[n]);
      PutElementsSplit(a, es);
      PutElementsSplit(b, es);
      assert x[..4] == a[..4] && y[..4] == b[..4];
      assert x[4 + 8 * n..] == y[4 + 8 * n..];
      PutElementsSame(x, y, es[..n]);
    }
  }

  /** The last element can as well be written first. */
  lemma {:induction false} PutElementsSplit(b: Buf, es: seq<LhElement>)
    requires es != [] && 4 + 8 * |es| <= |b|
    ensures PutElements(b, es) == PutElements(PutElement(b, |es| - 1, es[|es| - 1]), es[..|es| - 1])
  {
    PutElementLast(b, es[..|es| - 1], |es| - 1, es[|es| - 1]);
  }

  lemma {:induction false} PutElementLast(b: Buf, es: seq<LhElement>, k: nat, e: LhElement)
    requires |es| <= k && 12 + 8 * k <= |b|
    ensures PutElement(PutElements(b, es), k, e) == PutElements(PutElement(b, k, e), es)
  {
    if es != [] {
      var n := |es| - 1;
      PutElementLast(b, es[..n], k, e);
      PutElementSwap(PutElements(b, es[..n]), n, es[n], k, e);
    }
  }

  lemma {:induction false} PutElementSwap(b: Buf, j: nat, d: LhElement, k: nat, e: LhElement)
    requires j < k && 12 + 8 * k <= |b|
    ensures PutElement(PutElement(b, j, d), k, e) == PutElement(PutElement(b, k, e), j, d)
  {
  }

  /** Filling a list twice is filling it once. */
  lemma {:induction false} PutElementsTwice(b: Buf, es: seq<LhElement>)
    requires |b| == 4 + 8 * |es|
    ensures PutElements(PutElements(b, es), es) == PutElements(b, es)
  {
    PutElementsHead(b, es);
    PutElementsSame(PutElements(b, es), b, es);
  }

  lemma {:induction false} PutElementsHead(b: Buf, es: seq<LhElement>)
    requires 4 + 8 * |es| <= |b|
    ensures PutElements(b, es)[..4] == b[..4]
  {
    if es != [] {
      PutElementsHead(b, es[..|es| - 1]);
    }
  }

  /** A list with these offsets written into it. */
  function PutOffsets(b: Buf, offs: seq<u32>): (r: Buf)
    requires 4 * |offs| <= |b|
    ensures |r| == |b|
  {
    if offs == [] then b else Put32(PutOffsets(b, offs[..|offs| - 1]), 4 * (|offs| - 1), offs[|offs| - 1])
  }

  lemma {:induction false} PutOffsetsIs(b: Buf, count: nat, offs: seq<u32>)
    requires |b| == 4 * count && |offs| <= count
    ensures IsList(PutOffsets(b, offs), count, offs)
  {
    if offs != [] {
      var init := offs[..|offs| - 1];
      PutOffsetsIs(b, count, init);
      PutOffsetAppends(PutOffsets(b, init), count, init, offs[|offs| - 1]);
      assert init + [offs[|offs| - 1]] == offs;
    }
  }
}
