/** Opening a hive and reading cells by offset (`winreg-core/src/hive.rs`, `cell_reader.rs`). */
module Hives {
  import opened Wrappers
  import opened Bytes
  import opened Cells
  import opened Header

  datatype HbinDescriptor = HbinDescriptor(offset: u32, size: u32, fileOffset: nat)

  datatype Hive = Hive(data: Buf, header: BaseBlock, bins: seq<HbinDescriptor>)

  // ----- cataloguing bins -----

  /** The bins found from `pos` on: a short file or a bad size ends the walk, a missing signature is
      an error. */
  function BinsFrom(data: Buf, pos: nat, end: nat): Result<seq<HbinDescriptor>>
    decreases |data| - pos
  {
    if pos >= end || pos + 32 > |data| then Ok([])
    else if !HasSignature(data, pos, "hbin") then Err(InvalidHbin(pos))
    else if U32At(data, pos + 8) == 0 || U32At(data, pos + 8) % 4096 != 0 then Ok([])
    else
      var rest :- BinsFrom(data, pos + U32At(data, pos + 8), end);
      Ok([HbinDescriptor(U32At(data, pos + 4), U32At(data, pos + 8), pos)] + rest)
  }

  method CatalogHbins(data: Buf, start: nat, expectedSize: nat) returns (r: Result<seq<HbinDescriptor>>)
    ensures r == BinsFrom(data, start, start + expectedSize)
  {
    var bins: seq<HbinDescriptor> := [];
    var pos := start;
    var end := start + expectedSize;
    assert forall rest :: bins + rest == rest;
    while pos < end
      invariant BinsFrom(data, start, end) ==
                match BinsFrom(data, pos, end)
                case Err(e) => Err(e)
                case Ok(rest) => Ok(bins + rest)
      decreases |data| - pos
    {
      if pos + 32 > |data| {
        break;
      }
      if !HasSignature(data, pos, "hbin") {
        return Err(InvalidHbin(pos));
      }
      var size := LeU32(data, pos + 8);
      if size == 0 || size % 4096 != 0 {
        break;
      }
      var bin := HbinDescriptor(LeU32(data, pos + 4), size, pos);
      assert forall rest :: bins + ([bin] + rest) == bins + [bin] + rest;
      bins := bins + [bin];
      pos := pos + size;
    }
    assert bins + [] == bins;
    r := Ok(bins);
  }

  /** Catalogued bins start inside the data, in increasing order and without overlap. */
  ghost predicate BinsTile(bins: seq<HbinDescriptor>, from: nat, dataLen: nat) {
    && (forall i | 0 <= i < |bins| ::
          from <= bins[i].fileOffset && bins[i].fileOffset + 32 <= dataLen && bins[i].size >= 4096)
    && (forall i, j | 0 <= i < j < |bins| :: bins[i].fileOffset + bins[i].size <= bins[j].fileOffset)
  }

  lemma {:induction false} CataloguedBinsTile(data: Buf, pos: nat, end: nat)
    requires BinsFrom(data, pos, end).Ok?
    ensures BinsTile(BinsFrom(data, pos, end).value, pos, |data|)
    decreases |data| - pos
  {
    if pos < end && pos + 32 <= |data| && HasSignature(data, pos, "hbin") {
      var size := U32At(data, pos + 8);
      if size != 0 && size % 4096 == 0 {
        CataloguedBinsTile(data, pos + size, end);
      }
    }
  }

  // ----- opening -----

  /** `Hive::from_bytes`: length, signature, checksum, version and bins are checked in that order. */
  function FromBytes(data: Buf): (r: Result<Hive>)
    ensures r.Ok? ==> r.value.data == data && ValidChecksum(data) && BinsTile(r.value.bins, BASE_BLOCK_SIZE, |data|)
  {
    if |data| < BASE_BLOCK_SIZE then Err(TruncatedHive)
    else
      match ParseBaseBlock(data)
      case None => Err(InvalidSignature)
      case Some(header) =>
        if !ValidChecksum(data) then Err(ChecksumMismatch(U32At(data, CHECKSUM_OFFSET), Checksum(data)))
        else if header.minorVersion > 6 then Err(UnsupportedVersion(header.minorVersion))
        else
          var bins :- BinsFrom(data, BASE_BLOCK_SIZE, BASE_BLOCK_SIZE + header.hiveBinsDataSize);
          CataloguedBinsTile(data, BASE_BLOCK_SIZE, BASE_BLOCK_SIZE + header.hiveBinsDataSize);
          Ok(Hive(data, header, bins))
  }

  /** A short file that opens: the signature, repeated in the time stamp so that the two cancel out, a word of the
      time stamp, the checksum 1, and what follows the base block. */
  function Short(word: byte, rest: Buf): (h: Buf)
    ensures |h| == BASE_BLOCK_SIZE + |rest| && h[BASE_BLOCK_SIZE..] == rest
  {
    seq(BASE_BLOCK_SIZE, i => if i == 0 || i == 12 then 'r' as int else if i == 1 || i == 13 then 'e' as int
                              else if i == 2 || i == 14 then 'g' as int else if i == 3 || i == 15 then 'f' as int
                              else if i == 16 then word else if i == CHECKSUM_OFFSET then 1 else 0) + rest
  }

  lemma {:induction false} ShortSum(word: byte, rest: Buf)
    ensures RawSum(Short(word, rest), SUMMED_WORDS) == word
  {
    FifthWordLeft(Short(word, rest), U32At(Short(word, rest), 0));
    ZeroWords(Short(word, rest), 5, SUMMED_WORDS);
  }

  lemma {:induction false} ShortFields(word: byte, rest: Buf)
    requires word <= 1
    ensures var h := Short(word, rest);
            HasSignature(h, 0, "regf") && ValidChecksum(h) && U32At(h, 0x18) == 0 && U32At(h, 0x28) == 0
  {
    ShortSum(word, rest);
    assert U32At(Short(word, rest), CHECKSUM_OFFSET) == 1 && Escape(word) == 1;
  }

  lemma {:induction false} Opening(h: Buf)
    requires |h| >= BASE_BLOCK_SIZE && HasSignature(h, 0, "regf") && ValidChecksum(h) && U32At(h, 0x18) == 0
             && U32At(h, 0x28) == 0
    ensures FromBytes(h).Ok? && FromBytes(h).value.header.rootCellOffset == U32At(h, 0x24)
  {
  }

  lemma {:induction false} OneByteApart()
    ensures Short(0, [])[16] == 0 && Short(1, []) == Short(0, [])[16 := 1]
  {
  }

  /** The escapes of the checksum do lose changes: both files open, and they differ in one summed word. */
  lemma {:induction false} UndetectedChange() returns (h: Buf, g: Buf)
    ensures |h| == 4096 && h[16] == 0 && g == h[16 := 1]
    ensures FromBytes(h).Ok? && FromBytes(g).Ok?
  {
    h, g := Short(0, []), Short(1, []);
    OneByteApart();
    ShortFields(0, []);
    ShortFields(1, []);
    Opening(h);
    Opening(g);
  }

  // ----- cells -----

  datatype RawCell = RawCell(header: CellHeader, body: Buf)

  datatype Cell =
    | KeyNodeCell(nk: RawKeyNode)
    | KeyValueCell(vk: RawKeyValue)
    | SecurityKeyCell(sk: RawSecurityKey)
    | IndexCell(index: SubkeyIndex)
    | BigDataCell(db: RawBigData)
    | DataCell(bytes: Buf)

  /** Flat-file cell resolution. A size field of -1 to -3 ends the body before it starts, and the source's slice
      panics: `SlicePanic` stands for that. */
  function ReadCellRaw(data: Buf, offset: u32): (r: Result<RawCell>)
    ensures r.Ok? ==> 4096 + offset + 4 + |r.value.body| <= |data|
    ensures r.Ok? ==> r.value.body == data[4096 + offset + 4..4096 + offset + 4 + |r.value.body|]
  {
    var at := 4096 + offset;
    if offset == NULL_OFFSET then Err(NullOffset)
    else if at + 4 > |data| then Err(CellOverflow(offset))
    else
      var header := CellHeader(I32At(data, at));
      if !header.IsAllocated() then Err(UnallocatedCell(offset))
      else if at + header.Size() > |data| then Err(CellOverflow(offset))
      else if header.Size() < 4 then Err(SlicePanic(offset))
      else Ok(RawCell(header, data[at + 4..at + header.Size()]))
  }

  /** Reading panics exactly at a size field of -1, -2 or -3 inside the data. */
  lemma {:induction false} PanicsExactly(data: Buf, offset: u32)
    ensures ReadCellRaw(data, offset).Err? && ReadCellRaw(data, offset).error.SlicePanic? <==>
            offset != NULL_OFFSET && 4096 + offset + 4 <= |data| && U32At(data, 4096 + offset) >= 0xFFFF_FFFD
  {
  }

  /** A file that opens, and whose root key panics when it is read. */
  lemma {:induction false} PanickingRoot() returns (data: Buf)
    ensures FromBytes(data).Ok? && ReadCell(data, FromBytes(data).value.header.rootCellOffset) == Err(SlicePanic(0))
  {
    data := Short(0, [0xFF, 0xFF, 0xFF, 0xFF]);
    ShortFields(0, [0xFF, 0xFF, 0xFF, 0xFF]);
    Opening(data);
    SizeAfterBase(data);
    PanicsExactly(data, 0);
  }

  lemma {:induction false} SizeAfterBase(data: Buf)
    requires data == Short(0, [0xFF, 0xFF, 0xFF, 0xFF])
    ensures U32At(data, 0x24) == 0 && |data| == 4100 && U32At(data, 4096) == 0xFFFF_FFFF
  {
    assert data[4096..] == [0xFF, 0xFF, 0xFF, 0xFF];
    assert forall k | 0 <= k < 4 :: data[4096 + k] == data[4096..][k];
  }

  function OrInvalid<T>(parsed: Option<T>, offset: nat): Result<T> {
    match parsed
    case Some(x) => Ok(x)
    case None => Err(InvalidCellSignature(offset))
  }

  function DispatchCell(offset: u32, body: Buf): Result<Cell> {
    if |body| < 2 then Ok(DataCell(body))
    else
      match SignatureOf(body[0], body[1])
      case Some(KeyNode) => var nk :- OrInvalid(ParseKeyNode(body[2..]), offset); Ok(KeyNodeCell(nk))
      case Some(KeyValue) => var vk :- OrInvalid(ParseKeyValue(body[2..]), offset); Ok(KeyValueCell(vk))
      case Some(SecurityKey) => var sk :- OrInvalid(ParseSecurityKey(body[2..]), offset); Ok(SecurityKeyCell(sk))
      case Some(FastLeaf) => var lf :- OrInvalid(ParseLf(body[2..]), offset); Ok(IndexCell(lf))
      case Some(HashLeaf) => var lh :- OrInvalid(ParseLh(body[2..]), offset); Ok(IndexCell(lh))
      case Some(IndexLeaf) => var li :- OrInvalid(ParseLi(body[2..]), offset); Ok(IndexCell(li))
      case Some(RootIndex) => var ri :- OrInvalid(ParseRi(body[2..]), offset); Ok(IndexCell(ri))
      case Some(BigData) => var db :- OrInvalid(ParseBigData(body[2..]), offset); Ok(BigDataCell(db))
      case None => Ok(DataCell(body))
  }

  function ReadCell(data: Buf, offset: u32): Result<Cell> {
    var raw :- ReadCellRaw(data, offset);
    DispatchCell(offset, raw.body)
  }

  /** The seam between navigation and storage (the `CellReader` trait): navigation sees a backend only
      through these. `maxIndexDepth` bounds the nesting of `ri` lists. */
  datatype CellReader = CellReader(raw: u32 -> Result<RawCell>, cell: u32 -> Result<Cell>, maxIndexDepth: nat)

  /** The flat-file backend. Its index depth suffices wherever any depth does (`Keys.FlatDepthSuffices`). */
  function FlatFile(data: Buf): CellReader {
    CellReader((o: u32) => ReadCellRaw(data, o), (o: u32) => ReadCell(data, o), |data| + 1)
  }
}
