/** When the bytes at a position are a record, and what carving reports of it, field by field
    (`winreg-carve/src/lib.rs`, `winreg-format/src/cells.rs`). */
module CarvedRecords {
  import opened Wrappers
  import opened Bytes
  import opened Sequences
  import opened Text
  import opened Cells
  import opened Carve

  /** Not empty, at most 1024 bytes long, no replacement character and no control character. */
  ghost predicate Printable(name: string) {
    && name != [] && |Utf8(name)| <= 1024
    && forall i | 0 <= i < |name| ::
         name[i] as int != 0xFFFD && name[i] as int >= 0x20 && !(0x7F <= name[i] as int <= 0x9F)
  }

  /** A name stored in one byte per character, or as UTF-16. */
  ghost predicate StoredName(raw: Buf, narrow: bool, name: string) {
    if narrow then |name| == |raw| && forall i | 0 <= i < |raw| :: name[i] as int == raw[i]
    else name == FromUtf16Lossy(Units(raw))
  }

  /** The key record with its signature at `pos`: 76 bytes and the name. */
  ghost predicate KeyBytes(data: Buf, pos: nat, end: nat, name: string, lastWritten: u64, parent: u32) {
    && pos + 76 <= end <= |data| && data[pos] == 0x6E && data[pos + 1] == 0x6B
    && var len := U16At(data, pos + 72);
       && 1 <= len <= 512 && pos + 76 + len <= end
       && U32At(data, pos + 20) <= 1_000_000 && U32At(data, pos + 36) <= 1_000_000
       && StoredName(data[pos + 76..pos + 76 + len], U16At(data, pos + 2) / 32 % 2 == 1, name) && Printable(name)
       && lastWritten == U64At(data, pos + 4) && parent == U32At(data, pos + 16)
  }

  /** The value record with its signature at `pos`: 20 bytes and the name, which may be empty. Only data that is
      stored in the record itself is recovered. */
  ghost predicate ValueBytes(data: Buf, pos: nat, end: nat, name: string, dataType: u32, stored: Buf) {
    && pos + 20 <= end <= |data| && data[pos] == 0x76 && data[pos + 1] == 0x6B
    && var len, size := U16At(data, pos + 2), U32At(data, pos + 4);
       && len <= 512 && pos + 20 + len <= end && size % 0x8000_0000 <= 16_777_216
       && (if len == 0 then name == []
           else StoredName(data[pos + 20..pos + 20 + len], U16At(data, pos + 16) % 2 == 1, name))
       && (name == [] || Printable(name))
       && dataType == U32At(data, pos + 12)
       && stored == if size < 0x8000_0000 then [] else if size >= 0x8000_0004 then data[pos + 8..pos + 12]
                    else data[pos + 8..pos + 8 + (size - 0x8000_0000)]
  }

  /** Reported with the offset of the size field in front of the signature, cut off at 32 bits. */
  ghost predicate ReportedFor(x: Hit, fileOffset: u32, wasLive: bool, source: RecoverySource, confidence: Confidence) {
    && fileOffset as int == (if x.pos < 4 then 0 else if x.pos - 4 > 0xFFFF_FFFF then 0xFFFF_FFFF else x.pos - 4)
    && !wasLive && source == x.source && confidence == if source == RecoverySource.UnallocatedCell then High else Medium
  }

  ghost predicate Reports(data: Buf, x: Hit, rec: RecoveredCell) {
    match rec
    case RecoveredKey(name, lastWritten, parent, at, wasLive, source, confidence) =>
      KeyBytes(data, x.pos, x.end, name, lastWritten, parent) && ReportedFor(x, at, wasLive, source, confidence)
    case RecoveredValue(name, dataType, stored, at, wasLive, source, confidence) =>
      ValueBytes(data, x.pos, x.end, name, dataType, stored) && ReportedFor(x, at, wasLive, source, confidence)
  }

  lemma PrintableExact(name: string)
    ensures NameIsPlausible(name) <==> Printable(name)
  {
    if NameIsPlausible(name) {
      forall i | 0 <= i < |name|
        ensures name[i] as int != 0xFFFD && name[i] as int >= 0x20 && !(0x7F <= name[i] as int <= 0x9F)
      {
        assert name[i] in name;
      }
    }
  }

  lemma NarrowName(raw: Buf, name: string)
    ensures StoredName(raw, true, name) <==> name == Latin(raw)
  {
    if StoredName(raw, true, name) {
      forall i | 0 <= i < |raw| ensures name[i] == Latin(raw)[i] {
        assert name[i] as int == raw[i];
      }
    }
  }

  lemma KeyNameStored(nk: RawKeyNode, name: string)
    ensures StoredName(nk.keyNameRaw, nk.flags / 32 % 2 == 1, name) <==> name == nk.Name()
  {
    NarrowName(nk.keyNameRaw, name);
  }

  lemma ValueNameStored(vk: RawKeyValue, name: string)
    ensures (if vk.nameLen == 0 then name == [] else StoredName(vk.nameRaw, vk.flags % 2 == 1, name))
            <==> name == vk.Name()
  {
    NarrowName(vk.nameRaw, name);
  }

  /** Dropping the undefined flag bits keeps the one that tells the form of the name. */
  lemma FlagKept(flags: u16)
    ensures flags % 0x400 / 32 % 2 == flags / 32 % 2
  {
  }

  lemma RecordSignature(data: Buf, pos: nat)
    requires pos + 2 <= |data|
    ensures SignatureOf(data[pos], data[pos + 1]) == Some(KeyNode) <==> data[pos] == 0x6E && data[pos + 1] == 0x6B
    ensures SignatureOf(data[pos], data[pos + 1]) == Some(KeyValue) <==> data[pos] == 0x76 && data[pos + 1] == 0x6B
  {
  }

  // ----- keys -----

  /** A node that is reported, and what is reported of it. */
  ghost predicate NodeSays(nk: RawKeyNode, name: string, lastWritten: u64, parent: u32) {
    && 1 <= nk.keyNameLen <= 512 && nk.subkeyCount <= 1_000_000 && nk.valueCount <= 1_000_000
    && StoredName(nk.keyNameRaw, nk.flags / 32 % 2 == 1, name) && Printable(name)
    && lastWritten == nk.lastWritten && parent == nk.parent
  }

  predicate NodeEnds(data: Buf, pos: nat, end: nat) {
    pos + 76 <= end <= |data| && pos + 76 + U16At(data, pos + 72) <= end
  }

  /** The node with its signature at `pos`. */
  function NodeAt(data: Buf, pos: nat): RawKeyNode
    requires pos + 76 <= |data| && pos + 76 + U16At(data, pos + 72) <= |data|
  {
    RawKeyNode(U16At(data, pos + 2) % 0x400, U64At(data, pos + 4), U32At(data, pos + 12), U32At(data, pos + 16),
               U32At(data, pos + 20), U32At(data, pos + 24), U32At(data, pos + 28), U32At(data, pos + 32),
               U32At(data, pos + 36), U32At(data, pos + 40), U32At(data, pos + 44), U32At(data, pos + 48),
               U32At(data, pos + 52), U32At(data, pos + 56), U32At(data, pos + 60), U32At(data, pos + 64),
               U32At(data, pos + 68), U16At(data, pos + 72), U16At(data, pos + 74),
               data[pos + 76..pos + 76 + U16At(data, pos + 72)])
  }

  lemma KeyParsed(data: Buf, pos: nat, end: nat)
    requires pos + 2 <= end <= |data|
    ensures ParseKeyNode(data[pos + 2..end]) == if NodeEnds(data, pos, end) then Some(NodeAt(data, pos)) else None
  {
    var d := data[pos + 2..end];
    if NodeEnds(data, pos, end) {
      assert U16At(d, 70) == U16At(data, pos + 72);
      SliceOfSlice(data, pos + 2, end, 74, 74 + U16At(d, 70));
    }
  }

  lemma NodeSaysExact(nk: RawKeyNode, x: Hit, at: nat, rec: RecoveredCell)
    requires rec.RecoveredKey? && at == if x.pos < 4 then 0 else x.pos - 4
    ensures KeyRecord(nk, at, x.source) == Some(rec) <==>
              && NodeSays(nk, rec.name, rec.lastWritten, rec.parentOffset)
              && ReportedFor(x, rec.fileOffset, rec.wasLive, rec.source, rec.confidence)
  {
    KeyNameStored(nk, rec.name);
    PrintableExact(rec.name);
  }

  lemma KeyBytesExact(data: Buf, pos: nat, end: nat, name: string, lastWritten: u64, parent: u32)
    requires NodeEnds(data, pos, end) && data[pos] == 0x6E && data[pos + 1] == 0x6B
    ensures KeyBytes(data, pos, end, name, lastWritten, parent)
            <==> NodeSays(NodeAt(data, pos), name, lastWritten, parent)
  {
    FlagKept(U16At(data, pos + 2));
  }

  /** The outcome of trying a key is what its node says. */
  lemma KeyOutcome(data: Buf, x: Hit, at: nat, rec: RecoveredCell)
    requires rec.RecoveredKey? && at == if x.pos < 4 then 0 else x.pos - 4
    requires NodeEnds(data, x.pos, x.end) && data[x.pos] == 0x6E && data[x.pos + 1] == 0x6B
    ensures KeyRecord(NodeAt(data, x.pos), at, x.source) == Some(rec) <==> Reports(data, x, rec)
  {
    NodeSaysExact(NodeAt(data, x.pos), x, at, rec);
    KeyBytesExact(data, x.pos, x.end, rec.name, rec.lastWritten, rec.parentOffset);
  }

  lemma NodeCandidateAt(data: Buf, pos: nat, end: nat)
    requires pos + 2 <= end <= |data| && data[pos] == 0x6E && data[pos + 1] == 0x6B
    ensures CandidateAt(data, pos, end)
            == if NodeEnds(data, pos, end) then Some(NodeCandidate(NodeAt(data, pos))) else None
  {
    RecordSignature(data, pos);
    KeyParsed(data, pos, end);
  }

  lemma NoNodeCandidate(data: Buf, pos: nat, end: nat)
    requires pos + 2 <= end <= |data| ==> !(data[pos] == 0x6E && data[pos + 1] == 0x6B)
    ensures var c := CandidateAt(data, pos, end); c.Some? ==> c.value.ValueCandidate?
  {
    if pos + 2 <= end <= |data| {
      RecordSignature(data, pos);
    }
  }

  lemma KeyExact(data: Buf, x: Hit, at: nat, rec: RecoveredCell)
    requires rec.RecoveredKey? && at == if x.pos < 4 then 0 else x.pos - 4
    ensures TryRecord(data, x.pos, x.end, at, x.source) == Some(rec) <==> Reports(data, x, rec)
  {
    if x.pos + 2 <= x.end <= |data| && data[x.pos] == 0x6E && data[x.pos + 1] == 0x6B {
      NodeCandidateAt(data, x.pos, x.end);
      if NodeEnds(data, x.pos, x.end) {
        KeyOutcome(data, x, at, rec);
      }
    } else {
      NoNodeCandidate(data, x.pos, x.end);
    }
  }

  // ----- values -----

  lemma TypeBack(raw: u32)
    ensures TypeToRaw(TypeFromRaw(raw)) == raw
  {
  }

  /** A value that is reported, and what is reported of it. */
  ghost predicate ValueSays(vk: RawKeyValue, name: string, dataType: u32, stored: Buf) {
    && vk.nameLen <= 512 && vk.dataSizeRaw % 0x8000_0000 <= 16_777_216
    && (if vk.nameLen == 0 then name == [] else StoredName(vk.nameRaw, vk.flags % 2 == 1, name))
    && (name == [] || Printable(name)) && dataType == TypeToRaw(vk.dataType)
    && stored == if vk.dataSizeRaw < 0x8000_0000 then [] else vk.InlineData()
  }

  predicate ValueEnds(data: Buf, pos: nat, end: nat) {
    pos + 20 <= end <= |data| && pos + 20 + U16At(data, pos + 2) <= end
  }

  /** The value with its signature at `pos`. */
  function ValueAt(data: Buf, pos: nat): RawKeyValue
    requires pos + 20 <= |data| && pos + 20 + U16At(data, pos + 2) <= |data|
  {
    RawKeyValue(U16At(data, pos + 2), U32At(data, pos + 4), U32At(data, pos + 8), TypeFromRaw(U32At(data, pos + 12)),
                U16At(data, pos + 16) % 2, data[pos + 20..pos + 20 + U16At(data, pos + 2)])
  }

  lemma ValueParsed(data: Buf, pos: nat, end: nat)
    requires pos + 2 <= end <= |data|
    ensures ParseKeyValue(data[pos + 2..end]) == if ValueEnds(data, pos, end) then Some(ValueAt(data, pos)) else None
  {
    var d := data[pos + 2..end];
    if ValueEnds(data, pos, end) {
      SliceOfSlice(data, pos + 2, end, 18, 18 + U16At(d, 0));
    }
  }

  lemma ValueSaysExact(vk: RawKeyValue, x: Hit, at: nat, rec: RecoveredCell)
    requires rec.RecoveredValue? && at == if x.pos < 4 then 0 else x.pos - 4
    ensures ValueRecord(vk, at, x.source) == Some(rec) <==>
              && ValueSays(vk, rec.name, rec.dataType, rec.data)
              && ReportedFor(x, rec.fileOffset, rec.wasLive, rec.source, rec.confidence)
  {
    ValueNameStored(vk, rec.name);
    PrintableExact(rec.name);
  }

  lemma InlineExact(data: Buf, pos: nat, vk: RawKeyValue)
    requires pos + 12 <= |data| && vk.IsResident()
    requires vk.dataSizeRaw == U32At(data, pos + 4) && vk.dataOffsetRaw == U32At(data, pos + 8)
    ensures vk.InlineData() ==
            data[pos + 8..pos + 8 + if vk.dataSizeRaw >= 0x8000_0004 then 4 else vk.dataSizeRaw - 0x8000_0000]
  {
    U32AtSlice(data, pos + 8, pos + 12, 0);
    U32Injective(U32Bytes(vk.dataOffsetRaw), data[pos + 8..pos + 12]);
    SliceOfSlice(data, pos + 8, pos + 12, 0,
                 if vk.dataSizeRaw >= 0x8000_0004 then 4 else vk.dataSizeRaw - 0x8000_0000);
  }

  lemma ValueBytesExact(data: Buf, pos: nat, end: nat, name: string, dataType: u32, stored: Buf)
    requires ValueEnds(data, pos, end) && data[pos] == 0x76 && data[pos + 1] == 0x6B
    ensures ValueBytes(data, pos, end, name, dataType, stored)
            <==> ValueSays(ValueAt(data, pos), name, dataType, stored)
  {
    TypeBack(U32At(data, pos + 12));
    if ValueAt(data, pos).IsResident() {
      InlineExact(data, pos, ValueAt(data, pos));
    }
  }

  lemma ValueOutcome(data: Buf, x: Hit, at: nat, rec: RecoveredCell)
    requires rec.RecoveredValue? && at == if x.pos < 4 then 0 else x.pos - 4
    requires ValueEnds(data, x.pos, x.end) && data[x.pos] == 0x76 && data[x.pos + 1] == 0x6B
    ensures ValueRecord(ValueAt(data, x.pos), at, x.source) == Some(rec) <==> Reports(data, x, rec)
  {
    ValueSaysExact(ValueAt(data, x.pos), x, at, rec);
    ValueBytesExact(data, x.pos, x.end, rec.name, rec.dataType, rec.data);
  }

  lemma ValueCandidateAt(data: Buf, pos: nat, end: nat)
    requires pos + 2 <= end <= |data| && data[pos] == 0x76 && data[pos + 1] == 0x6B
    ensures CandidateAt(data, pos, end)
            == if ValueEnds(data, pos, end) then Some(ValueCandidate(ValueAt(data, pos))) else None
  {
    RecordSignature(data, pos);
    ValueParsed(data, pos, end);
  }

  lemma NoValueCandidate(data: Buf, pos: nat, end: nat)
    requires pos + 2 <= end <= |data| ==> !(data[pos] == 0x76 && data[pos + 1] == 0x6B)
    ensures var c := CandidateAt(data, pos, end); c.Some? ==> c.value.NodeCandidate?
  {
    if pos + 2 <= end <= |data| {
      RecordSignature(data, pos);
    }
  }

  lemma ValueExact(data: Buf, x: Hit, at: nat, rec: RecoveredCell)
    requires rec.RecoveredValue? && at == if x.pos < 4 then 0 else x.pos - 4
    ensures TryRecord(data, x.pos, x.end, at, x.source) == Some(rec) <==> Reports(data, x, rec)
  {
    if x.pos + 2 <= x.end <= |data| && data[x.pos] == 0x76 && data[x.pos + 1] == 0x6B {
      ValueCandidateAt(data, x.pos, x.end);
      if ValueEnds(data, x.pos, x.end) {
        ValueOutcome(data, x, at, rec);
      }
    } else {
      NoValueCandidate(data, x.pos, x.end);
    }
  }

  /** A record is recognised, and this is reported of it, exactly when the bytes say so. */
  lemma RecordExact(data: Buf, x: Hit, rec: RecoveredCell)
    ensures FlatCarver(data).record(x) == Some(rec) <==> Reports(data, x, rec)
  {
    var at := if x.pos < 4 then 0 else x.pos - 4;
    if rec.RecoveredKey? {
      KeyExact(data, x, at, rec);
    } else {
      ValueExact(data, x, at, rec);
    }
  }
}
