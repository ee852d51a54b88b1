/** Decoding of string data (`decode_utf16le` and `decode_multi_sz` in `winreg-core/src/value.rs`). */
module MultiSz {
  import opened Bytes
  import opened Sequences
  import opened Text

  /** The index of the first NUL, or the length. */
  function FirstNul(u: seq<u16>): (i: nat)
    ensures i <= |u| && (i < |u| ==> u[i] == 0)
    ensures forall k | 0 <= k < i :: u[k] != 0
  {
    if u == [] || u[0] == 0 then 0 else 1 + FirstNul(u[1..])
  }

  /** The strings up to the first empty one; a last string may lack its terminator. */
  function Strings(u: seq<u16>): seq<seq<u16>> {
    var i := FirstNul(u);
    if i == 0 then []
    else if i == |u| then [u]
    else [u[..i]] + Strings(u[i + 1..])
  }

  function DecodeMultiSz(data: Buf): seq<string> {
    Map(FromUtf16Lossy, Strings(Units(data)))
  }

  lemma FirstNulIs(u: seq<u16>, i: nat)
    requires i <= |u| && (i < |u| ==> u[i] == 0) && forall k | 0 <= k < i :: u[k] != 0
    ensures FirstNul(u) == i
  {
  }

  /** `take_while(|c| c != 0)`. */
  method TakeUntilNul(u: seq<u16>) returns (taken: seq<u16>)
    ensures taken == u[..FirstNul(u)]
  {
    taken := [];
    for k := 0 to |u|
      invariant taken == u[..k] && forall j | 0 <= j < k :: u[j] != 0
    {
      if u[k] == 0 {
        FirstNulIs(u, k);
        return;
      }
      taken := taken + [u[k]];
    }
    FirstNulIs(u, |u|);
  }

  /** What is left at an empty string, or after the last NUL. */
  lemma EndOfStrings(u: seq<u16>, start: nat)
    requires start <= |u|
    requires (start < |u| && u[start] == 0) || forall k | start <= k < |u| :: u[k] != 0
    ensures var rest := u[start..][..FirstNul(u[start..])];
            Strings(u[start..]) == if rest == [] then [] else [rest]
  {
    if start < |u| && u[start] == 0 {
      FirstNulIs(u[start..], 0);
    } else {
      FirstNulIs(u[start..], |u| - start);
      assert u[start..][..|u| - start] == u[start..];
    }
  }

  lemma MapPush<T>(decode: seq<u16> -> T, parts: seq<seq<u16>>, last: seq<u16>)
    ensures Map(decode, parts + [last]) == Map(decode, parts) + [decode(last)]
  {
  }

  // ----- encoding and its inverse -----

  predicate Storable(u: seq<u16>) { u != [] && 0 !in u }

  /** Each string followed by a NUL. */
  function Terminated(us: seq<seq<u16>>): seq<u16> {
    if us == [] then [] else us[0] + [0] + Terminated(us[1..])
  }

  /** Whatever follows the terminated strings is decoded after them. */
  lemma {:induction false} StringsOfTerminated(us: seq<seq<u16>>, tail: seq<u16>)
    requires forall u | u in us :: Storable(u)
    ensures Strings(Terminated(us) + tail) == us + Strings(tail)
  {
    if us == [] {
      assert Terminated(us) + tail == tail;
    } else {
      var u, rest := us[0], Terminated(us[1..]) + tail;
      assert u in us;
      assert Terminated(us) + tail == u + [0] + rest;
      FirstString(u, rest);
      StringsOfTerminated(us[1..], tail);
      AppendAssociates([u], us[1..], Strings(tail));
      assert us == [u] + us[1..];
    }
  }

  lemma FirstString(u: seq<u16>, rest: seq<u16>)
    requires Storable(u)
    ensures Strings(u + [0] + rest) == [u] + Strings(rest)
  {
    var all := u + [0] + rest;
    FirstNulIs(all, |u|);
    assert all[..|u|] == u && all[|u| + 1..] == rest;
  }

  function UnitBytes(u: seq<u16>): (b: Buf)
    ensures |b| == 2 * |u| && Units(b) == u
  {
    if u == [] then []
    else
      var head, rest := U16Bytes(u[0]), UnitBytes(u[1..]);
      var b := head + rest;
      assert forall i | 0 < i < |u| :: Units(b)[i] == Units(rest)[i - 1];
      b
  }

  lemma {:induction false} CodeUnitsStorable(s: string)
    requires s != [] && '\0' !in s
    ensures Storable(ToUtf16(s))
  {
    assert s[0] != '\0';
    if |s| > 1 {
      assert '\0' !in s[1..];
      CodeUnitsStorable(s[1..]);
    }
  }

  // ----- single strings -----

  /** `decode_utf16le`: up to the first NUL; an odd last byte is dropped. */
  function DecodeUtf16Le(data: Buf): string {
    var u := Units(data);
    FromUtf16Lossy(u[..FirstNul(u)])
  }

  lemma {:induction false} NoNulUnits(s: string)
    requires '\0' !in s
    ensures 0 !in ToUtf16(s)
  {
    if s != [] {
      CodeUnitsStorable(s);
    }
  }

  lemma OddByteDropped(u: seq<u16>, odd: Buf)
    requires |odd| <= 1
    ensures Units(UnitBytes(u) + odd) == u
  {
    assert forall i | 0 <= i < |u| :: Units(UnitBytes(u))[i] == u[i];
  }

  /** Decoding inverts the encoding of a string without NUL, with or without a terminator, whatever follows it and
      even with a stray last byte. */
  lemma {:induction false} StringDecodes(s: string, tail: seq<u16>, odd: Buf)
    requires '\0' !in s && (tail == [] || tail[0] == 0) && |odd| <= 1
    ensures DecodeUtf16Le(UnitBytes(ToUtf16(s) + tail) + odd) == s
  {
    var u := ToUtf16(s);
    NoNulUnits(s);
    OddByteDropped(u + tail, odd);
    FirstNulIs(u + tail, |u|);
    assert (u + tail)[..|u|] == u;
    Utf16RoundTrip(s);
  }

  /** Decoding inverts the double-NUL-terminated encoding of non-empty, NUL-free strings, and still does
      when the final terminator, or both final terminators, are missing. */
  lemma DecodeInvertsEncode(list: seq<string>)
    requires forall s | s in list :: s != [] && '\0' !in s
    ensures var body := Terminated(Map(ToUtf16, list));
            && DecodeMultiSz(UnitBytes(body + [0])) == list
            && DecodeMultiSz(UnitBytes(body)) == list
            && (list != [] ==> body != [] && DecodeMultiSz(UnitBytes(body[..|body| - 1])) == list)
  {
    var us := Map(ToUtf16, list);
    UnitsDecode(list);
    var body := Terminated(us);
    StringsOfTerminated(us, [0]);
    StringsOfTerminated(us, []);
    assert Strings([0]) == [] && Strings([]) == [] && body + [] == body && us + [] == us;
    if list != [] {
      LastUnterminated(us);
    }
  }

  lemma UnitsDecode(list: seq<string>)
    requires forall s | s in list :: s != [] && '\0' !in s
    ensures forall u | u in Map(ToUtf16, list) :: Storable(u)
    ensures Map(FromUtf16Lossy, Map(ToUtf16, list)) == list
  {
    assert forall i | 0 <= i < |list| :: list[i] in list;
    forall i | 0 <= i < |list| ensures Storable(ToUtf16(list[i])) && FromUtf16Lossy(ToUtf16(list[i])) == list[i] {
      CodeUnitsStorable(list[i]);
      Utf16RoundTrip(list[i]);
    }
  }

  lemma LastUnterminated(us: seq<seq<u16>>)
    requires us != [] && forall u | u in us :: Storable(u)
    ensures var body := Terminated(us);
            body != [] && Strings(body[..|body| - 1]) == us
  {
    var n := |us| - 1;
    var last := us[n];
    assert us == us[..n] + [last];
    TerminatedPush(us[..n], last);
    var body := Terminated(us);
    assert body[..|body| - 1] == Terminated(us[..n]) + last;
    StringsOfTerminated(us[..n], last);
    assert last in us;
    FirstNulIs(last, |last|);
  }

  lemma {:induction false} TerminatedPush(us: seq<seq<u16>>, last: seq<u16>)
    ensures Terminated(us + [last]) == Terminated(us) + last + [0]
  {
    if us == [] {
      assert [] + [last] == [last];
    } else {
      TerminatedPush(us[1..], last);
      assert (us + [last])[1..] == us[1..] + [last];
    }
  }

  /** The data is read as a list ends at its first empty string: what follows is not decoded. */
  lemma AfterEmptyStringIgnored(us: seq<seq<u16>>, junk: seq<u16>)
    requires forall u | u in us :: Storable(u)
    ensures Strings(Terminated(us) + ([0] + junk)) == us
  {
    StringsOfTerminated(us, [0] + junk);
    FirstNulIs([0] + junk, 0);
    assert us + [] == us;
  }

  // ----- the loop of the source -----

  method Decode(data: Buf) returns (strings: seq<string>)
    ensures strings == DecodeMultiSz(data)
  {
    strings := DecodeUnits(Units(data), FromUtf16Lossy);
  }

  method DecodeUnits<T>(u: seq<u16>, decode: seq<u16> -> T) returns (strings: seq<T>)
    ensures strings == Map(decode, Strings(u))
  {
    var start: nat;
    ghost var parts;
    strings, start, parts := ScanStrings(u, decode);
    assert u[..start] + u[start..] == u;
    StringsOfTerminated(parts, u[start..]);
    EndOfStrings(u, start);
    var remaining := TakeUntilNul(u[start..]);
    if remaining != [] {
      MapPush(decode, parts, remaining);
      strings := strings + [decode(remaining)];
    }
  }

  lemma WordEnds(u: seq<u16>, start: nat, i: nat, parts: seq<seq<u16>>)
    requires start < i < |u| && u[i] == 0 && (forall k | start <= k < i :: u[k] != 0)
    requires Terminated(parts) == u[..start]
    ensures Terminated(parts + [u[start..i]]) == u[..i + 1] && Storable(u[start..i])
  {
    TerminatedPush(parts, u[start..i]);
    assert u[..i + 1] == u[..start] + u[start..i] + [0];
  }

  /** The loop over the code units: decodes every terminated string up to the first empty one, and
      leaves `start` at that empty string or at the unterminated rest. */
  method ScanStrings<T>(u: seq<u16>, decode: seq<u16> -> T)
    returns (strings: seq<T>, start: nat, ghost parts: seq<seq<u16>>)
    ensures start <= |u|
    ensures (start < |u| && u[start] == 0) || forall k | start <= k < |u| :: u[k] != 0
    ensures (forall p | p in parts :: Storable(p)) && Terminated(parts) == u[..start]
    ensures strings == Map(decode, parts)
  {
    strings, start, parts := [], 0, [];
    for i := 0 to |u|
      invariant start <= i
      invariant forall k | start <= k < i :: u[k] != 0
      invariant (forall p | p in parts :: Storable(p)) && Terminated(parts) == u[..start]
      invariant strings == Map(decode, parts)
    {
      if u[i] == 0 {
        if i == start {
          return;
        }
        WordEnds(u, start, i, parts);
        MapPush(decode, parts, u[start..i]);
        strings := strings + [decode(u[start..i])];
        parts := parts + [u[start..i]];
        start := i + 1;
      }
    }
  }
}
