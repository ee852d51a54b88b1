/** Transaction log replay: a page overlay over the hive bytes, and the log reader that fills it
    (`winreg-core/src/txlog.rs`). */
module TxLog {
  import opened Bytes

  /** Replacement bytes for the file range that starts at `offset`. */
  datatype Page = Page(offset: nat, bytes: Buf)

  type Pages = map<nat, Buf>

  // ----- the overlay, byte by byte -----

  predicate CoversAt(pages: Pages, start: nat, pos: nat) {
    start in pages && start <= pos < start + |pages[start]|
  }

  /** The greatest start, not above `start`, of a page that covers `pos`. */
  function GreatestCover(pages: Pages, pos: nat, start: nat): (r: int)
    ensures r >= 0 ==> r <= start && CoversAt(pages, r, pos)
    ensures forall s: nat | r < s <= start :: !CoversAt(pages, s, pos)
    ensures -1 <= r
  {
    if CoversAt(pages, start, pos) then start
    else if start == 0 then -1
    else GreatestCover(pages, pos, start - 1)
  }

  /** A byte of the overlay: from the covering page with the greatest start, else from the base, else 0. */
  function ByteAt(base: Buf, pages: Pages, pos: nat): byte {
    var start := GreatestCover(pages, pos, pos);
    if start >= 0 then pages[start][pos - start]
    else if pos < |base| then base[pos]
    else 0
  }

  function Overlaid(base: Buf, pages: Pages): (r: Buf)
    ensures |r| == |base|
  {
    seq(|base|, i requires 0 <= i < |base| => ByteAt(base, pages, i))
  }

  lemma {:induction false} GreatestExists(s: set<nat>)
    requires s != {}
    ensures exists m | m in s :: forall x | x in s :: x <= m
  {
    var a :| a in s;
    if s != {a} {
      GreatestExists(s - {a});
      var m :| m in s - {a} && forall x | x in s - {a} :: x <= m;
      var top := if m < a then a else m;
      assert top in s;
      forall x | x in s ensures x <= top {
        assert x == a || x in s - {a};
      }
    }
  }

  class OverlayBuffer {
    const base: Buf
    var dirtyPages: Pages

    constructor (base: Buf)
      ensures this.base == base && dirtyPages == map[]
    {
      this.base := base;
      dirtyPages := map[];
    }

    method ApplyPage(offset: nat, data: Buf)
      modifies this
      ensures dirtyPages == old(dirtyPages)[offset := data]
    {
      dirtyPages := dirtyPages[offset := data];
    }

    /** The search through the pages from the greatest offset down. */
    method FindPage(pos: nat) returns (start: int)
      ensures start == GreatestCover(dirtyPages, pos, pos)
    {
      var remaining := dirtyPages.Keys;
      while remaining != {}
        invariant remaining <= dirtyPages.Keys
        invariant forall s | s in dirtyPages && s !in remaining :: !CoversAt(dirtyPages, s, pos)
        invariant forall s, t | s in remaining && t in dirtyPages && t !in remaining :: s < t
        decreases remaining
      {
        GreatestExists(remaining);
        var top :| top in remaining && forall x | x in remaining :: x <= top;
        if top <= pos < top + |dirtyPages[top]| {
          ghost var best := GreatestCover(dirtyPages, pos, pos);
          assert CoversAt(dirtyPages, top, pos);
          assert best in dirtyPages && (best in remaining ==> best <= top);
          return top;
        }
        remaining := remaining - {top};
      }
      return -1;
    }

    method ReadAt(offset: nat, len: nat) returns (result: Buf)
      ensures |result| == len
      ensures forall i | 0 <= i < len :: result[i] == ByteAt(base, dirtyPages, offset + i)
    {
      result := [];
      for i := 0 to len
        invariant |result| == i
        invariant forall k | 0 <= k < i :: result[k] == ByteAt(base, dirtyPages, offset + k)
      {
        var pos := offset + i;
        var start := FindPage(pos);
        var b: byte := if start >= 0 then dirtyPages[start][pos - start] else if pos < |base| then base[pos] else 0;
        result := result + [b];
      }
    }

    method Materialize() returns (result: Buf)
      ensures result == Overlaid(base, dirtyPages)
    {
      result := ReadAt(0, |base|);
    }
  }

  /** Reading a range inside the base gives the same bytes as slicing the materialized buffer. */
  method ReadThenSlice(o: OverlayBuffer, offset: nat, len: nat) returns (read: Buf, all: Buf)
    requires offset + len <= |o.base|
    ensures |all| == |o.base| && read == all[offset..offset + len]
  {
    read := o.ReadAt(offset, len);
    all := o.Materialize();
  }

  // ----- sequential patching, the simple meaning -----

  /** Writes a page into a buffer, clipped to the buffer's length. */
  function Patch(buf: Buf, page: Page): (r: Buf)
    ensures |r| == |buf|
  {
    seq(|buf|, i requires 0 <= i < |buf| =>
      if page.offset <= i < page.offset + |page.bytes| then page.bytes[i - page.offset] else buf[i])
  }

  function PatchAll(base: Buf, ps: seq<Page>): (r: Buf)
    ensures |r| == |base|
  {
    if ps == [] then base else Patch(PatchAll(base, ps[..|ps| - 1]), ps[|ps| - 1])
  }

  /** The page map after applying the pages in order. */
  function ApplyAll(pages: Pages, ps: seq<Page>): Pages {
    if ps == [] then pages
    else ApplyAll(pages, ps[..|ps| - 1])[ps[|ps| - 1].offset := ps[|ps| - 1].bytes]
  }

  lemma {:induction false} ApplyAppend(pages: Pages, a: seq<Page>, b: seq<Page>)
    ensures ApplyAll(pages, a + b) == ApplyAll(ApplyAll(pages, a), b)
  {
    if b == [] {
      assert a + b == a;
    } else {
      assert (a + b)[..|a + b| - 1] == a + b[..|b| - 1];
      ApplyAppend(pages, a, b[..|b| - 1]);
    }
  }

  // ----- when replay means sequential patching -----

  /** The file range a page replaces. */
  datatype Range = Range(offset: nat, len: nat) {
    predicate Has(x: nat) { offset <= x < offset + len }
  }

  function RangesOf(ps: seq<Page>): (r: seq<Range>)
    ensures |r| == |ps|
  {
    seq(|ps|, i requires 0 <= i < |ps| => Range(ps[i].offset, |ps[i].bytes|))
  }

  /** Page `i` is the last one at its offset, so the map still holds it. */
  predicate IsLive(rs: seq<Range>, i: nat)
    requires i < |rs|
  {
    forall k | i < k < |rs| :: rs[k].offset != rs[i].offset
  }

  predicate IsLastOver(rs: seq<Range>, j: nat, x: nat) {
    j < |rs| && rs[j].Has(x) && forall k | j < k < |rs| :: !rs[k].Has(x)
  }

  /** At `x` the page written last is not the one the overlay shows: a later page at the same offset has
      taken its place in the map, or a live page that starts further right hides it. */
  predicate Stale(rs: seq<Range>, x: nat) {
    exists j: nat | j < |rs| :: IsLastOver(rs, j, x) && (!IsLive(rs, j) || IsHidden(rs, j, x))
  }

  predicate IsHidden(rs: seq<Range>, j: nat, x: nat)
    requires j < |rs|
  {
    exists i: nat | i < |rs| :: rs[i].Has(x) && rs[i].offset > rs[j].offset && IsLive(rs, i)
  }

  predicate NoStale(rs: seq<Range>, n: nat) {
    forall x: nat | x < n :: !Stale(rs, x)
  }

  /** The index of the last page over `x`, or -1. */
  function LastOver(rs: seq<Range>, x: nat): (j: int)
    ensures -1 <= j < |rs|
    ensures j >= 0 ==> IsLastOver(rs, j, x)
    ensures j < 0 ==> forall k | 0 <= k < |rs| :: !rs[k].Has(x)
  {
    if rs == [] then -1
    else if rs[|rs| - 1].Has(x) then |rs| - 1
    else LastOver(rs[..|rs| - 1], x)
  }

  /** Sequential patching shows, at each byte, the page written last over it. */
  lemma {:induction false} PatchAllAt(base: Buf, ps: seq<Page>, x: nat)
    requires x < |base|
    ensures var j := LastOver(RangesOf(ps), x);
            PatchAll(base, ps)[x] == if j >= 0 then ps[j].bytes[x - ps[j].offset] else base[x]
  {
    if ps != [] {
      PatchAllAt(base, ps[..|ps| - 1], x);
      assert RangesOf(ps)[..|ps| - 1] == RangesOf(ps[..|ps| - 1]);
    }
  }

  predicate Covers(p: Page, x: nat) { p.offset <= x < p.offset + |p.bytes| }

  /** The byte of the last page over `x`, or the one that was there. */
  ghost predicate PatchedByte(base: Buf, ps: seq<Page>, x: nat, b: byte)
    requires x < |base|
  {
    if exists j :: 0 <= j < |ps| && Covers(ps[j], x) then
      exists j :: 0 <= j < |ps| && Covers(ps[j], x) && b == ps[j].bytes[x - ps[j].offset]
        && forall k | j < k < |ps| :: !Covers(ps[k], x)
    else b == base[x]
  }

  /** The pages written over the base in order, as far as it goes. */
  ghost predicate PatchedTo(base: Buf, ps: seq<Page>, r: Buf) {
    |r| == |base| && forall x: nat | x < |base| :: PatchedByte(base, ps, x, r[x])
  }

  lemma PatchAllExact(base: Buf, ps: seq<Page>)
    ensures PatchedTo(base, ps, PatchAll(base, ps))
  {
    forall x: nat | x < |base| ensures PatchedByte(base, ps, x, PatchAll(base, ps)[x]) {
      PatchAllAt(base, ps, x);
      var rs := RangesOf(ps);
      assert forall k | 0 <= k < |ps| :: rs[k].Has(x) <==> Covers(ps[k], x);
    }
  }

  /** The map holds, at each offset, the live page there. */
  lemma {:induction false} ApplyAllAt(ps: seq<Page>, start: nat)
    ensures start in ApplyAll(map[], ps) ==>
              exists i: nat | i < |ps| ::
                ps[i].offset == start && IsLive(RangesOf(ps), i) && ApplyAll(map[], ps)[start] == ps[i].bytes
    ensures forall i: nat | i < |ps| && ps[i].offset == start :: start in ApplyAll(map[], ps)
  {
    if ps != [] {
      var n := |ps| - 1;
      ApplyAllAt(ps[..n], start);
      if ps[n].offset == start {
        assert IsLive(RangesOf(ps), n);
      } else if start in ApplyAll(map[], ps) {
        var i: nat :| i < n && ps[..n][i].offset == start && IsLive(RangesOf(ps[..n]), i)
          && ApplyAll(map[], ps[..n])[start] == ps[..n][i].bytes;
        assert forall k | i < k < n :: RangesOf(ps)[k] == RangesOf(ps[..n])[k];
        assert IsLive(RangesOf(ps), i);
      }
    }
  }

  lemma {:induction false} LiveIsHeld(ps: seq<Page>, i: nat)
    requires i < |ps| && IsLive(RangesOf(ps), i)
    ensures ps[i].offset in ApplyAll(map[], ps) && ApplyAll(map[], ps)[ps[i].offset] == ps[i].bytes
  {
    ApplyAllAt(ps, ps[i].offset);
    var k: nat :| k < |ps| && ps[k].offset == ps[i].offset && IsLive(RangesOf(ps), k)
      && ApplyAll(map[], ps)[ps[i].offset] == ps[k].bytes;
    LiveUnique(RangesOf(ps), i, k);
  }

  lemma LiveUnique(rs: seq<Range>, i: nat, k: nat)
    requires i < |rs| && k < |rs| && IsLive(rs, i) && IsLive(rs, k) && rs[i].offset == rs[k].offset
    ensures i == k
  {
  }

  /** The overlay shows the live covering page with the greatest start. */
  lemma OverlayShows(base: Buf, ps: seq<Page>, x: nat) returns (i: int)
    ensures -1 <= i < |ps|
    ensures i >= 0 ==> RangesOf(ps)[i].Has(x) && IsLive(RangesOf(ps), i)
                       && ByteAt(base, ApplyAll(map[], ps), x) == ps[i].bytes[x - ps[i].offset]
    ensures i < 0 && x < |base| ==> ByteAt(base, ApplyAll(map[], ps), x) == base[x]
    ensures forall k: nat | k < |ps| && IsLive(RangesOf(ps), k) && RangesOf(ps)[k].Has(x) ::
              i >= 0 && ps[k].offset <= ps[i].offset
  {
    var pages := ApplyAll(map[], ps);
    var start := GreatestCover(pages, x, x);
    i := -1;
    if start >= 0 {
      ApplyAllAt(ps, start);
      i :| 0 <= i < |ps| && ps[i].offset == start && IsLive(RangesOf(ps), i) && pages[start] == ps[i].bytes;
    }
    forall k: nat | k < |ps| && IsLive(RangesOf(ps), k) && RangesOf(ps)[k].Has(x)
      ensures i >= 0 && ps[k].offset <= ps[i].offset
    {
      LiveIsHeld(ps, k);
      assert CoversAt(pages, ps[k].offset, x);
    }
  }

  /** Where the last page is not stale, overlay and sequential patching show the same byte. */
  lemma FreshByteAgrees(base: Buf, ps: seq<Page>, x: nat)
    requires x < |base| && !Stale(RangesOf(ps), x)
    ensures ByteAt(base, ApplyAll(map[], ps), x) == PatchAll(base, ps)[x]
  {
    var rs := RangesOf(ps);
    PatchAllAt(base, ps, x);
    var j := LastOver(rs, x);
    var i := OverlayShows(base, ps, x);
    if j >= 0 {
      assert IsLive(rs, j) && !IsHidden(rs, j, x);
      assert ps[j].offset <= ps[i].offset;
      assert rs[i].offset <= rs[j].offset;
      LiveUnique(rs, i, j);
    }
  }

  /** Page contents that give away which page a byte came from: page `j` holds ones, all others zeros. */
  function Marked(rs: seq<Range>, j: nat): (ps: seq<Page>)
    ensures |ps| == |rs|
    ensures RangesOf(ps) == rs
  {
    seq(|rs|, i requires 0 <= i < |rs| => Page(rs[i].offset, seq(rs[i].len, _ => if i == j then 1 else 0)))
  }

  lemma MarkedByte(rs: seq<Range>, j: nat, i: nat, x: nat)
    requires i < |rs| && rs[i].Has(x)
    ensures var p := Marked(rs, j)[i];
            p.offset <= x < p.offset + |p.bytes| && p.bytes[x - p.offset] == if i == j then 1 else 0
  {
  }

  /** At a stale position the overlay does not show the page written last. */
  lemma StaleNotShown(rs: seq<Range>, n: nat, j: nat, x: nat)
    requires x < n && IsLastOver(rs, j, x) && (!IsLive(rs, j) || IsHidden(rs, j, x))
    ensures ByteAt(seq(n, _ => 0), ApplyAll(map[], Marked(rs, j)), x) == 0
  {
    var base, ps := seq(n, _ => 0), Marked(rs, j);
    var i := OverlayShows(base, ps, x);
    if i >= 0 {
      if IsLive(rs, j) {
        var h: nat :| h < |rs| && rs[h].Has(x) && rs[h].offset > rs[j].offset && IsLive(rs, h);
        assert ps[h].offset <= ps[i].offset;
      }
      MarkedByte(rs, j, i, x);
    }
  }

  lemma StaleByteDiffers(rs: seq<Range>, n: nat, x: nat) returns (base: Buf, ps: seq<Page>)
    requires x < n && Stale(rs, x)
    ensures |base| == n && RangesOf(ps) == rs
    ensures Overlaid(base, ApplyAll(map[], ps)) != PatchAll(base, ps)
  {
    var j: nat :| j < |rs| && IsLastOver(rs, j, x) && (!IsLive(rs, j) || IsHidden(rs, j, x));
    base, ps := seq(n, _ => 0), Marked(rs, j);
    StaleNotShown(rs, n, j, x);
    PatchAllAt(base, ps, x);
    MarkedByte(rs, j, j, x);
    assert Overlaid(base, ApplyAll(map[], ps))[x] == 0;
    assert PatchAll(base, ps)[x] == 1;
  }

  /** Replaying pages of the given ranges equals patching them in order, whatever the bytes, exactly when
      no position inside the base is stale. */
  lemma ReplayExact(rs: seq<Range>, n: nat)
    ensures NoStale(rs, n) <==>
            forall base: Buf, ps: seq<Page> | |base| == n && RangesOf(ps) == rs ::
              Overlaid(base, ApplyAll(map[], ps)) == PatchAll(base, ps)
  {
    if NoStale(rs, n) {
      forall base: Buf, ps: seq<Page> | |base| == n && RangesOf(ps) == rs
        ensures Overlaid(base, ApplyAll(map[], ps)) == PatchAll(base, ps)
      {
        forall x | 0 <= x < n ensures Overlaid(base, ApplyAll(map[], ps))[x] == PatchAll(base, ps)[x] {
          FreshByteAgrees(base, ps, x);
        }
      }
    } else {
      var x: nat :| x < n && Stale(rs, x);
      var base, ps := StaleByteDiffers(rs, n, x);
    }
  }

  /** Two ranges are apart, or the same. */
  predicate ApartOrSame(a: Range, b: Range) {
    a == b || a.offset + a.len <= b.offset || b.offset + b.len <= a.offset
  }

  /** The simple condition: pages of distinct offset are disjoint, pages of one offset have one length. */
  lemma DisjointNeverStale(rs: seq<Range>, n: nat)
    requires forall i, j | 0 <= i < j < |rs| :: ApartOrSame(rs[i], rs[j])
    requires forall i, j | 0 <= i < j < |rs| && rs[i].offset == rs[j].offset :: rs[i].len == rs[j].len
    ensures NoStale(rs, n)
  {
    forall x: nat | x < n ensures !Stale(rs, x) {
      forall j: nat | j < |rs| && IsLastOver(rs, j, x) ensures IsLive(rs, j) && !IsHidden(rs, j, x) {
        forall k | j < k < |rs| ensures rs[k].offset != rs[j].offset {
          assert !rs[k].Has(x);
        }
        forall i: nat | i < |rs| && rs[i].Has(x) ensures rs[i].offset <= rs[j].offset {
          if i < j {
            assert ApartOrSame(rs[i], rs[j]);
          }
        }
      }
    }
  }

  /** Pages at distinct offsets can be applied in either order. */
  lemma DistinctOffsetsCommute(pages: Pages, a: Page, b: Page)
    requires a.offset != b.offset
    ensures ApplyAll(pages, [a, b]) == ApplyAll(pages, [b, a])
  {
    ApplyOne(pages, a);
    ApplyOne(pages, b);
    ApplyOne(pages[a.offset := a.bytes], b);
    ApplyOne(pages[b.offset := b.bytes], a);
    ApplyAppend(pages, [a], [b]);
    ApplyAppend(pages, [b], [a]);
    assert [a] + [b] == [a, b] && [b] + [a] == [b, a];
    assert pages[a.offset := a.bytes][b.offset := b.bytes] == pages[b.offset := b.bytes][a.offset := a.bytes];
  }

  lemma ApplyOne(pages: Pages, a: Page)
    ensures ApplyAll(pages, [a]) == pages[a.offset := a.bytes]
  {
    assert [a][..0] == [];
  }
}
