/** The builder's cell allocator (`Allocator` in `winreg-testutil/src/lib.rs`). */
module Allocation {
  import opened Bytes
  import opened Records

  datatype AllocatedCell = AllocatedCell(offset: nat, alignedSize: nat, body: Buf) {
    function End(): nat { offset + alignedSize }
  }

  /** What a cell is for. Different roles mean different cells. */
  datatype Role =
    | SecurityRole
    | NodeRole(path: string)
    | ValueRole(path: string, index: nat)
    | ListRole(path: string)
    | LeafRole(path: string)
    | DataRole
    | BigRole(link: nat)
    | SegmentListRole(link: nat)

  // ----- cells follow one another without gaps -----

  /** The cells fill `0..end` exactly, each as large as its header and body need, rounded up to 8. */
  ghost predicate Tiled(cells: seq<AllocatedCell>, end: nat) {
    if cells == [] then end == 0
    else
      var c := cells[|cells| - 1];
      c.alignedSize == Align8(4 + |c.body|) && c.End() == end && Tiled(cells[..|cells| - 1], c.offset)
  }

  lemma {:induction false} TiledEnd(cells: seq<AllocatedCell>, end: nat)
    requires Tiled(cells, end)
    ensures end % 8 == 0
  {
    if cells != [] {
      TiledEnd(cells[..|cells| - 1], cells[|cells| - 1].offset);
    }
  }

  lemma {:induction false} TiledCell(cells: seq<AllocatedCell>, end: nat, i: nat)
    requires Tiled(cells, end) && i < |cells|
    ensures cells[i].alignedSize == Align8(4 + |cells[i].body|) && cells[i].offset % 8 == 0 && cells[i].End() <= end
  {
    var n := |cells| - 1;
    var init := cells[..n];
    if i == n {
      TiledEnd(init, cells[n].offset);
    } else {
      TiledCell(init, cells[n].offset, i);
      assert init[i] == cells[i];
    }
  }

  lemma {:induction false} TiledApart(cells: seq<AllocatedCell>, end: nat, i: nat, j: nat)
    requires Tiled(cells, end) && i < j < |cells|
    ensures cells[i].End() <= cells[j].offset
  {
    var n := |cells| - 1;
    if j == n {
      TiledCell(cells[..n], cells[n].offset, i);
    } else {
      TiledApart(cells[..n], cells[n].offset, i, j);
    }
  }

  lemma {:induction false} TiledAppend(cells: seq<AllocatedCell>, end: nat, body: Buf)
    requires Tiled(cells, end)
    ensures Tiled(cells + [AllocatedCell(end, Align8(4 + |body|), body)], end + Align8(4 + |body|))
  {
    var more := cells + [AllocatedCell(end, Align8(4 + |body|), body)];
    assert more[..|more| - 1] == cells;
  }

  // ----- how large cells are -----

  /** The space of a cell with a body of this length. */
  function CellSpace(length: nat): nat { Align8(4 + length) }

  /** The largest body whose cell size fits the signed 32-bit size field. */
  const MAX_BODY: nat := 0x7FFF_FFF0

  ghost predicate AllSmall(cells: seq<AllocatedCell>) {
    cells != [] ==> |cells[|cells| - 1].body| <= MAX_BODY && AllSmall(cells[..|cells| - 1])
  }

  lemma {:induction false} SmallAt(cells: seq<AllocatedCell>, i: nat)
    requires AllSmall(cells) && i < |cells|
    ensures |cells[i].body| <= MAX_BODY
  {
    if i < |cells| - 1 {
      SmallAt(cells[..|cells| - 1], i);
    }
  }

  lemma SmallAppend(cells: seq<AllocatedCell>, c: AllocatedCell)
    requires AllSmall(cells) && |c.body| <= MAX_BODY
    ensures AllSmall(cells + [c])
  {
    assert (cells + [c])[..|cells|] == cells;
  }

  // ----- what has been laid out -----

  /** Cell `id` has this role and was allocated with this body. */
  ghost predicate Laid(cells: seq<AllocatedCell>, roles: seq<Role>, id: nat, role: Role, body: Buf) {
    id < |cells| && |roles| == |cells| && roles[id] == role && cells[id].body == body
  }

  class Allocator {
    var pos: nat
    var cells: seq<AllocatedCell>
    const keyFiletime: u64
    ghost var roles: seq<Role>
    ghost const fits: bool  // whether the input fits the fields of the format

    ghost predicate Valid()
      reads this
    {
      Tiled(cells, pos) && |roles| == |cells| && (fits ==> AllSmall(cells))
    }

    constructor (keyFiletime: u64, ghost fits: bool)
      ensures Valid() && cells == [] && pos == 0 && this.keyFiletime == keyFiletime && this.fits == fits
    {
      pos, cells, roles := 0, [], [];
      this.keyFiletime, this.fits := keyFiletime, fits;
    }

    /** Everything laid out before is still there. */
    twostate predicate Grown()
      reads this
    {
      old(cells) <= cells && old(roles) <= roles
    }

    method Alloc(body: Buf, ghost role: Role) returns (id: nat)
      requires Valid() && (fits ==> |body| <= MAX_BODY)
      modifies this
      ensures Valid() && Grown() && id == |old(cells)|
      ensures cells == old(cells) + [AllocatedCell(old(pos), Align8(4 + |body|), body)]
              && pos == old(pos) + CellSpace(|body|)
      ensures Laid(cells, roles, id, role, body)
    {
      TiledAppend(cells, pos, body);
      if fits {
        SmallAppend(cells, AllocatedCell(pos, Align8(4 + |body|), body));
      }
      var aligned := Align8(4 + |body|);
      id := |cells|;
      cells := cells + [AllocatedCell(pos, aligned, body)];
      roles := roles + [role];
      pos := pos + aligned;
    }

    method AllocSk(descriptor: Buf) returns (id: nat)
      requires Valid() && (fits ==> 20 + |descriptor| <= MAX_BODY)
      modifies this
      ensures pos == old(pos) + CellSpace(20 + |descriptor|)
      ensures Valid() && Grown() && Laid(cells, roles, id, SecurityRole, SecurityBody(descriptor))
    {
      id := Alloc(SecurityBody(descriptor), SecurityRole);
    }

    method AllocNk(name: Buf, isRoot: bool, ghost path: string) returns (id: nat)
      requires Valid() && (fits ==> |name| <= 0xFFFF)
      modifies this
      ensures pos == old(pos) + CellSpace(76 + |name|)
      ensures Valid() && Grown() && Laid(cells, roles, id, NodeRole(path), NodeBody(name, isRoot, keyFiletime))
    {
      id := Alloc(NodeBody(name, isRoot, keyFiletime), NodeRole(path));
    }

    method AllocVk(name: Buf, dataType: u32, dataSize: u32, ghost path: string, ghost index: nat) returns (id: nat)
      requires Valid() && (fits ==> |name| <= 0xFFFF)
      modifies this
      ensures pos == old(pos) + CellSpace(20 + |name|)
      ensures Valid() && Grown() && id == |old(cells)|
      ensures Laid(cells, roles, id, ValueRole(path, index), ValueBody(name, dataType, dataSize))
    {
      id := Alloc(ValueBody(name, dataType, dataSize), ValueRole(path, index));
    }

    method AllocData(data: Buf) returns (id: nat)
      requires Valid() && (fits ==> |data| <= MAX_BODY)
      modifies this
      ensures pos == old(pos) + CellSpace(|data|)
      ensures Valid() && Grown() && Laid(cells, roles, id, DataRole, data)
    {
      id := Alloc(data, DataRole);
    }

    method AllocValuesList(count: nat, ghost path: string) returns (id: nat)
      requires Valid() && (fits ==> count < 0x1FFF_0000)
      modifies this
      ensures pos == old(pos) + CellSpace(4 * count)
      ensures Valid() && Grown() && Laid(cells, roles, id, ListRole(path), Zeros(4 * count))
    {
      id := Alloc(Zeros(4 * count), ListRole(path));
    }

    method AllocLh(count: nat, ghost path: string) returns (id: nat)
      requires Valid() && (fits ==> count <= 0xFFFF)
      modifies this
      ensures pos == old(pos) + CellSpace(4 + 8 * count)
      ensures Valid() && Grown() && Laid(cells, roles, id, LeafRole(path), LeafBody(count))
    {
      id := Alloc(LeafBody(count), LeafRole(path));
    }
  }
}
