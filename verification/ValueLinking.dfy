/** The second pass of a build, for values: lists, data offsets, big-data records and resident data
    (`winreg-testutil/src/lib.rs`). */
module ValueLinking {
  import opened Wrappers
  import opened Bytes
  import opened Records
  import opened Allocation
  import opened KeyTrees
  import opened ValueLayouts
  import opened Layouts
  import opened Images
  import opened Linking

  function OffsetsOf(cells: seq<AllocatedCell>, ids: seq<nat>): (offs: seq<u32>)
    ensures |offs| == |ids| && forall i | 0 <= i < |ids| :: offs[i] == Offset(cells, ids[i])
  {
    seq(|ids|, i requires 0 <= i < |ids| => Offset(cells, ids[i]))
  }

  lemma {:induction false} PutOffsetsMore(b: Buf, offs: seq<u32>, i: nat)
    requires i < |offs| && 4 * |offs| <= |b|
    ensures PutOffsets(b, offs[..i + 1]) == Put32(PutOffsets(b, offs[..i]), 4 * i, offs[i])
  {
    assert offs[..i + 1][..i] == offs[..i];
  }

  /** The offsets of these cells, one after the other. */
  method WriteOffsets(img: Image, id: nat, ids: seq<nat>)
    requires img.Valid() && id < |img.cells| && id < |img.bodies| && 4 * |ids| <= |img.bodies[id]|
    requires forall i | 0 <= i < |ids| :: ids[i] < |img.cells|
    modifies img, img.buf
    ensures img.Valid() && img.bodies == old(img.bodies)[id :=
              PutOffsets(old(img.bodies)[id], OffsetsOf(img.cells, ids))]
  {
    ghost var offs, bodies, b := OffsetsOf(img.cells, ids), img.bodies, img.bodies[id];
    assert bodies == bodies[id := b];
    for i := 0 to |ids|
      invariant img.Valid() && img.bodies == bodies[id := PutOffsets(b, offs[..i])]
    {
      img.Patch(id, 4 * i, CellOffset(img.cells[ids[i]]));
      PutOffsetsMore(b, offs, i);
    }
    assert offs[..|ids|] == offs;
  }

  // ----- values lists -----

  ghost predicate Pending(bodies: seq<Buf>, ids: map<string, nat>, start: string -> Buf, todo: set<string>) {
    forall p | p in todo && p in ids :: ids[p] < |bodies| && bodies[ids[p]] == start(p)
  }

  lemma {:induction false} ServeOne(bodies: seq<Buf>, after: seq<Buf>, ids: map<string, nat>, start: string -> Buf,
                                    goal: string -> Buf, p: string, todo: set<string>, done: set<string>)
    requires OneToOne(ids) && p in ids && ids[p] < |bodies| && after == bodies[ids[p] := goal(p)]
    requires Pending(bodies, ids, start, todo) && Finished(bodies, ids, goal, done)
    ensures Pending(after, ids, start, todo - {p}) && Finished(after, ids, goal, done + {p})
  {
    forall q | q in todo - {p} && q in ids ensures after[ids[q]] == start(q) {
      assert ids[q] != ids[p];
    }
    forall q | q in done + {p} && q in ids ensures after[ids[q]] == goal(q) {
      assert ids[q] == ids[p] ==> q == p;
    }
  }

  ghost predicate ListGoal(l: Layout, start: string -> Buf, goal: string -> Buf, p: string)
    requires p in l.vkIds
  {
    |start(p)| == 4 * |l.vkIds[p]| && goal(p) == PutOffsets(start(p), OffsetsOf(l.cells, l.vkIds[p]))
  }

  ghost predicate ListGoals(l: Layout, start: string -> Buf, goal: string -> Buf) {
    forall p {:trigger ListGoal(l, start, goal, p)} | p in l.vkIds :: ListGoal(l, start, goal, p)
  }

  ghost predicate IdsInside(l: Layout) {
    forall p | p in l.vkIds :: forall i | 0 <= i < |l.vkIds[p]| :: l.vkIds[p][i] < |l.cells|
  }

  method FillList(img: Image, l: Layout, p: string, ghost start: string -> Buf, ghost goal: string -> Buf,
                  ghost roles: seq<Role>, ghost todo: set<string>, ghost done: set<string>)
    requires img.Valid() && img.cells == l.cells && |roles| == |l.cells| == |img.bodies|
    requires OneToOne(l.listIds) && AllOfKind(l.listIds, roles, 3) && ListGoals(l, start, goal) && IdsInside(l)
    requires p in todo && p in l.listIds && p in l.vkIds
    requires Pending(img.bodies, l.listIds, start, todo) && Finished(img.bodies, l.listIds, goal, done)
    modifies img, img.buf
    ensures img.Valid() && OnlyKind(old(img.bodies), img.bodies, roles, 3)
    ensures Pending(img.bodies, l.listIds, start, todo - {p}) && Finished(img.bodies, l.listIds, goal, done + {p})
  {
    assert ListGoal(l, start, goal, p);
    WriteOffsets(img, l.listIds[p], l.vkIds[p]);
    ServeOne(old(img.bodies), img.bodies, l.listIds, start, goal, p, todo, done);
  }

  method FillLists(img: Image, l: Layout, ghost start: string -> Buf, ghost goal: string -> Buf, ghost roles: seq<Role>)
    requires img.Valid() && img.cells == l.cells && |roles| == |l.cells| == |img.bodies|
    requires OneToOne(l.listIds) && AllOfKind(l.listIds, roles, 3) && l.listIds.Keys == l.vkIds.Keys
    requires ListGoals(l, start, goal) && IdsInside(l) && Pending(img.bodies, l.listIds, start, l.vkIds.Keys)
    modifies img, img.buf
    ensures img.Valid() && OnlyKind(old(img.bodies), img.bodies, roles, 3)
    ensures Finished(img.bodies, l.listIds, goal, l.vkIds.Keys)
  {
    var todo := l.vkIds.Keys;
    ghost var done: set<string> := {};
    while todo != {}
      invariant img.Valid() && OnlyKind(old(img.bodies), img.bodies, roles, 3)
      invariant todo <= l.vkIds.Keys && done + todo == l.vkIds.Keys
      invariant Pending(img.bodies, l.listIds, start, todo) && Finished(img.bodies, l.listIds, goal, done)
      decreases |todo|
    {
      var p :| p in todo;
      assert p in l.vkIds.Keys;
      FillList(img, l, p, start, goal, roles, todo, done);
      todo, done := todo - {p}, done + {p};
    }
    assert done == l.vkIds.Keys;
  }

  // ----- data offsets -----

  /** The body of a value cell once its data offset is written. */
  ghost predicate PointerGoal(l: Layout, goal: nat -> Buf, vk: nat)
    requires vk in l.data.ids
  {
    vk < |l.cells| && |l.cells[vk].body| >= 20 && l.data.ids[vk] < |l.cells|
    && goal(vk) == Put32(l.cells[vk].body, VK_DATA_OFFSET, Offset(l.cells, l.data.ids[vk]))
  }

  ghost predicate PointerGoals(l: Layout, goal: nat -> Buf) {
    forall vk {:trigger PointerGoal(l, goal, vk)} | vk in l.data.ids :: PointerGoal(l, goal, vk)
  }

  method FillDataOffset(img: Image, l: Layout, vk: nat, ghost goal: nat -> Buf)
    requires img.Valid() && img.cells == l.cells && |l.cells| == |img.bodies| && PointerGoals(l, goal)
    requires vk in l.data.ids && vk < |l.cells| && img.bodies[vk] == l.cells[vk].body
    modifies img, img.buf
    ensures img.Valid() && img.bodies == old(img.bodies)[vk := goal(vk)]
  {
    assert PointerGoal(l, goal, vk);
    img.Patch(vk, VK_DATA_OFFSET, CellOffset(l.cells[l.data.ids[vk]]));
  }

  method FillDataOffsets(img: Image, l: Layout, ghost goal: nat -> Buf, ghost roles: seq<Role>)
    requires img.Valid() && img.cells == l.cells && |roles| == |l.cells| == |img.bodies|
    requires PointerGoals(l, goal) && forall vk | vk in l.data.ids :: vk < |l.cells|
    requires forall vk | vk in l.data.ids :: img.bodies[vk] == l.cells[vk].body
    modifies img, img.buf
    ensures img.Valid() && |img.bodies| == |old(img.bodies)|
    ensures forall vk | vk in l.data.ids :: img.bodies[vk] == goal(vk)
    ensures forall i | 0 <= i < |img.bodies| && i !in l.data.ids :: img.bodies[i] == old(img.bodies)[i]
  {
    var todo := l.data.ids.Keys;
    while todo != {}
      invariant img.Valid() && todo <= l.data.ids.Keys && |img.bodies| == |l.cells|
      invariant forall vk | vk in todo :: img.bodies[vk] == l.cells[vk].body
      invariant forall vk | vk in l.data.ids && vk !in todo :: img.bodies[vk] == goal(vk)
      invariant forall i | 0 <= i < |img.bodies| && i !in l.data.ids :: img.bodies[i] == old(img.bodies)[i]
      decreases |todo|
    {
      var vk :| vk in todo;
      assert vk in l.data.ids;
      FillDataOffset(img, l, vk, goal);
      todo := todo - {vk};
    }
  }

  /** All other cells are as they were. */
  ghost predicate OnlyThese(before: seq<Buf>, after: seq<Buf>, ids: set<nat>) {
    |before| == |after| && forall i | 0 <= i < |before| && i !in ids :: after[i] == before[i]
  }

  // ----- big-data records -----

  ghost predicate Unlinked(bodies: seq<Buf>, l: Layout, link: BigLink) {
    && link.db < |l.cells| && link.list < |l.cells| && |bodies| == |l.cells|
    && bodies[link.db] == l.cells[link.db].body && bodies[link.list] == l.cells[link.list].body
  }

  /** A record whose `db` cell points to its list, which points to its segments. */
  ghost predicate Connected(bodies: seq<Buf>, l: Layout, link: BigLink) {
    && link.db < |l.cells| && link.list < |l.cells| && |bodies| == |l.cells|
    && |l.cells[link.db].body| == 8 && |l.cells[link.list].body| == 4 * |link.segments|
    && bodies[link.db] == Put32(l.cells[link.db].body, DB_LIST, Offset(l.cells, link.list))
    && bodies[link.list] == PutOffsets(l.cells[link.list].body, OffsetsOf(l.cells, link.segments))
  }

  /** Only `db` cells and lists of segments have changed. */
  ghost predicate OnlyRecords(before: seq<Buf>, after: seq<Buf>, roles: seq<Role>) {
    && |before| == |after| == |roles|
    && forall i | 0 <= i < |roles| && Kind(roles[i]) < 7 :: after[i] == before[i]
  }

  method LinkRecord(img: Image, l: Layout, link: BigLink)
    requires img.Valid() && img.cells == l.cells && Unlinked(img.bodies, l, link) && link.db != link.list
    requires |l.cells[link.db].body| == 8 && |l.cells[link.list].body| == 4 * |link.segments|
    requires forall k | 0 <= k < |link.segments| :: link.segments[k] < |l.cells|
    modifies img, img.buf
    ensures img.Valid() && Connected(img.bodies, l, link)
            && OnlyThese(old(img.bodies), img.bodies, {link.db, link.list})
  {
    img.Patch(link.db, DB_LIST, CellOffset(l.cells[link.list]));
    WriteOffsets(img, link.list, link.segments);
  }

  ghost predicate LinkedUpTo(bodies: seq<Buf>, l: Layout, j: nat) {
    && (forall k | 0 <= k < j && k < |l.data.links| :: Connected(bodies, l, l.data.links[k]))
    && (forall k | j <= k < |l.data.links| :: Unlinked(bodies, l, l.data.links[k]))
  }

  /** Linking one record leaves the others alone. */
  lemma {:induction false} LinkedNext(before: seq<Buf>, after: seq<Buf>, l: Layout, roles: seq<Role>, j: nat)
    requires LinksLaid(l.cells, roles, l.data.links) && j < |l.data.links| && LinkedUpTo(before, l, j)
    requires Connected(after, l, l.data.links[j]) && |before| == |after|
    requires OnlyThese(before, after, {l.data.links[j].db, l.data.links[j].list})
    ensures LinkedUpTo(after, l, j + 1) && OnlyRecords(before, after, roles)
  {
    assert LinkLaid(l.cells, roles, j, l.data.links[j]);
    forall k | 0 <= k < |l.data.links| && k != j
      ensures k < j ==> Connected(after, l, l.data.links[k])
      ensures k > j ==> Unlinked(after, l, l.data.links[k])
    {
      assert LinkLaid(l.cells, roles, k, l.data.links[k]);
    }
  }

  method LinkRecords(img: Image, l: Layout, ghost roles: seq<Role>)
    requires img.Valid() && img.cells == l.cells && |roles| == |l.cells| == |img.bodies|
    requires LinksLaid(l.cells, roles, l.data.links) && LinkedUpTo(img.bodies, l, 0)
    modifies img, img.buf
    ensures img.Valid() && OnlyRecords(old(img.bodies), img.bodies, roles) && LinkedUpTo(img.bodies, l, |l.data.links|)
  {
    for j := 0 to |l.data.links|
      invariant img.Valid() && OnlyRecords(old(img.bodies), img.bodies, roles) && LinkedUpTo(img.bodies, l, j)
    {
      ghost var before := img.bodies;
      assert LinkLaid(l.cells, roles, j, l.data.links[j]);
      LinkRecord(img, l, l.data.links[j]);
      LinkedNext(before, img.bodies, l, roles, j);
    }
  }

  // ----- resident data -----

  /** The body of a value cell with its data in the offset field. */
  function ResidentBody(b: Buf, data: Buf): (r: Buf)
    requires |b| >= 20 && |data| <= 4
    ensures |r| == |b|
  {
    Splice(Put32(b, VK_DATA_SIZE, 0x8000_0000 + |data|), VK_DATA_OFFSET, data)
  }

  lemma {:induction false} ResidentTwice(b: Buf, data: Buf)
    requires |b| >= 20 && |data| <= 4
    ensures ResidentBody(ResidentBody(b, data), data) == ResidentBody(b, data)
  {
    assert ResidentBody(ResidentBody(b, data), data) == ResidentBody(b, data);
  }

  method WriteResident(img: Image, id: nat, data: Buf, ghost start: Buf)
    requires img.Valid() && id < |img.cells| && id < |img.bodies| && |start| >= 20 && |data| <= 4
    requires img.bodies[id] == start || img.bodies[id] == ResidentBody(start, data)
    modifies img, img.buf
    ensures img.Valid() && img.bodies == old(img.bodies)[id := ResidentBody(start, data)]
  {
    ResidentTwice(start, data);
    ghost var bodies, b := img.bodies, img.bodies[id];
    img.Patch(id, VK_DATA_SIZE, 0x8000_0000 + |data|);
    img.PatchBytes(id, VK_DATA_OFFSET, data);
    assert img.bodies == bodies[id := ResidentBody(b, data)];
  }

  /** The data of the value that a cell is for, if it is resident. */
  function ResidentData(t: KeyTree, r: Role): Option<Buf> {
    if r.ValueRole? && r.path in t.values && r.index < |t.values[r.path]| && |t.values[r.path][r.index].data| <= 4 then
      Some(t.values[r.path][r.index].data)
    else None
  }

  /** The values of every key have cells with their roles. */
  ghost predicate RolesOfValues(l: Layout, t: KeyTree, roles: seq<Role>) {
    forall p | p in t.values ::
      && p in l.vkIds && |l.vkIds[p]| == |t.values[p]|
      && forall i | 0 <= i < |l.vkIds[p]| :: l.vkIds[p][i] < |roles| && roles[l.vkIds[p][i]] == ValueRole(p, i)
  }

  /** The value cells of these keys that hold their data themselves are among `ids`. */
  ghost predicate HoldsResidents(ids: set<nat>, l: Layout, t: KeyTree, keys: set<string>) {
    forall p | p in keys && p in t.values && p in l.vkIds ::
      forall i | 0 <= i < |l.vkIds[p]| && i < |t.values[p]| && |t.values[p][i].data| <= 4 :: l.vkIds[p][i] in ids
  }

  /** These value cells have the body as allocated or the resident one; the latter if `done`. */
  ghost predicate Inlining(bodies: seq<Buf>, l: Layout, t: KeyTree, roles: seq<Role>, small: set<nat>, done: set<nat>) {
    && |bodies| == |roles| == |l.cells|
    && (forall i | i in small :: i < |roles| && ResidentData(t, roles[i]).Some? && |l.cells[i].body| >= 20)
    && (forall i | i in small ::
          bodies[i] == ResidentBody(l.cells[i].body, ResidentData(t, roles[i]).value)
            || (i !in done && bodies[i] == l.cells[i].body))
  }

  method InlineKey(img: Image, l: Layout, t: KeyTree, p: string, ghost roles: seq<Role>, ghost small: set<nat>,
                   ghost before: set<nat>)
    returns (ghost done: set<nat>)
    requires img.Valid() && img.cells == l.cells && Inlining(img.bodies, l, t, roles, small, before)
    requires p in t.values && RolesOfValues(l, t, roles) && HoldsResidents(small, l, t, {p})
    modifies img, img.buf
    ensures img.Valid() && Inlining(img.bodies, l, t, roles, small, done)
            && OnlyThese(old(img.bodies), img.bodies, small)
    ensures before <= done && HoldsResidents(done, l, t, {p})
  {
    var vals, ids := t.values[p], l.vkIds[p];
    done := before;
    for i := 0 to |vals|
      invariant img.Valid() && Inlining(img.bodies, l, t, roles, small, done)
                && OnlyThese(old(img.bodies), img.bodies, small)
      invariant before <= done && forall k | 0 <= k < i && |vals[k].data| <= 4 :: ids[k] in done
    {
      if |vals[i].data| <= 4 {
        assert p in {p};
        assert ResidentData(t, roles[ids[i]]) == Some(vals[i].data);
        WriteResident(img, ids[i], vals[i].data, l.cells[ids[i]].body);
        done := done + {ids[i]};
      }
    }
  }

  method InlineAll(img: Image, l: Layout, t: KeyTree, ghost roles: seq<Role>, ghost small: set<nat>)
    returns (ghost done: set<nat>)
    requires img.Valid() && img.cells == l.cells && Inlining(img.bodies, l, t, roles, small, {})
    requires RolesOfValues(l, t, roles) && HoldsResidents(small, l, t, t.values.Keys)
    modifies img, img.buf
    ensures img.Valid() && Inlining(img.bodies, l, t, roles, small, done)
            && OnlyThese(old(img.bodies), img.bodies, small)
    ensures HoldsResidents(done, l, t, t.values.Keys)
  {
    var todo := t.values.Keys;
    done := {};
    while todo != {}
      invariant img.Valid() && Inlining(img.bodies, l, t, roles, small, done)
                && OnlyThese(old(img.bodies), img.bodies, small)
      invariant todo <= t.values.Keys && HoldsResidents(done, l, t, t.values.Keys - todo)
      decreases |todo|
    {
      var p :| p in todo;
      assert p in t.values.Keys;
      ghost var before := done;
      done := InlineKey(img, l, t, p, roles, small, done);
      HoldsMore(before, done, l, t, t.values.Keys - todo, p);
      todo := todo - {p};
      assert t.values.Keys - todo <= t.values.Keys - (todo + {p}) + {p};
    }
    assert t.values.Keys - todo == t.values.Keys;
  }

  lemma {:induction false} HoldsMore(before: set<nat>, done: set<nat>, l: Layout, t: KeyTree, keys: set<string>,
                                     p: string)
    requires HoldsResidents(before, l, t, keys) && before <= done && HoldsResidents(done, l, t, {p})
    ensures forall more | more <= keys + {p} :: HoldsResidents(done, l, t, more)
  {
    assert p in {p};
  }
}
