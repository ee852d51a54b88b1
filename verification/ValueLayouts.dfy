/** The cells of values and their data in the first pass of a build (`winreg-testutil/src/lib.rs`). */
module ValueLayouts {
  import opened Bytes
  import opened Sequences
  import opened Text
  import opened Records
  import opened Allocation
  import opened KeyTrees
  import MergeJoin

  const THRESHOLD: nat := 16344
  const SEGMENT: nat := 16344

  /** A big-data record: its `db` cell, its list of segments, and the segments. */
  datatype BigLink = BigLink(db: nat, list: nat, segments: seq<nat>)

  /** The cell that each non-resident value's data offset is to point to, and the big-data records. */
  datatype DataCells = DataCells(ids: map<nat, nat>, links: seq<BigLink>)

  /** `chunks(SEGMENT)` */
  function Chunks(data: Buf): seq<Buf>
    decreases |data|
  {
    if data == [] then []
    else if |data| <= SEGMENT then [data]
    else [data[..SEGMENT]] + Chunks(data[SEGMENT..])
  }

  /** The number of segments: one for every 16344 bytes begun. */
  lemma {:induction false} ChunkCount(data: Buf)
    ensures 16344 * |Chunks(data)| < |data| + 16344
    ensures forall c | c in Chunks(data) :: 0 < |c| <= 16344
    decreases |data|
  {
    if |data| > SEGMENT {
      ChunkCount(data[SEGMENT..]);
    }
  }

  // ----- what fits the fields of the format -----

  const MAX_DATA: nat := 0xFFFF * SEGMENT

  ghost predicate ValueFits(v: TreeValue) {
    |Utf8(v.name)| <= 0xFFFF && |v.data| <= MAX_DATA
  }

  /** Lengths and counts fit their fields: 16 bits for names, subkeys and segments, 31 for a cell. */
  ghost predicate FieldsFit(t: KeyTree) {
    && (forall p {:trigger t.Kids(p)} :: |t.Kids(p)| <= 0xFFFF)
    && (forall p, i {:trigger t.Kids(p)[i]} | 0 <= i < |t.Kids(p)| :: |Utf8(t.Kids(p)[i])| <= 0xFFFF)
    && (forall p | p in t.values :: |t.values[p]| < 0x1FFF_0000)
    && (forall p, i {:trigger t.values[p][i]} | p in t.values && 0 <= i < |t.values[p]| :: ValueFits(t.values[p][i]))
  }

  /** The values of one key fit. */
  ghost predicate ListFits(vals: seq<TreeValue>) {
    |vals| < 0x1FFF_0000 && forall i | 0 <= i < |vals| :: ValueFits(vals[i])
  }

  lemma {:induction false} ListsFit(t: KeyTree, p: string)
    requires FieldsFit(t) && p in t.values
    ensures ListFits(t.values[p])
  {
  }

  // ----- the space of values -----

  function ChunksSpace(chunks: seq<Buf>): nat {
    if chunks == [] then 0 else ChunksSpace(chunks[..|chunks| - 1]) + CellSpace(|chunks[|chunks| - 1]|)
  }

  /** Resident data needs no cell, other data one, and large data its segments, their list and a record. */
  function DataSpace(data: Buf): nat {
    if |data| <= 4 then 0
    else if |data| <= THRESHOLD then CellSpace(|data|)
    else ChunksSpace(Chunks(data)) + CellSpace(4 * |Chunks(data)|) + CellSpace(8)
  }

  function ValueSpace(v: TreeValue): nat {
    CellSpace(20 + |Utf8(v.name)|) + DataSpace(v.data)
  }

  function ValuesSpace(vals: seq<TreeValue>): nat {
    if vals == [] then 0 else ValuesSpace(vals[..|vals| - 1]) + ValueSpace(vals[|vals| - 1])
  }

  /** The values of one key, and their list. */
  function KeyValuesSpace(vals: seq<TreeValue>): nat {
    ValuesSpace(vals) + CellSpace(4 * |vals|)
  }

  /** Costs by path that are those of the tree's values. */
  ghost predicate ValueCosts(cost: string -> nat, t: KeyTree) {
    forall p | p in t.values :: cost(p) == KeyValuesSpace(t.values[p])
  }

  // ----- what is laid out for a value -----

  ghost predicate SegmentsLaid(cells: seq<AllocatedCell>, roles: seq<Role>, ids: seq<nat>, chunks: seq<Buf>) {
    |ids| == |chunks| && forall k | 0 <= k < |ids| :: Laid(cells, roles, ids[k], DataRole, chunks[k])
  }

  /** The cells of record `j`, still unlinked. */
  ghost predicate LinkLaid(cells: seq<AllocatedCell>, roles: seq<Role>, j: nat, link: BigLink) {
    && Laid(cells, roles, link.db, BigRole(j), BigDataBody(|link.segments|))
    && Laid(cells, roles, link.list, SegmentListRole(j), Zeros(4 * |link.segments|))
    && forall k | 0 <= k < |link.segments| :: link.segments[k] < |cells|
  }

  ghost predicate LinksLaid(cells: seq<AllocatedCell>, roles: seq<Role>, links: seq<BigLink>) {
    forall j | 0 <= j < |links| :: LinkLaid(cells, roles, j, links[j])
  }

  /** The value cells that get a data offset. */
  ghost predicate PointersLaid(cells: seq<AllocatedCell>, roles: seq<Role>, ids: map<nat, nat>) {
    && |roles| == |cells|
    && forall vk | vk in ids :: vk < |cells| && roles[vk].ValueRole? && |cells[vk].body| >= 20 && ids[vk] < |cells|
  }

  /** The big-data record that `db` belongs to holds the data in its segments. */
  ghost predicate RecordLaid(cells: seq<AllocatedCell>, roles: seq<Role>, dc: DataCells, db: nat, data: Buf) {
    && db < |roles| && roles[db].BigRole? && roles[db].link < |dc.links|
    && dc.links[roles[db].link].db == db
    && SegmentsLaid(cells, roles, dc.links[roles[db].link].segments, Chunks(data))
  }

  /** Where a value's data is: in the value cell itself, in one data cell, or in a big-data record. */
  ghost predicate DataLaid(cells: seq<AllocatedCell>, roles: seq<Role>, dc: DataCells, data: Buf, vk: nat) {
    if |data| <= 4 then vk !in dc.ids
    else if |data| <= THRESHOLD then vk in dc.ids && Laid(cells, roles, dc.ids[vk], DataRole, data)
    else vk in dc.ids && RecordLaid(cells, roles, dc, dc.ids[vk], data)
  }

  ghost predicate ValueLaid(cells: seq<AllocatedCell>, roles: seq<Role>, dc: DataCells, p: string, i: nat, v: TreeValue,
                            vk: nat)
  {
    && Laid(cells, roles, vk, ValueRole(p, i), ValueBody(Utf8(v.name), v.dataType, AsU32(|v.data|)))
    && DataLaid(cells, roles, dc, v.data, vk)
  }

  ghost predicate ValuesLaid(cells: seq<AllocatedCell>, roles: seq<Role>, dc: DataCells, p: string,
                             vals: seq<TreeValue>, ids: seq<nat>)
  {
    |ids| <= |vals| && forall i | 0 <= i < |ids| :: ValueLaid(cells, roles, dc, p, i, vals[i], ids[i])
  }

  // ----- laying out more keeps what is there -----

  /** More cells and more data, none of it for the first `n` cells. */
  ghost predicate MoreData(dc: DataCells, n: nat, more: DataCells) {
    && dc.links <= more.links
    && (forall k | k in dc.ids :: k in more.ids && more.ids[k] == dc.ids[k])
    && (forall k | k in more.ids :: k in dc.ids || k >= n)
  }

  lemma {:induction false} SegmentsGrow(cells: seq<AllocatedCell>, roles: seq<Role>, ids: seq<nat>, chunks: seq<Buf>,
                                        more: seq<AllocatedCell>, moreRoles: seq<Role>)
    requires SegmentsLaid(cells, roles, ids, chunks) && cells <= more && roles <= moreRoles && |more| == |moreRoles|
    ensures SegmentsLaid(more, moreRoles, ids, chunks)
  {
  }

  lemma {:induction false} LinksGrow(cells: seq<AllocatedCell>, roles: seq<Role>, links: seq<BigLink>,
                                     more: seq<AllocatedCell>, moreRoles: seq<Role>)
    requires LinksLaid(cells, roles, links) && cells <= more && roles <= moreRoles && |more| == |moreRoles|
    ensures LinksLaid(more, moreRoles, links)
  {
    forall j | 0 <= j < |links| ensures LinkLaid(more, moreRoles, j, links[j]) {
      assert LinkLaid(cells, roles, j, links[j]);
    }
  }

  lemma {:induction false} DataGrows(cells: seq<AllocatedCell>, roles: seq<Role>, dc: DataCells, data: Buf, vk: nat,
                                     more: seq<AllocatedCell>, moreRoles: seq<Role>, moreData: DataCells)
    requires DataLaid(cells, roles, dc, data, vk) && vk < |cells| && cells <= more && roles <= moreRoles
             && |more| == |moreRoles|
    requires MoreData(dc, |cells|, moreData)
    ensures DataLaid(more, moreRoles, moreData, data, vk)
  {
    if |data| > THRESHOLD {
      SegmentsGrow(cells, roles, dc.links[roles[dc.ids[vk]].link].segments, Chunks(data), more, moreRoles);
    }
  }

  lemma {:induction false} ValuesGrow(cells: seq<AllocatedCell>, roles: seq<Role>, dc: DataCells, p: string,
                                      vals: seq<TreeValue>, ids: seq<nat>, more: seq<AllocatedCell>,
                                      moreRoles: seq<Role>, moreData: DataCells)
    requires ValuesLaid(cells, roles, dc, p, vals, ids) && cells <= more && roles <= moreRoles && |more| == |moreRoles|
    requires MoreData(dc, |cells|, moreData)
    ensures ValuesLaid(more, moreRoles, moreData, p, vals, ids)
  {
    forall i | 0 <= i < |ids| ensures ValueLaid(more, moreRoles, moreData, p, i, vals[i], ids[i]) {
      assert ValueLaid(cells, roles, dc, p, i, vals[i], ids[i]);
      DataGrows(cells, roles, dc, vals[i].data, ids[i], more, moreRoles, moreData);
    }
  }

  // ----- the loops -----

  lemma {:induction false} NextChunk(data: Buf, k: nat)
    requires k < |Chunks(data)|
    ensures |Chunks(data)[k]| <= SEGMENT
    ensures ChunksSpace(Chunks(data)[..k + 1]) == ChunksSpace(Chunks(data)[..k]) + CellSpace(|Chunks(data)[k]|)
  {
    ChunkCount(data);
    assert Chunks(data)[k] in Chunks(data) && Chunks(data)[..k + 1][..k] == Chunks(data)[..k];
  }

  method AllocSegments(alloc: Allocator, data: Buf) returns (ids: seq<nat>)
    requires alloc.Valid()
    modifies alloc
    ensures alloc.pos == old(alloc.pos) + ChunksSpace(Chunks(data))
    ensures alloc.Valid() && alloc.Grown() && SegmentsLaid(alloc.cells, alloc.roles, ids, Chunks(data))
  {
    ids := [];
    var chunks := Chunks(data);
    for k := 0 to |chunks|
      invariant alloc.Valid() && alloc.Grown() && SegmentsLaid(alloc.cells, alloc.roles, ids, chunks[..k])
      invariant alloc.pos == old(alloc.pos) + ChunksSpace(chunks[..k])
    {
      NextChunk(data, k);
      ids := AllocSegment(alloc, chunks, k, ids);
    }
    assert chunks[..|chunks|] == chunks;
  }

  method AllocSegment(alloc: Allocator, chunks: seq<Buf>, k: nat, before: seq<nat>) returns (ids: seq<nat>)
    requires alloc.Valid() && k < |chunks| && |chunks[k]| <= SEGMENT
    requires SegmentsLaid(alloc.cells, alloc.roles, before, chunks[..k])
    modifies alloc
    ensures alloc.Valid() && alloc.Grown() && alloc.pos == old(alloc.pos) + CellSpace(|chunks[k]|)
    ensures SegmentsLaid(alloc.cells, alloc.roles, ids, chunks[..k + 1])
  {
    var id := alloc.AllocData(chunks[k]);
    SegmentsGrow(old(alloc.cells), old(alloc.roles), before, chunks[..k], alloc.cells, alloc.roles);
    ids := before + [id];
  }

  /** The `db` cell, its list and its segments; returns the new record. */
  method AllocBigData(alloc: Allocator, data: Buf, ghost j: nat) returns (link: BigLink)
    requires alloc.Valid() && (alloc.fits ==> |data| <= MAX_DATA)
    modifies alloc
    ensures alloc.pos == old(alloc.pos) + ChunksSpace(Chunks(data)) + CellSpace(4 * |Chunks(data)|) + CellSpace(8)
    ensures alloc.Valid() && alloc.Grown()
    ensures LinkLaid(alloc.cells, alloc.roles, j, link)
            && SegmentsLaid(alloc.cells, alloc.roles, link.segments, Chunks(data))
  {
    var segments := AllocSegments(alloc, data);
    ChunkCount(data);
    ghost var cells, roles := alloc.cells, alloc.roles;
    var list := alloc.Alloc(Zeros(4 * |segments|), SegmentListRole(j));
    var db := alloc.Alloc(BigDataBody(|segments|), BigRole(j));
    SegmentsGrow(cells, roles, segments, Chunks(data), alloc.cells, alloc.roles);
    forall k | 0 <= k < |segments| ensures segments[k] < |alloc.cells| {
      assert Laid(alloc.cells, alloc.roles, segments[k], DataRole, Chunks(data)[k]);
    }
    link := BigLink(db, list, segments);
  }

  lemma {:induction false} PointersGrow(cells: seq<AllocatedCell>, roles: seq<Role>, ids: map<nat, nat>,
                                        more: seq<AllocatedCell>, moreRoles: seq<Role>)
    requires PointersLaid(cells, roles, ids) && cells <= more && roles <= moreRoles && |more| == |moreRoles|
    ensures PointersLaid(more, moreRoles, ids)
  {
  }

  /** The cells of a value's data: none, one, or a big-data record. */
  method AllocValueData(alloc: Allocator, data: Buf, vk: nat, dc: DataCells) returns (more: DataCells)
    requires alloc.Valid() && vk < |alloc.cells| && alloc.roles[vk].ValueRole? && |alloc.cells[vk].body| >= 20
             && vk !in dc.ids
    requires PointersLaid(alloc.cells, alloc.roles, dc.ids) && LinksLaid(alloc.cells, alloc.roles, dc.links)
    requires alloc.fits ==> |data| <= MAX_DATA
    modifies alloc
    ensures alloc.Valid() && alloc.Grown() && alloc.pos == old(alloc.pos) + DataSpace(data)
    ensures PointersLaid(alloc.cells, alloc.roles, more.ids) && LinksLaid(alloc.cells, alloc.roles, more.links)
    ensures MoreData(dc, vk, more) && DataLaid(alloc.cells, alloc.roles, more, data, vk)
  {
    more := dc;
    if |data| > THRESHOLD {
      var link := AllocBigData(alloc, data, |dc.links|);
      PointersGrow(old(alloc.cells), old(alloc.roles), dc.ids, alloc.cells, alloc.roles);
      LinksGrow(old(alloc.cells), old(alloc.roles), dc.links, alloc.cells, alloc.roles);
      more := DataCells(dc.ids[vk := link.db], dc.links + [link]);
    } else if |data| > 4 {
      var id := alloc.AllocData(data);
      PointersGrow(old(alloc.cells), old(alloc.roles), dc.ids, alloc.cells, alloc.roles);
      LinksGrow(old(alloc.cells), old(alloc.roles), dc.links, alloc.cells, alloc.roles);
      more := dc.(ids := dc.ids[vk := id]);
    }
  }

  /** The cell of one value, and those of its data unless it is resident. */
  method AllocValue(alloc: Allocator, v: TreeValue, dc: DataCells, ghost p: string, ghost i: nat)
    returns (vk: nat, more: DataCells)
    requires alloc.Valid() && (alloc.fits ==> ValueFits(v))
    requires PointersLaid(alloc.cells, alloc.roles, dc.ids) && LinksLaid(alloc.cells, alloc.roles, dc.links)
    modifies alloc
    ensures alloc.Valid() && alloc.Grown() && alloc.pos == old(alloc.pos) + ValueSpace(v)
    ensures PointersLaid(alloc.cells, alloc.roles, more.ids) && LinksLaid(alloc.cells, alloc.roles, more.links)
    ensures MoreData(dc, |old(alloc.cells)|, more)
    ensures ValueLaid(alloc.cells, alloc.roles, more, p, i, v, vk)
  {
    ghost var body := ValueBody(Utf8(v.name), v.dataType, AsU32(|v.data|));
    vk := alloc.AllocVk(Utf8(v.name), v.dataType, AsU32(|v.data|), p, i);
    PointersGrow(old(alloc.cells), old(alloc.roles), dc.ids, alloc.cells, alloc.roles);
    LinksGrow(old(alloc.cells), old(alloc.roles), dc.links, alloc.cells, alloc.roles);
    ghost var cells, roles := alloc.cells, alloc.roles;
    assert Laid(cells, roles, vk, ValueRole(p, i), body) && |body| >= 20;
    more := AllocValueData(alloc, v.data, vk, dc);
    assert Laid(alloc.cells, alloc.roles, vk, ValueRole(p, i), body);
  }

  method AllocNextValue(alloc: Allocator, vals: seq<TreeValue>, i: nat, before: seq<nat>, dc: DataCells,
                        ghost p: string)
    returns (ids: seq<nat>, more: DataCells)
    requires alloc.Valid() && (alloc.fits ==> ListFits(vals)) && i < |vals|
    requires PointersLaid(alloc.cells, alloc.roles, dc.ids) && LinksLaid(alloc.cells, alloc.roles, dc.links)
    requires |before| == i && ValuesLaid(alloc.cells, alloc.roles, dc, p, vals, before)
    modifies alloc
    ensures alloc.Valid() && alloc.Grown()
    ensures alloc.pos + ValuesSpace(vals[..i]) == old(alloc.pos) + ValuesSpace(vals[..i + 1])
    ensures PointersLaid(alloc.cells, alloc.roles, more.ids) && LinksLaid(alloc.cells, alloc.roles, more.links)
    ensures MoreData(dc, |old(alloc.cells)|, more)
    ensures |ids| == i + 1 && ValuesLaid(alloc.cells, alloc.roles, more, p, vals, ids)
  {
    var vk;
    assert vals[..i + 1][..i] == vals[..i];
    vk, more := AllocValue(alloc, vals[i], dc, p, i);
    ValuesGrow(old(alloc.cells), old(alloc.roles), dc, p, vals, before, alloc.cells, alloc.roles, more);
    ids := before + [vk];
  }

  method AllocValuesOf(alloc: Allocator, vals: seq<TreeValue>, dc: DataCells, ghost p: string)
    returns (ids: seq<nat>, more: DataCells)
    requires alloc.Valid() && (alloc.fits ==> ListFits(vals))
    requires PointersLaid(alloc.cells, alloc.roles, dc.ids) && LinksLaid(alloc.cells, alloc.roles, dc.links)
    modifies alloc
    ensures alloc.Valid() && alloc.Grown() && alloc.pos == old(alloc.pos) + ValuesSpace(vals)
    ensures PointersLaid(alloc.cells, alloc.roles, more.ids) && LinksLaid(alloc.cells, alloc.roles, more.links)
    ensures MoreData(dc, |old(alloc.cells)|, more)
    ensures |ids| == |vals| && ValuesLaid(alloc.cells, alloc.roles, more, p, vals, ids)
  {
    ids, more := [], dc;
    for i := 0 to |vals|
      invariant alloc.Valid() && alloc.Grown()
      invariant PointersLaid(alloc.cells, alloc.roles, more.ids) && LinksLaid(alloc.cells, alloc.roles, more.links)
      invariant MoreData(dc, |old(alloc.cells)|, more)
      invariant |ids| == i && ValuesLaid(alloc.cells, alloc.roles, more, p, vals, ids)
      invariant alloc.pos == old(alloc.pos) + ValuesSpace(vals[..i])
    {
      ids, more := AllocNextValue(alloc, vals, i, ids, more, p);
    }
    assert vals[..|vals|] == vals;
  }

  // ----- all values -----

  /** The values of one key of the tree, and an empty list with room for them. */
  ghost predicate KeyLaid(cells: seq<AllocatedCell>, roles: seq<Role>, dc: DataCells, vals: seq<TreeValue>, p: string,
                          ids: seq<nat>, list: nat)
  {
    && |ids| == |vals| && ValuesLaid(cells, roles, dc, p, vals, ids)
    && Laid(cells, roles, list, ListRole(p), Zeros(4 * |vals|))
  }

  ghost predicate KeysLaid(cells: seq<AllocatedCell>, roles: seq<Role>, dc: DataCells, t: KeyTree,
                           vkIds: map<string, seq<nat>>, listIds: map<string, nat>, paths: seq<string>) {
    paths != [] ==>
      var p := paths[|paths| - 1];
      && p in t.values && p in vkIds && p in listIds && KeyLaid(cells, roles, dc, t.values[p], p, vkIds[p], listIds[p])
      && KeysLaid(cells, roles, dc, t, vkIds, listIds, paths[..|paths| - 1])
  }

  lemma {:induction false} KeyLaidAt(cells: seq<AllocatedCell>, roles: seq<Role>, dc: DataCells, t: KeyTree,
                                     vkIds: map<string, seq<nat>>, listIds: map<string, nat>, paths: seq<string>,
                                     p: string)
    requires KeysLaid(cells, roles, dc, t, vkIds, listIds, paths) && p in paths
    ensures p in t.values && p in vkIds && p in listIds
            && KeyLaid(cells, roles, dc, t.values[p], p, vkIds[p], listIds[p])
  {
    if paths[|paths| - 1] != p {
      KeyLaidAt(cells, roles, dc, t, vkIds, listIds, paths[..|paths| - 1], p);
    }
  }

  lemma {:induction false} KeysGrow(cells: seq<AllocatedCell>, roles: seq<Role>, dc: DataCells, t: KeyTree,
                                    vkIds: map<string, seq<nat>>, listIds: map<string, nat>, paths: seq<string>,
                                    more: seq<AllocatedCell>, moreRoles: seq<Role>, moreData: DataCells)
    requires KeysLaid(cells, roles, dc, t, vkIds, listIds, paths) && cells <= more && roles <= moreRoles
             && |more| == |moreRoles|
    requires MoreData(dc, |cells|, moreData)
    ensures KeysLaid(more, moreRoles, moreData, t, vkIds, listIds, paths)
  {
    if paths != [] {
      var p := paths[|paths| - 1];
      KeysGrow(cells, roles, dc, t, vkIds, listIds, paths[..|paths| - 1], more, moreRoles, moreData);
      ValuesGrow(cells, roles, dc, p, t.values[p], vkIds[p], more, moreRoles, moreData);
    }
  }

  lemma {:induction false} KeysUpdate(cells: seq<AllocatedCell>, roles: seq<Role>, dc: DataCells, t: KeyTree,
                                      vkIds: map<string, seq<nat>>, listIds: map<string, nat>, paths: seq<string>,
                                      p: string, ids: seq<nat>, list: nat)
    requires KeysLaid(cells, roles, dc, t, vkIds, listIds, paths) && p in t.values
    requires KeyLaid(cells, roles, dc, t.values[p], p, ids, list)
    ensures KeysLaid(cells, roles, dc, t, vkIds[p := ids], listIds[p := list], paths)
  {
    if paths != [] {
      KeysUpdate(cells, roles, dc, t, vkIds, listIds, paths[..|paths| - 1], p, ids, list);
    }
  }

  /** In increasing order, so that none occurs twice. */
  ghost predicate Ascending(ks: seq<string>) {
    forall i, j | 0 <= i < j < |ks| :: Less(ks[i], ks[j])
  }

  lemma AscendingDistinct(ks: seq<string>)
    requires Ascending(ks)
    ensures Distinct(ks)
  {
    forall i, j | 0 <= i < j < |ks| ensures ks[i] != ks[j] {
      LessAsymmetric(ks[i], ks[j]);
    }
  }

  lemma {:induction false} FoundKeysAscend(found: seq<string>)
    requires forall i, j | 0 <= i < j < |found| :: found[i] != found[j]
    ensures Ascending(MergeJoin.Sort(found, (k: string) => k))
            && forall k :: k in MergeJoin.Sort(found, (k: string) => k) <==> k in found
  {
    MergeJoin.SortElements(found, (k: string) => k);
    MergeJoin.SortStrict(found, (k: string) => k);
  }

  /** The keys of a `BTreeMap`, in its order. */
  method SortedKeys<V>(m: map<string, V>) returns (ks: seq<string>)
    ensures forall k :: k in ks <==> k in m
    ensures Ascending(ks)
  {
    var found: seq<string> := [];
    var todo := m.Keys;
    while todo != {}
      invariant todo <= m.Keys && (forall k :: k in m <==> k in todo || k in found)
                && forall k | k in todo :: k !in found
      invariant forall i, j | 0 <= i < j < |found| :: found[i] != found[j]
      decreases |todo|
    {
      var k :| k in todo;
      found := found + [k];
      todo := todo - {k};
    }
    FoundKeysAscend(found);
    ks := MergeJoin.Sort(found, (k: string) => k);
  }

  /** The cells of one key's values, then the cell of their list. */
  method AllocKeyValues(alloc: Allocator, vals: seq<TreeValue>, before: DataCells, ghost p: string)
    returns (ids: seq<nat>, list: nat, dc: DataCells)
    requires alloc.Valid() && (alloc.fits ==> ListFits(vals))
    requires PointersLaid(alloc.cells, alloc.roles, before.ids) && LinksLaid(alloc.cells, alloc.roles, before.links)
    modifies alloc
    ensures alloc.Valid() && alloc.Grown() && alloc.pos == old(alloc.pos) + KeyValuesSpace(vals)
    ensures PointersLaid(alloc.cells, alloc.roles, dc.ids) && LinksLaid(alloc.cells, alloc.roles, dc.links)
    ensures MoreData(before, |old(alloc.cells)|, dc)
    ensures KeyLaid(alloc.cells, alloc.roles, dc, vals, p, ids, list)
  {
    ids, dc := AllocValuesOf(alloc, vals, before, p);
    ghost var cells, roles := alloc.cells, alloc.roles;
    list := alloc.AllocValuesList(|ids|, p);
    ValuesGrow(cells, roles, dc, p, vals, ids, alloc.cells, alloc.roles, dc);
    PointersGrow(cells, roles, dc.ids, alloc.cells, alloc.roles);
    LinksGrow(cells, roles, dc.links, alloc.cells, alloc.roles);
  }

  /** Laying out the next key keeps what is laid out, and adds it. */
  lemma {:induction false} KeysNext(cells: seq<AllocatedCell>, roles: seq<Role>, dc: DataCells, t: KeyTree,
                                    vkIds: map<string, seq<nat>>, listIds: map<string, nat>, ps: seq<string>, k: nat,
                                    more: seq<AllocatedCell>, moreRoles: seq<Role>, moreData: DataCells, ids: seq<nat>,
                                    list: nat)
    requires k < |ps| && ps[k] in t.values && KeysLaid(cells, roles, dc, t, vkIds, listIds, ps[..k])
    requires cells <= more && roles <= moreRoles && |more| == |moreRoles| && MoreData(dc, |cells|, moreData)
    requires KeyLaid(more, moreRoles, moreData, t.values[ps[k]], ps[k], ids, list)
    ensures KeysLaid(more, moreRoles, moreData, t, vkIds[ps[k] := ids], listIds[ps[k] := list], ps[..k + 1])
  {
    KeysGrow(cells, roles, dc, t, vkIds, listIds, ps[..k], more, moreRoles, moreData);
    KeysUpdate(more, moreRoles, moreData, t, vkIds, listIds, ps[..k], ps[k], ids, list);
    assert ps[..k + 1][..k] == ps[..k];
  }

  /** The keys to lay out are keys of the tree that have values. */
  ghost predicate HaveValues(t: KeyTree, ps: seq<string>) {
    ps != [] ==> ps[|ps| - 1] in t.values && HaveValues(t, ps[..|ps| - 1])
  }

  lemma {:induction false} HasValues(t: KeyTree, ps: seq<string>, k: nat)
    requires HaveValues(t, ps) && k < |ps|
    ensures ps[k] in t.values
  {
    if k < |ps| - 1 {
      HasValues(t, ps[..|ps| - 1], k);
    }
  }

  lemma {:induction false} AllHaveValues(t: KeyTree, ps: seq<string>)
    requires forall p | p in ps :: p in t.values
    ensures HaveValues(t, ps)
  {
    if ps != [] {
      AllHaveValues(t, ps[..|ps| - 1]);
    }
  }

  lemma {:induction false} TotalNext(cost: string -> nat, ps: seq<string>, k: nat)
    requires k < |ps|
    ensures Total(cost, ps[..k + 1]) == Total(cost, ps[..k]) + cost(ps[k])
  {
    assert ps[..k + 1][..k] == ps[..k];
  }

  method AllocKeyCells(alloc: Allocator, t: KeyTree, ps: seq<string>, k: nat, vk0: map<string, seq<nat>>,
                       list0: map<string, nat>, dc0: DataCells)
    returns (vkIds: map<string, seq<nat>>, listIds: map<string, nat>, dc: DataCells)
    requires alloc.Valid() && k < |ps| && ps[k] in t.values && (alloc.fits ==> ListFits(t.values[ps[k]]))
    requires PointersLaid(alloc.cells, alloc.roles, dc0.ids) && LinksLaid(alloc.cells, alloc.roles, dc0.links)
    requires KeysLaid(alloc.cells, alloc.roles, dc0, t, vk0, list0, ps[..k])
    modifies alloc
    ensures alloc.Valid() && alloc.Grown() && alloc.pos == old(alloc.pos) + KeyValuesSpace(t.values[ps[k]])
    ensures PointersLaid(alloc.cells, alloc.roles, dc.ids) && LinksLaid(alloc.cells, alloc.roles, dc.links)
    ensures KeysLaid(alloc.cells, alloc.roles, dc, t, vkIds, listIds, ps[..k + 1])
    ensures vkIds.Keys == vk0.Keys + {ps[k]} && listIds.Keys == list0.Keys + {ps[k]}
  {
    var ids, list;
    ids, list, dc := AllocKeyValues(alloc, t.values[ps[k]], dc0, ps[k]);
    KeysNext(old(alloc.cells), old(alloc.roles), dc0, t, vk0, list0, ps, k, alloc.cells, alloc.roles, dc, ids, list);
    vkIds, listIds := vk0[ps[k] := ids], list0[ps[k] := list];
  }

  lemma {:induction false} NextFits(t: KeyTree, cost: string -> nat, fits: bool, ps: seq<string>, k: nat)
    requires k < |ps| && HaveValues(t, ps) && (fits ==> FieldsFit(t)) && ValueCosts(cost, t)
    ensures ps[k] in t.values && (fits ==> ListFits(t.values[ps[k]])) && cost(ps[k]) == KeyValuesSpace(t.values[ps[k]])
  {
    HasValues(t, ps, k);
    if fits {
      ListsFit(t, ps[k]);
    }
  }

  method AllocOneKey(alloc: Allocator, t: KeyTree, ps: seq<string>, k: nat, vk0: map<string, seq<nat>>,
                     list0: map<string, nat>, dc0: DataCells, ghost cost: string -> nat)
    returns (vkIds: map<string, seq<nat>>, listIds: map<string, nat>, dc: DataCells)
    requires alloc.Valid() && k < |ps| && HaveValues(t, ps) && (alloc.fits ==> FieldsFit(t)) && ValueCosts(cost, t)
    requires PointersLaid(alloc.cells, alloc.roles, dc0.ids) && LinksLaid(alloc.cells, alloc.roles, dc0.links)
    requires KeysLaid(alloc.cells, alloc.roles, dc0, t, vk0, list0, ps[..k]) && list0.Keys == vk0.Keys <= t.values.Keys
    modifies alloc
    ensures alloc.Valid() && alloc.Grown() && alloc.pos == old(alloc.pos) + cost(ps[k])
    ensures PointersLaid(alloc.cells, alloc.roles, dc.ids) && LinksLaid(alloc.cells, alloc.roles, dc.links)
    ensures KeysLaid(alloc.cells, alloc.roles, dc, t, vkIds, listIds, ps[..k + 1])
    ensures listIds.Keys == vkIds.Keys <= t.values.Keys
  {
    NextFits(t, cost, alloc.fits, ps, k);
    vkIds, listIds, dc := AllocKeyCells(alloc, t, ps, k, vk0, list0, dc0);
  }

  method AllocEach(alloc: Allocator, t: KeyTree, ps: seq<string>, ghost cost: string -> nat)
    returns (vkIds: map<string, seq<nat>>, listIds: map<string, nat>, dc: DataCells)
    requires alloc.Valid() && HaveValues(t, ps) && (alloc.fits ==> FieldsFit(t)) && ValueCosts(cost, t)
    modifies alloc
    ensures alloc.Valid() && alloc.Grown() && alloc.pos == old(alloc.pos) + Total(cost, ps)
    ensures PointersLaid(alloc.cells, alloc.roles, dc.ids) && LinksLaid(alloc.cells, alloc.roles, dc.links)
    ensures KeysLaid(alloc.cells, alloc.roles, dc, t, vkIds, listIds, ps) && listIds.Keys == vkIds.Keys <= t.values.Keys
  {
    vkIds, listIds, dc := map[], map[], DataCells(map[], []);
    for k := 0 to |ps|
      invariant alloc.Valid() && alloc.Grown()
      invariant PointersLaid(alloc.cells, alloc.roles, dc.ids) && LinksLaid(alloc.cells, alloc.roles, dc.links)
      invariant KeysLaid(alloc.cells, alloc.roles, dc, t, vkIds, listIds, ps[..k])
                && listIds.Keys == vkIds.Keys <= t.values.Keys
      invariant alloc.pos == old(alloc.pos) + Total(cost, ps[..k])
    {
      TotalNext(cost, ps, k);
      vkIds, listIds, dc := AllocOneKey(alloc, t, ps, k, vkIds, listIds, dc, cost);
    }
    assert ps[..|ps|] == ps;
  }

  /** The value loop of the build, over the map of values in key order. */
  method AllocValues(alloc: Allocator, t: KeyTree, ghost cost: string -> nat)
    returns (vkIds: map<string, seq<nat>>, listIds: map<string, nat>, dc: DataCells, ghost paths: seq<string>)
    requires alloc.Valid() && (alloc.fits ==> FieldsFit(t)) && ValueCosts(cost, t)
    modifies alloc
    ensures alloc.Valid() && alloc.Grown() && alloc.pos == old(alloc.pos) + Total(cost, paths)
    ensures PointersLaid(alloc.cells, alloc.roles, dc.ids) && LinksLaid(alloc.cells, alloc.roles, dc.links)
    ensures KeysLaid(alloc.cells, alloc.roles, dc, t, vkIds, listIds, paths)
            && listIds.Keys == vkIds.Keys <= t.values.Keys
    ensures Distinct(paths) && forall p :: p in paths <==> p in t.values
  {
    var ps := SortedKeys(t.values);
    AllHaveValues(t, ps);
    AscendingDistinct(ps);
    vkIds, listIds, dc := AllocEach(alloc, t, ps, cost);
    paths := ps;
  }
}
