/**
 The list operations of the benchmark on nodes and their data records: sorting,
 searching with reversal and move-to-front, removing with its undo.
 */
module CoreListOps {
  import opened BitArith
  import opened Common
  import opened Words
  import opened CoreCrc
  import opened CoreSort
  import opened CoreList

  // ---------- Lists as sequences of cells ----------

  /** A node together with the data record it points to. */
  datatype Cell = Cell(node: ListHead, info: ListData)

  ghost function Nodes(cells: set<Cell>): set<ListHead> {
    set c <- cells :: c.node
  }

  ghost function Datas(cells: set<Cell>): set<ListData> {
    set c <- cells :: c.info
  }

  ghost function NodeSeq(cells: seq<Cell>): (s: seq<ListHead>)
    ensures |s| == |cells|
  {
    seq(|cells|, i requires 0 <= i < |cells| => cells[i].node)
  }

  ghost function InfoSeq(cells: seq<Cell>): (s: seq<ListData>)
    ensures |s| == |cells|
  {
    seq(|cells|, i requires 0 <= i < |cells| => cells[i].info)
  }

  /** Different cells have different nodes and different records. */
  ghost predicate Separate(all: set<Cell>) {
    forall c, d | c in all && d in all && c != d :: c.node != d.node && c.info != d.info
  }

  /** Every node points to the record of its cell. */
  ghost predicate Pointing(all: set<Cell>)
    reads Nodes(all)`info
  {
    forall c <- all :: c.node.info == c.info
  }

  /** The link that a place of the list should have. */
  ghost function NextIn(nodes: seq<ListHead>, i: nat): ListHead? {
    if i + 1 < |nodes| then nodes[i + 1] else null
  }

  /** A null-terminated chain of links. */
  ghost predicate Chained(nodes: seq<ListHead>)
    reads nodes`next
  {
    forall i {:trigger nodes[i]} | 0 <= i < |nodes| :: nodes[i].next == NextIn(nodes, i)
  }

  /** A list made of exactly the given cells, in the given order. */
  ghost predicate ListIn(list: ListHead?, cells: seq<Cell>, all: set<Cell>)
    reads NodeSeq(cells)`next, Nodes(all)`info
  {
    && Separate(all) && Pointing(all)
    && Elems(cells) == all && Distinct(cells)
    && |cells| > 0 && list == cells[0].node && Chained(NodeSeq(cells))
  }

  /** The contents of data records. */
  ghost function Records(data: set<ListData>): (m: map<ListData, Datum>)
    reads data
    ensures m.Keys == data && forall d <- data :: m[d] == Datum(d.data16, d.idx)
  {
    map d <- data :: Datum(d.data16, d.idx)
  }

  /** The map has the records of all the cells. */
  ghost predicate Listed(m: map<ListData, Datum>, cells: seq<Cell>) {
    forall c <- cells :: c.info in m
  }

  /** The records of the cells, in the cells' order. */
  ghost function DataOf(m: map<ListData, Datum>, cells: seq<Cell>): (data: seq<Datum>)
    requires Listed(m, cells)
    ensures |data| == |cells|
  {
    seq(|cells|, i requires 0 <= i < |cells| => m[cells[i].info])
  }

  // ---------- The sort ----------

  /** The items of a list in its present order. */
  ghost function ItemsOf(m: map<ListData, Datum>, cells: seq<Cell>): (items: seq<Item>)
    requires Listed(m, cells)
    ensures |items| == |cells| && InPlace(items, 0)
  {
    seq(|cells|, i requires 0 <= i < |cells| => Item(i, m[cells[i].info].idx, m[cells[i].info].data16))
  }

  /** The elements at the items' positions. */
  ghost function At<T>(s: seq<T>, items: seq<Item>): (t: seq<T>)
    requires forall i | 0 <= i < |items| :: items[i].pos < |s|
    ensures |t| == |items| && forall i | 0 <= i < |t| :: t[i] == s[items[i].pos]
  {
    seq(|items|, i requires 0 <= i < |items| => s[items[i].pos])
  }

  /** The records of the cells hold the data of the items. */
  ghost predicate Hold(m: map<ListData, Datum>, cells: seq<Cell>, items: seq<Item>) {
    && |cells| == |items|
    && forall i | 0 <= i < |items| :: cells[i].info in m && m[cells[i].info] == Datum(items[i].data16, items[i].idx)
  }

  lemma CellsApart(cells: seq<Cell>, all: set<Cell>)
    requires Separate(all) && Elems(cells) == all && Distinct(cells)
    ensures Distinct(NodeSeq(cells)) && Distinct(InfoSeq(cells))
  {
    forall i, j | 0 <= i < j < |cells| ensures cells[i].node != cells[j].node && cells[i].info != cells[j].info {
      assert cells[i] in Elems(cells) && cells[j] in Elems(cells);
    }
  }

  lemma CellMembers(cells: seq<Cell>, all: set<Cell>)
    requires Elems(cells) == all
    ensures forall i | 0 <= i < |cells| :: cells[i] in all && cells[i].node in Nodes(all) && cells[i].info in Datas(all)
  {
    forall i | 0 <= i < |cells| ensures cells[i] in all && cells[i].node in Nodes(all) && cells[i].info in Datas(all) {
      assert cells[i] in Elems(cells);
    }
  }

  lemma CellsLinked(cells: seq<Cell>, items: seq<Item>)
    requires Chained(NodeSeq(cells)) && |items| == |cells| && InPlace(items, 0)
    ensures InRange(NodeSeq(cells), items) && Terminated(NodeSeq(cells), Links(NodeSeq(cells)), items)
  {
    var nodes := NodeSeq(cells);
    assert forall i | 0 <= i < |nodes| :: Links(nodes)[i] == NextIn(nodes, i);
  }

  lemma CellsHold(cells: seq<Cell>, all: set<Cell>)
    requires Elems(cells) == all
    ensures Listed(Records(Datas(all)), cells)
    ensures var items := ItemsOf(Records(Datas(all)), cells);
      Hold(Records(Datas(all)), cells, items) && Holds(Data(InfoSeq(cells)), items)
  {
    CellMembers(cells, all);
    var m := Records(Datas(all));
    var items := ItemsOf(m, cells);
    forall i | 0 <= i < |items| ensures items[i].pos == i && cells[i].info in m &&
      m[cells[i].info] == Datum(items[i].data16, items[i].idx) == Data(InfoSeq(cells))[i] {}
  }

  lemma ListToItems(list: ListHead?, cells: seq<Cell>, all: set<Cell>)
    requires ListIn(list, cells, all)
    ensures Apart(NodeSeq(cells), InfoSeq(cells))
    ensures Listed(Records(Datas(all)), cells)
    ensures Hold(Records(Datas(all)), cells, ItemsOf(Records(Datas(all)), cells))
    ensures IsList(NodeSeq(cells), InfoSeq(cells), list, ItemsOf(Records(Datas(all)), cells))
  {
    CellsApart(cells, all);
    CellMembers(cells, all);
    CellsHold(cells, all);
    CellsLinked(cells, ItemsOf(Records(Datas(all)), cells));
  }

  lemma ItemsToList(list: ListHead?, cells: seq<Cell>, all: set<Cell>, items: seq<Item>)
    requires Separate(all) && Pointing(all) && Elems(cells) == all && Distinct(cells)
    requires IsList(NodeSeq(cells), InfoSeq(cells), list, items)
    requires |items| == |cells| > 0
    ensures ListIn(list, At(cells, items), all)
    ensures Hold(Records(Datas(all)), At(cells, items), items)
  {
    var sorted := At(cells, items);
    var nodes := NodeSeq(cells);
    AtReordered(cells, items);
    CellMembers(cells, all);
    forall i | 0 <= i < |sorted| ensures NodeSeq(sorted)[i].next == NextIn(NodeSeq(sorted), i) {
      assert Links(nodes)[items[i].pos] == sorted[i].node.next;
      assert i + 1 < |sorted| ==> sorted[i + 1].node == nodes[items[i + 1].pos];
    }
    forall i, j | 0 <= i < j < |sorted| ensures sorted[i] != sorted[j] {
      assert items[i].pos != items[j].pos;
    }
    forall i | 0 <= i < |items| ensures sorted[i].info in Datas(all) &&
      Records(Datas(all))[sorted[i].info] == Datum(items[i].data16, items[i].idx) {
      assert Data(InfoSeq(cells))[items[i].pos] == Datum(items[i].data16, items[i].idx);
    }
  }

  /** Every original item appears in the result, up to what comparisons change. */
  lemma SortedCore(items0: seq<Item>, items: seq<Item>, i: nat) returns (j: nat)
    requires InPlace(items0, 0) && i < |items0|
    requires multiset(Cores(items)) == multiset(Cores(items0))
    ensures j < |items| && items[j].pos == i && CoreOf(items[j]) == CoreOf(items0[i])
  {
    assert Cores(items0)[i] == CoreOf(items0[i]);
    assert CoreOf(items0[i]) in multiset(Cores(items));
    j :| 0 <= j < |items| && Cores(items)[j] == CoreOf(items0[i]);
  }

  /** Index and high byte of every record are kept. */
  ghost predicate Kept(m: map<ListData, Datum>, m': map<ListData, Datum>) {
    m'.Keys == m.Keys && forall d <- m.Keys :: m'[d].idx == m[d].idx && HighByte(m'[d].data16) == HighByte(m[d].data16)
  }

  /** Items with the cores of the original ones keep index and high byte of every record. */
  lemma CoresKept(cells: seq<Cell>, all: set<Cell>, items0: seq<Item>, items: seq<Item>, m: map<ListData, Datum>,
          m': map<ListData, Datum>)
    requires InPlace(items0, 0) && multiset(Cores(items)) == multiset(Cores(items0))
    requires m.Keys == m'.Keys == Datas(all) && Elems(cells) == all && Hold(m, cells, items0)
    requires (forall i | 0 <= i < |items| :: items[i].pos < |cells|) && Hold(m', At(cells, items), items)
    ensures Kept(m, m')
  {
    forall d <- m.Keys ensures m'[d].idx == m[d].idx && HighByte(m'[d].data16) == HighByte(m[d].data16) {
      var i :| 0 <= i < |cells| && cells[i].info == d;
      var j := SortedCore(items0, items, i);
      assert At(cells, items)[j].info == d;
    }
  }

  /** If the sorted items are the original ones, no record has changed. */
  lemma ItemsKept(cells: seq<Cell>, all: set<Cell>, items0: seq<Item>, items: seq<Item>, m: map<ListData, Datum>,
          m': map<ListData, Datum>)
    requires InPlace(items0, 0) && multiset(items) == multiset(items0)
    requires m.Keys == m'.Keys == Datas(all) && Elems(cells) == all && Hold(m, cells, items0)
    requires (forall i | 0 <= i < |items| :: items[i].pos < |cells|) && Hold(m', At(cells, items), items)
    ensures m == m'
  {
    forall d <- m.Keys ensures m'[d] == m[d] {
      var i :| 0 <= i < |cells| && cells[i].info == d;
      assert items0[i] in multiset(items);
      var j :| 0 <= j < |items| && items[j] == items0[i];
      assert At(cells, items)[j].info == d;
    }
  }

  /**
   All of it about a sort's outcome: which order the list has now, and what its records
   hold. A comparison function that has nothing to change leaves the records alone.
   */
  ghost predicate SortedInto(cmp: Comparator, cells: seq<Cell>, items: seq<Item>, m: map<ListData, Datum>,
          m': map<ListData, Datum>)
  {
    && |items| == |cells| && DistinctPositions(items) && (forall i | 0 <= i < |items| :: items[i].pos < |cells|)
    && Hold(m', At(cells, items), items)
    && Kept(m, m')
    && (|cells| >= 2 ==> AllSettled(cmp, items) && Ordered(cmp, items))
    && (Listed(m, cells) && AllSettled(cmp, ItemsOf(m, cells)) ==> m' == m)
  }

  /** The items and results are those of the sort on the items of the cells. */
  ghost predicate SortOf(cmp: Comparator, kernels: Kernels, m: map<ListData, Datum>, cells: seq<Cell>, r0: Results,
          items: seq<Item>, r: Results)
  {
    Listed(m, cells) && Merged(items, r) == Sort(cmp, kernels, 1, ItemsOf(m, cells), r0)
  }

  /**
   `core_list_mergesort` with any comparison function that is a total preorder: the
   same nodes with the same data records, ordered and stable; index and high byte of
   every record are kept, and the whole record if the function changes nothing.
   */
  method MergeSort(ghost cells: seq<Cell>, ghost all: set<Cell>, list0: ListHead, cmp: Comparator, res: CoreResults?)
    returns (list: ListHead, ghost items: seq<Item>)
    requires ListIn(list0, cells, all) && CalledWith(cmp, res) && Preordered(cmp)
    modifies Nodes(all)`next, Datas(all)`data16, ResultsFrame(res)`crc, ResultsFrame(res)`crcstate,
            ResultsFrame(res)`crcmatrix, ResultsFrame(res)`calls
    ensures SortedInto(cmp, cells, items, old(Records(Datas(all))), Records(Datas(all)))
    ensures ListIn(list, At(cells, items), all)
    ensures SortOf(cmp, KernelsOf(res), old(Records(Datas(all))), cells, old(SnapshotOf(res)), items, SnapshotOf(res))
  {
    ghost var m, r0 := Records(Datas(all)), SnapshotOf(res);
    ListToItems(list0, cells, all);
    list, items := SortCells(cells, all, list0, cmp, res, ItemsOf(m, cells));
    SortedCells(list, cells, all, items, m, cmp, KernelsOf(res), r0);
  }

  /** The sort on the nodes and records of cells. */
  method SortCells(ghost cells: seq<Cell>, ghost all: set<Cell>, list0: ListHead, cmp: Comparator, res: CoreResults?,
          ghost items0: seq<Item>)
    returns (list: ListHead, ghost items: seq<Item>)
    requires Elems(cells) == all && Pointing(all) && CalledWith(cmp, res)
    requires Apart(NodeSeq(cells), InfoSeq(cells)) && IsList(NodeSeq(cells), InfoSeq(cells), list0, items0) &&
      |items0| > 0
    modifies Nodes(all)`next, Datas(all)`data16, ResultsFrame(res)`crc, ResultsFrame(res)`crcstate,
            ResultsFrame(res)`crcmatrix, ResultsFrame(res)`calls
    ensures Pointing(all) && IsList(NodeSeq(cells), InfoSeq(cells), list, items)
    ensures Merged(items, SnapshotOf(res)) == Sort(cmp, KernelsOf(res), 1, items0, old(SnapshotOf(res)))
  {
    NodeFrame(cells, all);
    InfoFrame(cells, all);
    list, items := SortNodes(NodeSeq(cells), InfoSeq(cells), cmp, res, list0, items0);
  }

  /** What the sorted items say about the cells. */
  lemma SortedCells(list: ListHead, cells: seq<Cell>, all: set<Cell>, items: seq<Item>, m: map<ListData, Datum>,
          cmp: Comparator, kernels: Kernels, r0: Results)
    requires Separate(all) && Pointing(all) && Elems(cells) == all && Distinct(cells) && |cells| > 0
    requires m.Keys == Datas(all) && Listed(m, cells) && Preordered(cmp)
    requires IsList(NodeSeq(cells), InfoSeq(cells), list, items) &&
      items == Sort(cmp, kernels, 1, ItemsOf(m, cells), r0).items
    ensures SortedInto(cmp, cells, items, m, Records(Datas(all)))
    ensures ListIn(list, At(cells, items), all)
  {
    MergesortCorrect(cmp, kernels, ItemsOf(m, cells), r0);
    ItemsToList(list, cells, all, items);
    CoresKept(cells, all, ItemsOf(m, cells), items, m, Records(Datas(all)));
    if AllSettled(cmp, ItemsOf(m, cells)) {
      ItemsKept(cells, all, ItemsOf(m, cells), items, m, Records(Datas(all)));
    }
  }

  lemma NodeFrame(cells: seq<Cell>, all: set<Cell>)
    requires Elems(cells) == all
    ensures forall i | 0 <= i < |cells| :: NodeSeq(cells)[i] in Nodes(all)
    ensures forall n <- Nodes(all) :: n in NodeSeq(cells)
  {
    CellMembers(cells, all);
    forall n <- Nodes(all) ensures n in NodeSeq(cells) {
      var i :| 0 <= i < |cells| && cells[i].node == n;
      assert NodeSeq(cells)[i] == n;
    }
  }

  lemma InfoFrame(cells: seq<Cell>, all: set<Cell>)
    requires Elems(cells) == all
    ensures forall i | 0 <= i < |cells| :: InfoSeq(cells)[i] in Datas(all)
  {
    CellMembers(cells, all);
  }

  // ---------- Rearrangements ----------

  /** Distinct positions below the length are all the positions. */
  lemma AllPositions(items: seq<Item>, n: nat, p: nat)
    requires |items| == n && DistinctPositions(items) && (forall i | 0 <= i < n :: items[i].pos < n) && p < n
    ensures exists i :: 0 <= i < n && items[i].pos == p
  {
    var used := set i | 0 <= i < n :: items[i].pos;
    BelowSize(n);
    ImageSize(items);
    if p !in used {
      assert used <= Below(n) - {p};
      SubsetSize(used, Below(n) - {p});
    }
  }

  ghost function Below(n: nat): set<nat> {
    if n == 0 then {} else Below(n - 1) + {n - 1}
  }

  lemma BelowSize(n: nat)
    ensures |Below(n)| == n && forall i: nat :: i in Below(n) <==> i < n
  {}

  lemma ImageSize(items: seq<Item>)
    requires DistinctPositions(items)
    ensures |set i | 0 <= i < |items| :: items[i].pos| == |items|
  {
    if |items| > 0 {
      var n := |items| - 1;
      ImageSize(items[..n]);
      assert (set i | 0 <= i < |items| :: items[i].pos) == (set i | 0 <= i < n :: items[..n][i].pos) + {items[n].pos};
    }
  }

  lemma AtReordered<T>(s: seq<T>, items: seq<Item>)
    requires |items| == |s| && DistinctPositions(items) && forall i | 0 <= i < |items| :: items[i].pos < |s|
    ensures Elems(At(s, items)) == Elems(s)
  {
    forall x <- s ensures x in At(s, items) {
      var p :| 0 <= p < |s| && s[p] == x;
      AllPositions(items, |s|, p);
      var i :| 0 <= i < |items| && items[i].pos == p;
      assert At(s, items)[i] == x;
    }
  }

  ghost function Reversed<T>(s: seq<T>): (r: seq<T>)
    ensures |r| == |s| && forall i | 0 <= i < |s| :: r[i] == s[|s| - 1 - i]
  {
    seq(|s|, i requires 0 <= i < |s| => s[|s| - 1 - i])
  }

  lemma ReversedElems<T>(s: seq<T>)
    ensures Elems(Reversed(s)) == Elems(s)
  {
    forall x <- s ensures x in Reversed(s) {
      var i :| 0 <= i < |s| && s[i] == x;
      assert Reversed(s)[|s| - 1 - i] == x;
    }
  }

  /** The element after place `u` moved to the second place. */
  ghost function MovedUp<T>(s: seq<T>, u: nat): (r: seq<T>)
    requires u + 1 < |s|
    ensures |r| == |s|
  {
    [s[0], s[u + 1]] + s[1..u + 1] + s[u + 2..]
  }

  /** Which place of the original list an element comes from. */
  ghost function MovedFrom(u: nat, i: nat): nat {
    if i == 0 then 0 else if i == 1 then u + 1 else if i <= u + 1 then i - 1 else i
  }

  lemma MovedUpAt<T>(s: seq<T>, u: nat, i: nat)
    requires u + 1 < |s| && i < |s|
    ensures MovedFrom(u, i) < |s| && MovedUp(s, u)[i] == s[MovedFrom(u, i)]
  {}

  lemma MovedUpElems<T>(s: seq<T>, u: nat)
    requires u + 1 < |s|
    ensures Elems(MovedUp(s, u)) == Elems(s)
  {
    assert s == [s[0]] + s[1..u + 1] + [s[u + 1]] + s[u + 2..];
  }

  // ---------- List operations ----------

  /** Whether a record is the one searched for: by index, or by low byte when the index is negative. */
  predicate Wanted(idx: int, low: nat, d: Datum) {
    if idx >= 0 then d.idx == idx else Value(d.data16[..8]) == low
  }

  /** The first place of a wanted record, or the length. */
  function FirstWanted(data: seq<Datum>, idx: int, low: nat): (t: nat)
    ensures t <= |data|
  {
    if data == [] || Wanted(idx, low, data[0]) then 0 else 1 + FirstWanted(data[1..], idx, low)
  }

  lemma {:induction false} FirstWantedIs(data: seq<Datum>, idx: int, low: nat, t: nat)
    requires t <= |data| && (t < |data| ==> Wanted(idx, low, data[t]))
    requires forall i | 0 <= i < t :: !Wanted(idx, low, data[i])
    ensures FirstWanted(data, idx, low) == t
  {
    if t > 0 {
      assert !Wanted(idx, low, data[0]);
      forall i | 0 <= i < t - 1 ensures !Wanted(idx, low, data[1..][i]) {
        assert data[1..][i] == data[i + 1];
      }
      FirstWantedIs(data[1..], idx, low, t - 1);
    }
  }

  lemma {:induction false} FirstWantedAt(data: seq<Datum>, idx: int, low: nat)
    ensures var t := FirstWanted(data, idx, low);
      (t < |data| ==> Wanted(idx, low, data[t])) && forall i | 0 <= i < t :: !Wanted(idx, low, data[i])
  {
    if data != [] && !Wanted(idx, low, data[0]) {
      FirstWantedAt(data[1..], idx, low);
      forall i | 0 < i < FirstWanted(data, idx, low) ensures !Wanted(idx, low, data[i]) {
        assert data[i] == data[1..][i - 1];
      }
    }
  }

  /** `core_list_find`: the first node whose record is wanted, or null. */
  method Find(ghost nodes: seq<ListHead>, ghost data: seq<Datum>, list: ListHead?, idx: int, low: nat)
    returns (found: ListHead?, ghost t: nat)
    requires Chained(nodes) && list == if |nodes| > 0 then nodes[0] else null
    requires |data| == |nodes| && forall i | 0 <= i < |nodes| ::
      data[i] == Datum(nodes[i].info.data16, nodes[i].info.idx)
    ensures t == FirstWanted(data, idx, low) && found == (if t < |nodes| then nodes[t] else null)
  {
    found := list;
    t := 0;
    if idx >= 0 {
      while found != null && found.info.idx != idx
        invariant t <= |nodes| && found == (if t < |nodes| then nodes[t] else null)
        invariant forall i | 0 <= i < t :: !Wanted(idx, low, data[i])
        decreases |nodes| - t
      {
        found := found.next;
        t := t + 1;
      }
    } else {
      while found != null && Value(found.info.data16[..8]) != low
        invariant t <= |nodes| && found == (if t < |nodes| then nodes[t] else null)
        invariant forall i | 0 <= i < t :: !Wanted(idx, low, data[i])
        decreases |nodes| - t
      {
        found := found.next;
        t := t + 1;
      }
    }
    FirstWantedIs(data, idx, low, t);
  }

  /** The links once the first `k` nodes point backwards. */
  ghost function PartlyReversed(nodes: seq<ListHead>, k: nat): seq<ListHead?> {
    seq(|nodes|, i requires 0 <= i < |nodes| =>
      if i >= k then NextIn(nodes, i) else if i > 0 then nodes[i - 1] else null)
  }

  lemma ChainedLinks(nodes: seq<ListHead>)
    requires Chained(nodes)
    ensures Links(nodes) == PartlyReversed(nodes, 0)
  {}

  lemma ReversedLinks(nodes: seq<ListHead>)
    requires Links(nodes) == PartlyReversed(nodes, |nodes|)
    ensures Chained(Reversed(nodes))
  {
    var r := Reversed(nodes);
    forall i | 0 <= i < |r| ensures r[i].next == NextIn(r, i) {
      assert Links(nodes)[|nodes| - 1 - i] == r[i].next;
    }
  }

  /** `core_list_reverse`. */
  method ReverseNodes(ghost nodes: seq<ListHead>, list0: ListHead?) returns (list: ListHead?)
    requires Distinct(nodes) && Chained(nodes) && list0 == if |nodes| > 0 then nodes[0] else null
    modifies nodes`next
    ensures Chained(Reversed(nodes)) && list == if |nodes| > 0 then nodes[|nodes| - 1] else null
  {
    var rest: ListHead?, next: ListHead? := list0, null;
    ghost var k := 0;
    ChainedLinks(nodes);
    while rest != null
      invariant k <= |nodes| && Links(nodes) == PartlyReversed(nodes, k)
      invariant rest == (if k < |nodes| then nodes[k] else null) && next == (if k > 0 then nodes[k - 1] else null)
      decreases |nodes| - k
    {
      ghost var links := Links(nodes);
      assert links[k] == rest.next;
      var tmp := rest.next;
      rest.next := next;
      assert Links(nodes) == links[k := next] == PartlyReversed(nodes, k + 1);
      next := rest;
      rest := tmp;
      k := k + 1;
    }
    list := next;
    ReversedLinks(nodes);
  }

  /** The links after taking the node after place `u` out and putting it behind the head. */
  ghost function MovedUpLinks(nodes: seq<ListHead>, u: nat): seq<ListHead?>
    requires u + 1 < |nodes|
  {
    var l := PartlyReversed(nodes, 0)[u := NextIn(nodes, u + 1)];
    l[u + 1 := l[0]][0 := nodes[u + 1]]
  }

  lemma MovedUpLinked(nodes: seq<ListHead>, u: nat)
    requires u + 1 < |nodes| && Links(nodes) == MovedUpLinks(nodes, u)
    ensures Chained(MovedUp(nodes, u))
  {
    var moved := MovedUp(nodes, u);
    forall i | 0 <= i < |moved| ensures moved[i].next == NextIn(moved, i) {
      MovedUpAt(nodes, u, i);
      assert Links(nodes)[MovedFrom(u, i)] == moved[i].next;
      if i + 1 < |moved| {
        MovedUpAt(nodes, u, i + 1);
      }
    }
  }

  /** Take the node after `found` out and put it right behind the head. */
  method MoveUpNodes(ghost nodes: seq<ListHead>, list: ListHead, found: ListHead, ghost u: nat)
    requires Distinct(nodes) && Chained(nodes) && u + 1 < |nodes| && found == nodes[u] && list == nodes[0]
    modifies nodes`next
    ensures Chained(MovedUp(nodes, u))
  {
    ChainedLinks(nodes);
    ghost var l0 := Links(nodes);
    assert l0[u] == found.next == nodes[u + 1];
    var finder := found.next;
    assert l0[u + 1] == finder.next;
    found.next := finder.next;
    ghost var l1 := Links(nodes);
    assert l1 == l0[u := l0[u + 1]];
    assert l1[0] == list.next;
    finder.next := list.next;
    assert Links(nodes) == l1[u + 1 := l1[0]];
    list.next := finder;
    assert Links(nodes) == l1[u + 1 := l1[0]][0 := nodes[u + 1]];
    MovedUpLinked(nodes, u);
  }

  /** `core_list_remove`: swap the data of a node and its successor and unlink the successor. */
  method Remove(item: ListHead) returns (ret: ListHead)
    requires item.next != null && item.next != item
    modifies item, item.next
    ensures ret == old(item.next)
    ensures item.info == old(item.next.info) && ret.info == old(item.info)
    ensures item.next == old(item.next.next) && ret.next == null
  {
    ret := item.next;
    var tmp := item.info;
    item.info := ret.info;
    ret.info := tmp;
    item.next := item.next.next;
    ret.next := null;
  }

  /** `core_list_undo_remove`: link the node back and swap the data again. */
  method UndoRemove(itemRemoved: ListHead, itemModified: ListHead) returns (r: ListHead)
    requires itemRemoved != itemModified
    modifies itemRemoved, itemModified
    ensures r == itemRemoved
    ensures itemRemoved.info == old(itemModified.info) && itemModified.info == old(itemRemoved.info)
    ensures itemRemoved.next == old(itemModified.next) && itemModified.next == itemRemoved
  {
    var tmp := itemRemoved.info;
    itemRemoved.info := itemModified.info;
    itemModified.info := tmp;
    itemRemoved.next := itemModified.next;
    itemModified.next := itemRemoved;
    r := itemRemoved;
  }

  // ---------- The searches ----------

  /** 16-bit unsigned arithmetic. */
  function U16(x: int): nat {
    x % 65536
  }

  /** `info.idx++` on a signed 16-bit field. */
  function NextIdx(idx: int): int {
    if idx == 32767 then -32768 else idx + 1
  }

  /** The sixteen bits of a number. */
  function HalfOf(x: nat): Half {
    seq(16, i requires 0 <= i => Bit(x, i))
  }

  lemma HalfOfValue(x: nat)
    ensures Value(HalfOf(x)) == x % 65536
  {
    assert Pow2(8) == 256 && Pow2(16) == 65536;
    ValueBits(HalfOf(x));
    forall i: nat | i < 16 ensures Bit(Value(HalfOf(x)), i) == Bit(x % 65536, i) {
      BitOfRemainder(x, 16, i);
    }
    BitsDetermine(Value(HalfOf(x)), x % 65536, 16);
  }

  /** The order after a search that found place `t`: reversed, and the found node's predecessor second. */
  ghost function AfterSearch<T>(s: seq<T>, t: nat): (r: seq<T>)
    ensures |r| == |s|
  {
    var r := Reversed(s);
    if 0 < t < |s| then MovedUp(r, |s| - 1 - t) else r
  }

  lemma AfterSearchMap(cells: seq<Cell>, t: nat)
    ensures NodeSeq(AfterSearch(cells, t)) == AfterSearch(NodeSeq(cells), t)
  {
    assert NodeSeq(Reversed(cells)) == Reversed(NodeSeq(cells));
    if 0 < t < |cells| {
      var u := |cells| - 1 - t;
      var r := Reversed(cells);
      assert NodeSeq(MovedUp(r, u)) == MovedUp(NodeSeq(r), u);
    }
  }

  lemma AfterSearchReorders<T>(s: seq<T>, t: nat)
    requires Distinct(s)
    ensures Distinct(AfterSearch(s, t)) && Elems(AfterSearch(s, t)) == Elems(s)
  {
    ReversedElems(s);
    if 0 < t < |s| {
      MovedUpElems(Reversed(s), |s| - 1 - t);
      MovedUpDistinct(Reversed(s), |s| - 1 - t);
    }
  }

  lemma MovedUpDistinct<T>(s: seq<T>, u: nat)
    requires u + 1 < |s| && Distinct(s)
    ensures Distinct(MovedUp(s, u))
  {
    forall i, j | 0 <= i < j < |s| ensures MovedUp(s, u)[i] != MovedUp(s, u)[j] {
      MovedUpAt(s, u, i);
      MovedUpAt(s, u, j);
    }
  }

  /** What the searches count. */
  datatype Tally = Tally(retval: nat, found: nat, missed: nat)

  /** Counting one search: the data word is that of the found node, or of the second node on a miss. */
  function CountSearch(tally: Tally, found: bool, data: Half): Tally {
    if found then
      Tally(if data[0] && data[9] then U16(tally.retval + 1) else tally.retval, U16(tally.found + 1), tally.missed)
    else
      Tally(if data[8] then U16(tally.retval + 1) else tally.retval, tally.found, U16(tally.missed + 1))
  }

  /** On success the node after the found one moves behind the head. */
  method MoveFoundUp(ghost nodes: seq<ListHead>, list: ListHead, found: ListHead, ghost t: nat)
    requires Distinct(nodes) && Chained(Reversed(nodes)) && t < |nodes|
    requires list == nodes[|nodes| - 1] && found == nodes[t]
    modifies nodes`next
    ensures Chained(AfterSearch(nodes, t))
  {
    ghost var r, u := Reversed(nodes), |nodes| - 1 - t;
    assert found == r[u] && found.next == NextIn(r, u);
    if found.next != null {
      AfterSearchReorders(nodes, |nodes|);
      MoveUpNodes(r, list, found, u);
    }
  }

  /** What follows a search: reverse, count, and on success move the node after the found one. */
  method AfterFind(ghost nodes: seq<ListHead>, list0: ListHead, thisFind: ListHead?, ghost t: nat, tally0: Tally)
    returns (list: ListHead, tally: Tally)
    requires Distinct(nodes) && Chained(nodes) && |nodes| >= 2 && list0 == nodes[0]
    requires t <= |nodes| && thisFind == if t < |nodes| then nodes[t] else null
    modifies nodes`next
    ensures Chained(AfterSearch(nodes, t)) && list == nodes[|nodes| - 1]
    ensures tally == CountSearch(tally0, t < |nodes|,
      if t < |nodes| then nodes[t].info.data16 else nodes[|nodes| - 2].info.data16)
  {
    var head := ReverseNodes(nodes, list0);
    list := head;
    assert Reversed(nodes)[0].next == Reversed(nodes)[1];
    tally := CountSearch(tally0, thisFind != null,
      if thisFind != null then thisFind.info.data16 else list.next.info.data16);
    if thisFind != null {
      MoveFoundUp(nodes, list, thisFind, t);
    }
  }

  /** The data word that a search looks at: that of the found record, or of the second one after reversal. */
  function Inspected(data: seq<Datum>, t: nat): Half
    requires |data| >= 2
  {
    if t < |data| then data[t].data16 else data[|data| - 2].data16
  }

  /** One search on nodes whose records hold the given data. */
  method SearchNodes(ghost nodes: seq<ListHead>, ghost data: seq<Datum>, list0: ListHead, idx: int, low: nat,
          tally0: Tally)
    returns (list: ListHead, tally: Tally, ghost t: nat)
    requires Distinct(nodes) && Chained(nodes) && |nodes| >= 2 && list0 == nodes[0]
    requires |data| == |nodes| && forall i | 0 <= i < |nodes| ::
      data[i] == Datum(nodes[i].info.data16, nodes[i].info.idx)
    modifies nodes`next
    ensures t <= |nodes| && Chained(AfterSearch(nodes, t)) && list == nodes[|nodes| - 1]
    ensures t == FirstWanted(data, idx, low) && tally == CountSearch(tally0, t < |nodes|, Inspected(data, t))
  {
    var thisFind;
    thisFind, t := Find(nodes, data, list0, idx, low);
    list, tally := AfterFind(nodes, list0, thisFind, t, tally0);
  }

  /** Where the searches of the benchmark stand. */
  datatype Search = Search(cells: seq<Cell>, idx: int, low: nat)

  /** One search on a list of cells. */
  method SearchList(ghost data: seq<Datum>, ghost cells: seq<Cell>, ghost all: set<Cell>, list0: ListHead, idx: int,
          low: nat, tally0: Tally)
    returns (list: ListHead, tally: Tally, ghost t: nat)
    requires ListIn(list0, cells, all) && |cells| >= 2 && data == Data(InfoSeq(cells))
    modifies Nodes(all)`next
    ensures t <= |cells| && ListIn(list, AfterSearch(cells, t), all)
    ensures t == FirstWanted(data, idx, low) && tally == CountSearch(tally0, t < |cells|, Inspected(data, t))
  {
    NodeFrame(cells, all);
    CellsApart(cells, all);
    NodesShow(cells, all);
    list, tally, t := SearchNodes(NodeSeq(cells), data, list0, idx, low, tally0);
    SearchedList(list, cells, all, t);
  }

  lemma NodesShow(cells: seq<Cell>, all: set<Cell>)
    requires Pointing(all) && Elems(cells) == all
    ensures forall i | 0 <= i < |cells| ::
      Data(InfoSeq(cells))[i] == Datum(NodeSeq(cells)[i].info.data16, NodeSeq(cells)[i].info.idx)
  {
    CellMembers(cells, all);
  }

  /** The map tells what the records of the cells hold. */
  ghost predicate Shows(m: map<ListData, Datum>, all: set<Cell>)
    reads Datas(all)`data16, Datas(all)`idx
  {
    forall c <- all :: c.info in m && m[c.info] == Datum(c.info.data16, c.info.idx)
  }

  lemma ShownData(m: map<ListData, Datum>, cells: seq<Cell>, all: set<Cell>)
    requires Elems(cells) == all && Shows(m, all)
    ensures Listed(m, cells) && DataOf(m, cells) == Data(InfoSeq(cells))
  {
    CellMembers(cells, all);
  }

  lemma SearchedList(list: ListHead, cells: seq<Cell>, all: set<Cell>, t: nat)
    requires Separate(all) && Pointing(all) && Elems(cells) == all && Distinct(cells)
    requires |cells| > 0 && list == NodeSeq(cells)[|cells| - 1] && Chained(AfterSearch(NodeSeq(cells), t))
    ensures ListIn(list, AfterSearch(cells, t), all)
  {
    AfterSearchMap(cells, t);
    AfterSearchReorders(cells, t);
  }

  /** The `i`-th search. */
  ghost function SearchStep(m: map<ListData, Datum>, i: nat, s: Search): Search {
    Search(SearchOrder(m, s.cells, s.idx, i % 256), if s.idx >= 0 then NextIdx(s.idx) else s.idx, i % 256)
  }

  /** The order after a search with this key. */
  ghost function SearchOrder(m: map<ListData, Datum>, cells: seq<Cell>, idx: int, low: nat): seq<Cell> {
    if Listed(m, cells) then AfterSearch(cells, FirstWanted(DataOf(m, cells), idx, low)) else cells
  }

  /** The state after the first `n` searches. */
  ghost function Searched(m: map<ListData, Datum>, n: nat, s0: Search): Search {
    if n == 0 then s0 else SearchStep(m, n - 1, Searched(m, n - 1, s0))
  }

  /** How often a loop up to `n` turns. */
  function TurnsTo(n: int): nat {
    if n < 0 then 0 else n
  }

  lemma NoTurns(n: int)
    ensures TurnsTo(n) == 0 <==> n <= 0
    ensures n >= 0 ==> TurnsTo(n) == n
  {}

  // ---------- What the searches count ----------

  /** The record is the one that the `i`-th search looks for: by index, or by low byte when the index is negative. */
  ghost predicate Matches(idx: int, i: nat, d: Datum) {
    if idx >= 0 then d.idx == idx else Value(d.data16) % 256 == i % 256
  }

  /** The `i`-th search finds a record. */
  ghost predicate Hit(m: map<ListData, Datum>, s0: Search, i: nat) {
    var s := Searched(m, i, s0);
    exists c <- s.cells :: c.info in m && Matches(s.idx, i, m[c.info])
  }

  /** The first record found by the `i`-th search is at place `t`. */
  ghost predicate HitAt(m: map<ListData, Datum>, s0: Search, i: nat, t: nat) {
    var s := Searched(m, i, s0);
    && Listed(m, s.cells) && t < |s.cells| && Matches(s.idx, i, m[s.cells[t].info])
    && forall u | 0 <= u < t :: !Matches(s.idx, i, m[s.cells[u].info])
  }

  /** The `i`-th search adds bit 9 of an odd word found, or on a miss bit 8 of the second word from the end. */
  ghost predicate BitSet(m: map<ListData, Datum>, s0: Search, i: nat) {
    var cells := Searched(m, i, s0).cells;
    if Hit(m, s0, i) then
      exists t: nat :: HitAt(m, s0, i, t) && Value(m[cells[t].info].data16) % 2 == 1 &&
        Value(m[cells[t].info].data16) / 512 % 2 == 1
    else
      Listed(m, cells) && |cells| >= 2 && Value(m[cells[|cells| - 2].info].data16) / 256 % 2 == 1
  }

  ghost function Upto(n: nat, p: nat -> bool): set<nat> {
    set i: nat | i < n && p(i)
  }

  lemma UptoMore(n: nat, p: nat -> bool)
    ensures |Upto(n + 1, p)| == |Upto(n, p)| + if p(n) then 1 else 0
  {
    assert Upto(n + 1, p) == Upto(n, p) + if p(n) then {n} else {};
  }

  /** The searches that find a record, those that do not, and those that add a bit. */
  ghost function Found(m: map<ListData, Datum>, s0: Search, n: nat): set<nat> {
    Upto(n, (i: nat) => Hit(m, s0, i))
  }

  ghost function Missed(m: map<ListData, Datum>, s0: Search, n: nat): set<nat> {
    Upto(n, (i: nat) => !Hit(m, s0, i))
  }

  ghost function Bits(m: map<ListData, Datum>, s0: Search, n: nat): set<nat> {
    Upto(n, (i: nat) => BitSet(m, s0, i))
  }

  /** The counters are the sizes of these sets, in 16 bits. */
  ghost predicate Counted(m: map<ListData, Datum>, s0: Search, n: nat, tally: Tally) {
    Sizes(|Found(m, s0, n)|, |Missed(m, s0, n)|, |Bits(m, s0, n)|, tally)
  }

  ghost predicate Sizes(found: nat, missed: nat, bits: nat, tally: Tally) {
    tally.found == found % 65536 && tally.missed == missed % 65536 && tally.retval == bits % 65536
  }

  lemma NoneCounted(m: map<ListData, Datum>, s0: Search)
    ensures Counted(m, s0, 0, Tally(0, 0, 0))
  {
    assert Found(m, s0, 0) == {} && Missed(m, s0, 0) == {} && Bits(m, s0, 0) == {};
  }

  lemma FoundMore(m: map<ListData, Datum>, s0: Search, n: nat)
    ensures |Found(m, s0, n + 1)| == |Found(m, s0, n)| + if Hit(m, s0, n) then 1 else 0
  {
    UptoMore(n, (i: nat) => Hit(m, s0, i));
  }

  lemma MissedMore(m: map<ListData, Datum>, s0: Search, n: nat)
    ensures |Missed(m, s0, n + 1)| == |Missed(m, s0, n)| + if Hit(m, s0, n) then 0 else 1
  {
    UptoMore(n, (i: nat) => !Hit(m, s0, i));
  }

  lemma BitsMore(m: map<ListData, Datum>, s0: Search, n: nat)
    ensures |Bits(m, s0, n + 1)| == |Bits(m, s0, n)| + if BitSet(m, s0, n) then 1 else 0
  {
    UptoMore(n, (i: nat) => BitSet(m, s0, i));
  }

  lemma WordBits(w: Half)
    ensures Value(w[..8]) == Value(w) % 256
    ensures w[0] <==> Value(w) % 2 == 1
    ensures w[8] <==> Value(w) / 256 % 2 == 1
    ensures w[9] <==> Value(w) / 512 % 2 == 1
  {
    assert Pow2(0) == 1 && Pow2(8) == 256 && Pow2(9) == 512;
    ValueParts(w, 8);
    ValueDigit(w, 0);
    ValueDigit(w, 8);
    ValueDigit(w, 9);
  }

  lemma WantedMatches(idx: int, i: nat, d: Datum)
    ensures Wanted(idx, i % 256, d) <==> Matches(idx, i, d)
  {
    WordBits(d.data16);
  }

  /** What the search in the code finds is what the `i`-th search finds. */
  lemma HitIs(m: map<ListData, Datum>, s0: Search, i: nat, t: nat)
    requires var s := Searched(m, i, s0);
      |s.cells| >= 2 && Listed(m, s.cells) && t == FirstWanted(DataOf(m, s.cells), s.idx, i % 256)
    ensures var cells := Searched(m, i, s0).cells;
      t <= |cells| && (Hit(m, s0, i) <==> t < |cells|) && (t < |cells| ==> HitAt(m, s0, i, t))
  {
    var s := Searched(m, i, s0);
    var data := DataOf(m, s.cells);
    FirstWantedAt(data, s.idx, i % 256);
    forall u | 0 <= u < |data| ensures Wanted(s.idx, i % 256, data[u]) <==> Matches(s.idx, i, m[s.cells[u].info]) {
      WantedMatches(s.idx, i, data[u]);
    }
  }

  lemma BitIs(m: map<ListData, Datum>, s0: Search, i: nat, t: nat)
    requires var s := Searched(m, i, s0);
      |s.cells| >= 2 && Listed(m, s.cells) && t == FirstWanted(DataOf(m, s.cells), s.idx, i % 256)
    ensures var w := Inspected(DataOf(m, Searched(m, i, s0).cells), t);
      BitSet(m, s0, i) <==> if Hit(m, s0, i) then w[0] && w[9] else w[8]
  {
    var cells := Searched(m, i, s0).cells;
    HitIs(m, s0, i, t);
    WordBits(Inspected(DataOf(m, cells), t));
    forall u | HitAt(m, s0, i, u) && t < |cells| ensures u == t {}
  }

  lemma SizesMore(found: nat, missed: nat, bits: nat, tally: Tally, hit: bool, bit: bool, w: Half, found': nat,
          missed': nat, bits': nat)
    requires Sizes(found, missed, bits, tally) && (bit <==> if hit then w[0] && w[9] else w[8])
    requires found' == (found + if hit then 1 else 0) && missed' == (missed + if hit then 0 else 1)
    requires bits' == bits + if bit then 1 else 0
    ensures Sizes(found', missed', bits', CountSearch(tally, hit, w))
  {
    OneMore(found, tally.found);
    OneMore(missed, tally.missed);
    OneMore(bits, tally.retval);
  }

  lemma OneMore(x: nat, c: nat)
    requires c == x % 65536
    ensures U16(c + 1) == (x + 1) % 65536
  {}

  /** One more search, counted. */
  lemma CountedMore(m: map<ListData, Datum>, s0: Search, i: nat, t: nat, tally: Tally)
    requires var s := Searched(m, i, s0);
      |s.cells| >= 2 && Listed(m, s.cells) && t == FirstWanted(DataOf(m, s.cells), s.idx, i % 256)
    requires Counted(m, s0, i, tally)
    ensures var cells := Searched(m, i, s0).cells;
      Counted(m, s0, i + 1, CountSearch(tally, t < |cells|, Inspected(DataOf(m, cells), t)))
  {
    HitIs(m, s0, i, t);
    BitIs(m, s0, i, t);
    FoundMore(m, s0, i);
    MissedMore(m, s0, i);
    BitsMore(m, s0, i);
    CountedBy(m, s0, i, tally, Hit(m, s0, i), BitSet(m, s0, i), Inspected(DataOf(m, Searched(m, i, s0).cells), t));
  }

  lemma CountedBy(m: map<ListData, Datum>, s0: Search, i: nat, tally: Tally, hit: bool, bit: bool, w: Half)
    requires Counted(m, s0, i, tally) && (bit <==> if hit then w[0] && w[9] else w[8])
    requires |Found(m, s0, i + 1)| == |Found(m, s0, i)| + if hit then 1 else 0
    requires |Missed(m, s0, i + 1)| == |Missed(m, s0, i)| + if hit then 0 else 1
    requires |Bits(m, s0, i + 1)| == |Bits(m, s0, i)| + if bit then 1 else 0
    ensures Counted(m, s0, i + 1, CountSearch(tally, hit, w))
  {
    SizesMore(|Found(m, s0, i)|, |Missed(m, s0, i)|, |Bits(m, s0, i)|, tally, hit, bit, w, |Found(m, s0, i + 1)|,
      |Missed(m, s0, i + 1)|, |Bits(m, s0, i + 1)|);
  }

  /** What the searches contribute: four for each one found, less one for each one missed, and the bits. */
  ghost predicate Contributes(m: map<ListData, Datum>, s0: Search, n: nat, retval: nat) {
    AddsUp(|Found(m, s0, n)|, |Missed(m, s0, n)|, |Bits(m, s0, n)|, retval)
  }

  ghost predicate AddsUp(found: nat, missed: nat, bits: nat, retval: nat) {
    retval < 65536 && (retval + missed - 4 * found - bits) % 65536 == 0
  }

  ghost function Contribution(m: map<ListData, Datum>, s0: Search, n: nat): nat {
    Total(|Found(m, s0, n)|, |Missed(m, s0, n)|, |Bits(m, s0, n)|)
  }

  ghost function Total(found: nat, missed: nat, bits: nat): nat {
    U16(bits + 4 * found - missed)
  }

  lemma Contributed(m: map<ListData, Datum>, s0: Search, n: nat, tally: Tally, retval: nat)
    requires Counted(m, s0, n, tally) && retval == U16(tally.retval + tally.found * 4 - tally.missed)
    ensures Contributes(m, s0, n, retval) && retval == Contribution(m, s0, n)
  {
    Combined(|Found(m, s0, n)|, |Missed(m, s0, n)|, |Bits(m, s0, n)|, tally, retval);
  }

  /** Sums of remainders. */
  lemma Combined(found: nat, missed: nat, bits: nat, tally: Tally, retval: nat)
    requires Sizes(found, missed, bits, tally) && retval == U16(tally.retval + tally.found * 4 - tally.missed)
    ensures AddsUp(found, missed, bits, retval) && retval == Total(found, missed, bits)
  {
    var x := bits + 4 * found - missed;
    ShiftedBy(tally.retval + tally.found * 4 - tally.missed, bits / 65536 + 4 * (found / 65536) - missed / 65536);
    ShiftedBy(0, -(x / 65536));
  }

  lemma ShiftedBy(x: int, q: int)
    ensures (x + 65536 * q) % 65536 == x % 65536
  {}

  /** The key by index counts up and turns negative at the end of 16 bits; the one by low byte is the last number. */
  ghost predicate KeysAfter(idx0: int, low0: nat, n: nat, idx: int, low: nat) {
    && (idx0 <= 32767 ==>
          idx == if idx0 < 0 || n == 0 then idx0 else if idx0 + n <= 32767 then idx0 + n else -32768)
    && low == if n == 0 then low0 else (n - 1) % 256
  }

  lemma {:induction false} KeysAfterSearches(m: map<ListData, Datum>, s0: Search, n: nat)
    ensures KeysAfter(s0.idx, s0.low, n, Searched(m, n, s0).idx, Searched(m, n, s0).low)
  {
    if n > 0 {
      KeysAfterSearches(m, s0, n - 1);
    }
  }

  /** A list of `n` cells while the searches go on. */
  ghost predicate Searching(m: map<ListData, Datum>, all: set<Cell>, list: ListHead, n: nat, s: Search)
    reads NodeSeq(s.cells)`next, Nodes(all)`info, Datas(all)`data16, Datas(all)`idx
  {
    ListIn(list, s.cells, all) && |s.cells| == n >= 2 && Shows(m, all)
  }

  /**
   The searches of the benchmark: order and search key are those of the searches one
   after the other; each one found counts four, each one missed takes one away, and
   each bit adds one.
   */
  method FindPhase(ghost m: map<ListData, Datum>, ghost cells0: seq<Cell>, ghost all: set<Cell>, list0: ListHead,
          findNum: int, finderIdx: int, low0: nat)
    returns (list: ListHead, idx: int, low: nat, retval: nat, ghost s: Search)
    requires ListIn(list0, cells0, all) && |cells0| >= 2 && Shows(m, all)
    modifies Nodes(all)`next
    ensures ListIn(list, s.cells, all) && |s.cells| == |cells0| && Shows(m, all)
    ensures s == Searched(m, TurnsTo(findNum), Search(cells0, finderIdx, low0)) && idx == s.idx && low == s.low
    ensures var s0, n := Search(cells0, finderIdx, low0), TurnsTo(findNum);
      Contributes(m, s0, n, retval) && retval == Contribution(m, s0, n)
  {
    var tally;
    ghost var s0 := Search(cells0, finderIdx, low0);
    SearchedStart(m, s0);
    list, idx, low, tally, s := SearchLoop(m, all, s0, list0, findNum, finderIdx, low0);
    retval := U16(tally.retval + tally.found * 4 - tally.missed);
    Contributed(m, s0, TurnsTo(findNum), tally, retval);
  }

  /** The loop of searches after `n` turns. */
  ghost predicate Underway(m: map<ListData, Datum>, all: set<Cell>, list: ListHead, s0: Search, n: nat, s: Search,
          idx: int, low: nat, tally: Tally)
    reads NodeSeq(s.cells)`next, Nodes(all)`info, Datas(all)`data16, Datas(all)`idx
  {
    Searching(m, all, list, |s0.cells|, s) && SearchedTo(m, s0, n, s, idx, low, tally)
  }

  /** The loop of searches. */
  method SearchLoop(ghost m: map<ListData, Datum>, ghost all: set<Cell>, ghost s0: Search, list0: ListHead,
          findNum: int, finderIdx: int, low0: nat)
    returns (list: ListHead, idx: int, low: nat, tally: Tally, ghost s: Search)
    requires Underway(m, all, list0, s0, 0, s0, finderIdx, low0, Tally(0, 0, 0))
    modifies Nodes(all)`next
    ensures Underway(m, all, list, s0, TurnsTo(findNum), s, idx, low, tally)
  {
    list, idx, low, tally, s := list0, finderIdx, low0, Tally(0, 0, 0), s0;
    for i: nat := 0 to TurnsTo(findNum)
      invariant Underway(m, all, list, s0, i, s, idx, low, tally)
    {
      list, idx, low, tally, s := SearchTurn(m, all, list, i, idx, low, tally, s0, s);
    }
  }

  lemma SearchedStart(m: map<ListData, Datum>, s0: Search)
    ensures SearchedTo(m, s0, 0, s0, s0.idx, s0.low, Tally(0, 0, 0))
  {
    NoneCounted(m, s0);
  }

  /** Where the loop of searches stands after `n` turns. */
  ghost predicate SearchedTo(m: map<ListData, Datum>, s0: Search, n: nat, s: Search, idx: int, low: nat, tally: Tally) {
    s == Searched(m, n, s0) && s.idx == idx && s.low == low && Counted(m, s0, n, tally)
  }

  lemma SearchedMore(m: map<ListData, Datum>, start: Search, i: nat, s: Search, idx: int, low: nat, tally: Tally,
          t: nat)
    requires SearchedTo(m, start, i, s, idx, low, tally)
    requires |s.cells| >= 2 && Listed(m, s.cells) && t == FirstWanted(DataOf(m, s.cells), idx, i % 256)
    ensures SearchStep(m, i, s).cells == AfterSearch(s.cells, t)
    ensures SearchedTo(m, start, i + 1, SearchStep(m, i, s), if idx >= 0 then NextIdx(idx) else idx, i % 256,
      CountSearch(tally, t < |s.cells|, Inspected(DataOf(m, s.cells), t)))
  {
    CountedMore(m, start, i, t, tally);
  }

  /** One turn of the loop of searches. */
  method SearchTurn(ghost m: map<ListData, Datum>, ghost all: set<Cell>, list0: ListHead, i: nat, idx0: int,
          ghost low0: nat, tally0: Tally, ghost start: Search, ghost s0: Search)
    returns (list: ListHead, idx: int, low: nat, tally: Tally, ghost s: Search)
    requires Underway(m, all, list0, start, i, s0, idx0, low0, tally0)
    modifies Nodes(all)`next
    ensures Underway(m, all, list, start, i + 1, s, idx, low, tally)
  {
    ShownData(m, s0.cells, all);
    low, idx := i % 256, idx0;
    ghost var t;
    list, tally, t := SearchList(DataOf(m, s0.cells), s0.cells, all, list0, idx, low, tally0);
    SearchedMore(m, start, i, s0, idx0, low0, tally0, t);
    if idx >= 0 {
      idx := NextIdx(idx);
    }
    s := SearchStep(m, i, s0);
  }

  // ---------- The CRC with one node removed ----------

  function Repeat(w: Half, k: nat): seq<Half> {
    if k == 0 then [] else Repeat(w, k - 1) + [w]
  }

  /** Fold the head's data word once for each node from `finder` on. */
  method CrcFrom(ghost nodes: seq<ListHead>, finder0: ListHead?, ghost t0: nat, list: ListHead, retval0: Half)
    returns (retval: Half)
    requires Chained(nodes) && t0 <= |nodes| && finder0 == if t0 < |nodes| then nodes[t0] else null
    ensures retval == CrcFold(Repeat(list.info.data16, |nodes| - t0), retval0)
  {
    var finder := finder0;
    retval := retval0;
    ghost var t := t0;
    while finder != null
      invariant t0 <= t <= |nodes| && finder == if t < |nodes| then nodes[t] else null
      invariant retval == CrcFold(Repeat(list.info.data16, t - t0), retval0)
      decreases |nodes| - t
    {
      FoldAppend(Repeat(list.info.data16, t - t0), [list.info.data16], retval0);
      retval := Crcu16(list.info.data16, retval);
      finder := finder.next;
      t := t + 1;
    }
  }

  function WithoutSecond(data: seq<Datum>): seq<Datum>
    requires |data| >= 2
  {
    data[..1] + data[2..]
  }

  /** How many words are folded while the second record is removed: from the one found on, or all but the head's. */
  function FoldCount(data: seq<Datum>, idx: int, low: nat): nat
    requires |data| >= 2
  {
    var t := FirstWanted(WithoutSecond(data), idx, low);
    if t < |data| - 1 then |data| - 1 - t else |data| - 2
  }

  /** The fold runs from the first record found on, the removed second one left out of search and count. */
  lemma FoldCountFound(data: seq<Datum>, idx: int, low: nat, t: nat)
    requires |data| >= 2 && t < |data| && t != 1 && Wanted(idx, low, data[t])
    requires forall u | 0 <= u < t && u != 1 :: !Wanted(idx, low, data[u])
    ensures FoldCount(data, idx, low) == if t == 0 then |data| - 1 else |data| - t
  {
    var rest := WithoutSecond(data);
    var place := if t == 0 then 0 else t - 1;
    forall u | 0 <= u < place ensures !Wanted(idx, low, rest[u]) {
      assert rest[u] == data[if u == 0 then 0 else u + 1];
    }
    FirstWantedIs(rest, idx, low, place);
  }

  /** When none is found it runs over all that is left but the head. */
  lemma FoldCountMissed(data: seq<Datum>, idx: int, low: nat)
    requires |data| >= 2 && forall u | 0 <= u < |data| && u != 1 :: !Wanted(idx, low, data[u])
    ensures FoldCount(data, idx, low) == |data| - 2
  {
    var rest := WithoutSecond(data);
    forall u | 0 <= u < |rest| ensures !Wanted(idx, low, rest[u]) {
      assert rest[u] == data[if u == 0 then 0 else u + 1];
    }
    FirstWantedIs(rest, idx, low, |rest|);
  }

  /** Remove the node behind the head, fold `k` data words, and undo the removal: links and records are as before. */
  method RemovePhase(ghost nodes: seq<ListHead>, ghost data: seq<Datum>, list: ListHead, idx: int, low: nat,
          retval0: Half)
    returns (retval: Half, ghost k: nat)
    requires Distinct(nodes) && Chained(nodes) && |nodes| >= 3 && list == nodes[0]
    requires |data| == |nodes| && forall i | 0 <= i < |nodes| ::
      data[i] == Datum(nodes[i].info.data16, nodes[i].info.idx)
    modifies nodes
    ensures forall n <- nodes :: n.next == old(n.next) && n.info == old(n.info)
    ensures k == FoldCount(data, idx, low) && retval == CrcFold(Repeat(data[0].data16, k), retval0)
  {
    assert list.next == nodes[1] && nodes[1].next == nodes[2] && nodes[2].next == NextIn(nodes, 2);
    var remover := Remove(list.next);
    retval, k := FoldShorter([nodes[0], nodes[1]] + nodes[3..], WithoutSecond(data), list, idx, low, retval0);
    var _ := UndoRemove(remover, list.next);
  }

  /** The fold over the list without the removed node. */
  method FoldShorter(ghost nodes: seq<ListHead>, ghost data: seq<Datum>, list: ListHead, idx: int, low: nat,
          retval0: Half)
    returns (retval: Half, ghost k: nat)
    requires Chained(nodes) && |nodes| >= 2 && list == nodes[0]
    requires |data| == |nodes| && forall i | 0 <= i < |nodes| ::
      data[i] == Datum(nodes[i].info.data16, nodes[i].info.idx)
    ensures var t := FirstWanted(data, idx, low);
      k == if t < |data| then |data| - t else |data| - 1
    ensures retval == CrcFold(Repeat(data[0].data16, k), retval0)
  {
    var finder;
    ghost var t;
    finder, t := Find(nodes, data, list, idx, low);
    assert nodes[0].next == NextIn(nodes, 0);
    if finder == null {
      finder := list.next;
      t := 1;
    }
    k := |nodes| - t;
    retval := CrcFrom(nodes, finder, t, list, retval0);
  }

  /** The same on a list of cells. */
  method RemoveFromList(ghost cells: seq<Cell>, ghost all: set<Cell>, list: ListHead, idx: int, low: nat, retval0: Half)
    returns (retval: Half, ghost k: nat)
    requires ListIn(list, cells, all) && |cells| >= 3
    modifies Nodes(all)
    ensures ListIn(list, cells, all) && Listed(old(Records(Datas(all))), cells)
    ensures k == FoldCount(DataOf(old(Records(Datas(all))), cells), idx, low)
    ensures retval == CrcFold(Repeat(cells[0].info.data16, k), retval0)
  {
    NodeFrame(cells, all);
    CellsApart(cells, all);
    NodesShow(cells, all);
    ShownData(Records(Datas(all)), cells, all);
    retval, k := RemovePhase(NodeSeq(cells), Data(InfoSeq(cells)), list, idx, low, retval0);
  }

  /** The closing loop: the head's data word once for each node behind the head. */
  method ClosingCrc(ghost m: map<ListData, Datum>, ghost cells: seq<Cell>, ghost all: set<Cell>, list: ListHead,
          retval0: Half)
    returns (retval: Half)
    requires ListIn(list, cells, all) && Records(Datas(all)) == m
    ensures ListIn(cells[0].node, cells, all) && Records(Datas(all)) == m && Listed(m, cells)
    ensures retval == CrcFold(Repeat(m[cells[0].info].data16, |cells| - 1), retval0)
  {
    CellMembers(cells, all);
    assert NodeSeq(cells)[0].next == NextIn(NodeSeq(cells), 0);
    retval := CrcFrom(NodeSeq(cells), list.next, 1, list, retval0);
  }
}
