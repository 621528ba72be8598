/**
 The list benchmark: searches, reversals, two sorts and a remove with its undo,
 after which the records and the order by index are as they were.
 */
module CoreListBench {
  import opened Common
  import opened Words
  import opened CoreCrc
  import opened CoreSort
  import opened CoreList
  import opened CoreListOps

  // ---------- Orders ----------

  /** The first place of an element, or the length. */
  ghost function PlaceIn<T>(s: seq<T>, x: T): (p: nat)
    ensures p <= |s| && (p < |s| ==> s[p] == x) && (x in s ==> p < |s|)
    ensures forall i | 0 <= i < p :: s[i] != x
  {
    if s == [] || s[0] == x then 0 else 1 + PlaceIn(s[1..], x)
  }

  lemma {:induction false} IncreasingPlaces(s: seq<nat>)
    requires (forall i, j | 0 <= i < j < |s| :: s[i] < s[j]) && forall i | 0 <= i < |s| :: s[i] < |s|
    ensures forall i | 0 <= i < |s| :: s[i] == i
  {
    if |s| > 1 {
      var n := |s| - 1;
      assert forall i | 0 <= i < n :: s[i] < s[n];
      IncreasingPlaces(s[..n]);
      assert s[..n][n - 1] == n - 1;
    }
  }

  /** Sequences of the same elements, of which no two stand in different orders, are the same. */
  lemma OneOrder<T>(a: seq<T>, b: seq<T>)
    requires |a| == |b| && Elems(a) == Elems(b)
    requires forall i, j | 0 <= i < j < |a| :: PlaceIn(b, a[i]) < PlaceIn(b, a[j])
    ensures a == b
  {
    forall i | 0 <= i < |a| ensures PlaceIn(b, a[i]) < |b| {
      assert a[i] in Elems(a);
    }
    IncreasingPlaces(seq(|a|, i requires 0 <= i < |a| => PlaceIn(b, a[i])));
    forall i | 0 <= i < |a| ensures a[i] == b[i] {
      assert PlaceIn(b, a[i]) == seq(|a|, i requires 0 <= i < |a| => PlaceIn(b, a[i]))[i];
    }
  }

  ghost function Indices(m: map<ListData, Datum>, cells: seq<Cell>): (s: seq<int>)
    requires Listed(m, cells)
    ensures |s| == |cells|
  {
    seq(|cells|, i requires 0 <= i < |cells| => m[cells[i].info].idx)
  }

  ghost predicate Nondecreasing(s: seq<int>) {
    forall i, j | 0 <= i < j < |s| :: s[i] <= s[j]
  }

  /** No index occurs twice. */
  ghost predicate IndicesDiffer(m: map<ListData, Datum>, cells: seq<Cell>)
    requires Listed(m, cells)
  {
    forall i, j | 0 <= i < j < |cells| :: Indices(m, cells)[i] != Indices(m, cells)[j]
  }

  /** Cells with the same index stand in `cells` in the order in which they stood in `cells0`. */
  ghost predicate TiesKept(m: map<ListData, Datum>, cells0: seq<Cell>, cells: seq<Cell>)
    requires Listed(m, cells0)
  {
    forall i, j | 0 <= i < j < |cells0| && Indices(m, cells0)[i] == Indices(m, cells0)[j] ::
      PlaceIn(cells, cells0[i]) < PlaceIn(cells, cells0[j])
  }

  ghost predicate Regenerated(m: map<ListData, Datum>) {
    forall d <- m.Keys :: m[d].data16 == Regenerate(m[d].data16)
  }

  lemma LowerIsInFront(s: seq<int>, l: nat, i: nat)
    requires Nondecreasing(s) && l < |s| && i < |s| && s[l] < s[i]
    ensures l < i
  {}

  /** Of two orders by index of the same cells, the first has no lower index anywhere. */
  lemma NoLowerIndex(m: map<ListData, Datum>, a: seq<Cell>, b: seq<Cell>, i: nat)
    requires Listed(m, a) && Listed(m, b) && Nondecreasing(Indices(m, a)) && Nondecreasing(Indices(m, b))
    requires |a| == |b| && Elems(a) == Elems(b) && Distinct(a) && Distinct(b) && i < |a|
    ensures Indices(m, a)[i] >= Indices(m, b)[i]
  {
    if Indices(m, a)[i] < Indices(m, b)[i] {
      forall x <- Elems(a[..i + 1]) ensures x in Elems(b[..i]) {
        var k :| 0 <= k <= i && a[k] == x;
        assert a[k] in Elems(b);
        var l :| 0 <= l < |b| && b[l] == x;
        assert Indices(m, b)[l] == Indices(m, a)[k] <= Indices(m, a)[i];
        LowerIsInFront(Indices(m, b), l, i);
        assert b[..i][l] == x;
      }
      DistinctSize(a[..i + 1]);
      DistinctSize(b[..i]);
      SubsetSize(Elems(a[..i + 1]), Elems(b[..i]));
      assert false;
    }
  }

  /** Orders by index of the same cells have the same sequence of indices. */
  lemma OneIndexOrder(m: map<ListData, Datum>, a: seq<Cell>, b: seq<Cell>)
    requires Listed(m, a) && Listed(m, b) && Nondecreasing(Indices(m, a)) && Nondecreasing(Indices(m, b))
    requires Elems(a) == Elems(b) && Distinct(a) && Distinct(b)
    ensures Indices(m, a) == Indices(m, b)
  {
    DistinctSize(a);
    DistinctSize(b);
    forall i | 0 <= i < |a| ensures Indices(m, a)[i] == Indices(m, b)[i] {
      NoLowerIndex(m, a, b, i);
      NoLowerIndex(m, b, a, i);
    }
  }

  /** Settled by the index comparator means regenerated from the high byte. */
  lemma SettledIsRegenerated(m: map<ListData, Datum>, cells: seq<Cell>, items: seq<Item>)
    requires Hold(m, cells, items) && AllSettled(CmpIdx(true), items) && m.Keys == Datas(Elems(cells))
    ensures Regenerated(m)
  {
    forall d <- m.Keys ensures m[d].data16 == Regenerate(m[d].data16) {
      var i :| 0 <= i < |cells| && cells[i].info == d;
      assert Settled(CmpIdx(true), items[i]);
    }
  }

  lemma AtDistinct<T>(s: seq<T>, items: seq<Item>)
    requires Distinct(s) && DistinctPositions(items) && forall i | 0 <= i < |items| :: items[i].pos < |s|
    ensures Distinct(At(s, items))
  {
    forall i, j | 0 <= i < j < |items| ensures At(s, items)[i] != At(s, items)[j] {
      assert items[i].pos != items[j].pos;
    }
  }

  /** The outcome of a sort by index. */
  ghost predicate SortedByIndex(cells: seq<Cell>, items: seq<Item>, m: map<ListData, Datum>, m': map<ListData, Datum>) {
    SortedInto(CmpIdx(true), cells, items, m, m') && |cells| >= 2 && Distinct(cells) && m'.Keys == Datas(Elems(cells))
  }

  lemma ByIndex(cells: seq<Cell>, items: seq<Item>, m: map<ListData, Datum>, m': map<ListData, Datum>)
    requires SortedByIndex(cells, items, m, m')
    ensures var sorted := At(cells, items);
      && Elems(sorted) == Elems(cells) && Distinct(sorted)
      && Listed(m', sorted) && Nondecreasing(Indices(m', sorted)) && Regenerated(m')
  {
    var sorted := At(cells, items);
    AtReordered(cells, items);
    AtDistinct(cells, items);
    SettledIsRegenerated(m', sorted, items);
    forall i, j | 0 <= i < j < |sorted| ensures Indices(m', sorted)[i] <= Indices(m', sorted)[j] {
      assert Before(CmpIdx(true), items[i], items[j]);
    }
  }

  /** A sort by index leaves ties as they were. */
  lemma TiesAreKept(cells: seq<Cell>, items: seq<Item>, m: map<ListData, Datum>, m': map<ListData, Datum>)
    requires SortedByIndex(cells, items, m, m') && Listed(m', At(cells, items))
    ensures TiesKept(m', At(cells, items), cells)
  {
    var sorted := At(cells, items);
    forall i, j | 0 <= i < j < |sorted| && Indices(m', sorted)[i] == Indices(m', sorted)[j]
      ensures PlaceIn(cells, sorted[i]) < PlaceIn(cells, sorted[j])
    {
      assert Before(CmpIdx(true), items[i], items[j]);
      assert PlaceIn(cells, sorted[i]) == items[i].pos && PlaceIn(cells, sorted[j]) == items[j].pos;
    }
  }

  /** Two sorted items, of cells in index order with ties as in the list that was sorted, stand in that order. */
  lemma InOrder(cells: seq<Cell>, items: seq<Item>, c: Cell, d: Cell, p: nat, q: nat)
    requires |items| == |cells| && (forall i | 0 <= i < |items| :: items[i].pos < |cells|)
    requires Distinct(cells) && Ordered(CmpIdx(true), items) && p < |items| && q < |items| && c != d
    requires At(cells, items)[p] == c && At(cells, items)[q] == d && items[p].idx <= items[q].idx
    requires items[p].idx == items[q].idx ==> PlaceIn(cells, c) < PlaceIn(cells, d)
    ensures p < q
  {
    assert PlaceIn(cells, c) == items[p].pos && PlaceIn(cells, d) == items[q].pos;
    assert q < p ==> Before(CmpIdx(true), items[q], items[p]);
  }

  /** An order by index of the cells, with ties in the order of the cells, is what the sort by index makes of them. */
  lemma KeptTiesRestore(cells0: seq<Cell>, cells: seq<Cell>, items: seq<Item>, m: map<ListData, Datum>,
          m': map<ListData, Datum>)
    requires SortedByIndex(cells, items, m, m') && |cells0| == |cells| && Elems(cells0) == Elems(cells)
    requires Distinct(cells0)
    requires Listed(m', cells0) && Nondecreasing(Indices(m', cells0)) && TiesKept(m', cells0, cells)
    ensures cells0 == At(cells, items)
  {
    var sorted := At(cells, items);
    ByIndex(cells, items, m, m');
    forall i, j | 0 <= i < j < |cells0| ensures PlaceIn(sorted, cells0[i]) < PlaceIn(sorted, cells0[j]) {
      assert cells0[i] in Elems(sorted) && cells0[j] in Elems(sorted);
      var p, q := PlaceIn(sorted, cells0[i]), PlaceIn(sorted, cells0[j]);
      assert Indices(m', cells0)[i] == items[p].idx && Indices(m', cells0)[j] == items[q].idx;
      InOrder(cells, items, cells0[i], cells0[j], p, q);
    }
    OneOrder(cells0, sorted);
  }

  /**
   Cells that stood in index order before they were rearranged: the sort by index
   restores the sequence of indices, and the cells themselves if and only if cells of
   the same index had not changed order.
   */
  lemma RestoredExactly(cells0: seq<Cell>, cells: seq<Cell>, items: seq<Item>, m: map<ListData, Datum>,
          m': map<ListData, Datum>)
    requires SortedByIndex(cells, items, m, m') && |cells0| == |cells| && Elems(cells0) == Elems(cells)
    requires Distinct(cells0) && Listed(m', cells0) && Nondecreasing(Indices(m', cells0))
    ensures Listed(m', At(cells, items)) && Indices(m', At(cells, items)) == Indices(m', cells0)
    ensures At(cells, items) == cells0 <==> TiesKept(m', cells0, cells)
  {
    ByIndex(cells, items, m, m');
    OneIndexOrder(m', At(cells, items), cells0);
    TiesAreKept(cells, items, m, m');
    if TiesKept(m', cells0, cells) {
      KeptTiesRestore(cells0, cells, items, m, m');
    }
  }

  // ---------- The benchmark ----------

  /** The data words in list order: cached, and their low seven bits nondecreasing. */
  ghost predicate DataOrder(items: seq<Item>) {
    && (forall i | 0 <= i < |items| :: Cached(items[i].data16))
    && forall i, j | 0 <= i < j < |items| :: LowSeven(items[i].data16) <= LowSeven(items[j].data16)
  }

  lemma OrderedData(items: seq<Item>)
    requires AllSettled(CmpComplex, items) && Ordered(CmpComplex, items)
    ensures DataOrder(items)
  {
    forall i | 0 <= i < |items| ensures Cached(items[i].data16) {
      assert Settled(CmpComplex, items[i]);
    }
    forall i, j | 0 <= i < j < |items| ensures LowSeven(items[i].data16) <= LowSeven(items[j].data16) {
      assert Before(CmpComplex, items[i], items[j]);
    }
  }

  /** The items are an arrangement of the cells, whose records hold their data now. */
  ghost predicate Arranged(cells: seq<Cell>, items: seq<Item>, m: map<ListData, Datum>, m': map<ListData, Datum>) {
    && |items| == |cells| && (forall i | 0 <= i < |items| :: items[i].pos < |cells|)
    && Hold(m', At(cells, items), items) && Kept(m, m')
  }

  /** The sort by data content: every item cached, low seven bits nondecreasing, high bytes kept. */
  method SortByData(ghost cells: seq<Cell>, ghost all: set<Cell>, list0: ListHead, res: CoreResults)
    returns (list: ListHead, ghost items: seq<Item>)
    requires ListIn(list0, cells, all) && |cells| >= 2
    modifies Nodes(all)`next, Datas(all)`data16, res`crc, res`crcstate, res`crcmatrix, res`calls
    ensures Arranged(cells, items, old(Records(Datas(all))), Records(Datas(all))) && DataOrder(items)
    ensures ListIn(list, At(cells, items), all)
    ensures SortOf(CmpComplex, res.kernels, old(Records(Datas(all))), cells, old(res.Snapshot()), items, res.Snapshot())
  {
    list, items := MergeSort(cells, all, list0, CmpComplex, res);
    OrderedData(items);
  }

  /** The items of the list before a node is removed: after the sort by data, if the search key asks for it. */
  ghost function PreparedItems(m: map<ListData, Datum>, cells: seq<Cell>, finderIdx: int, kernels: Kernels, r0: Results)
    : Merged
    requires Listed(m, cells)
  {
    if finderIdx > 0 then Sort(CmpComplex, kernels, 1, ItemsOf(m, cells), r0) else Merged(ItemsOf(m, cells), r0)
  }

  ghost predicate PreparedOf(m: map<ListData, Datum>, cells: seq<Cell>, finderIdx: int, kernels: Kernels, r0: Results,
          items: seq<Item>, r: Results)
  {
    Listed(m, cells) && Merged(items, r) == PreparedItems(m, cells, finderIdx, kernels, r0)
  }

  lemma UnsortedArranged(cells: seq<Cell>, all: set<Cell>)
    requires Elems(cells) == all
    ensures Listed(Records(Datas(all)), cells)
    ensures var m := Records(Datas(all));
      Arranged(cells, ItemsOf(m, cells), m, m) && At(cells, ItemsOf(m, cells)) == cells
  {
    CellMembers(cells, all);
  }

  /** `if (finder_idx>0)` sort by data. */
  method SortIfAsked(ghost cells: seq<Cell>, ghost all: set<Cell>, list0: ListHead, res: CoreResults, finderIdx: int)
    returns (list: ListHead, ghost items: seq<Item>)
    requires ListIn(list0, cells, all) && |cells| >= 2
    modifies Nodes(all)`next, Datas(all)`data16, res`crc, res`crcstate, res`crcmatrix, res`calls
    ensures Arranged(cells, items, old(Records(Datas(all))), Records(Datas(all)))
    ensures ListIn(list, At(cells, items), all)
    ensures PreparedOf(old(Records(Datas(all))), cells, finderIdx, res.kernels, old(res.Snapshot()), items,
      res.Snapshot())
  {
    list := list0;
    UnsortedArranged(cells, all);
    items := ItemsOf(Records(Datas(all)), cells);
    if finderIdx > 0 {
      list, items := SortByData(cells, all, list, res);
    }
  }

  /** What `core_list_init` establishes by its sort by index. */
  ghost predicate Prepared(m: map<ListData, Datum>, cells: seq<Cell>) {
    Listed(m, cells) && Nondecreasing(Indices(m, cells)) && Regenerated(m)
  }

  /** The sort by index: records regenerated, and in index order. */
  method SortByIndex(ghost cells: seq<Cell>, ghost all: set<Cell>, list0: ListHead)
    returns (list: ListHead, ghost items: seq<Item>)
    requires ListIn(list0, cells, all) && |cells| >= 2
    modifies Nodes(all)`next, Datas(all)`data16
    ensures SortedByIndex(cells, items, old(Records(Datas(all))), Records(Datas(all)))
    ensures Kept(old(Records(Datas(all))), Records(Datas(all))) && ListIn(list, At(cells, items), all)
    ensures Prepared(Records(Datas(all)), At(cells, items))
  {
    ghost var m := Records(Datas(all));
    list, items := MergeSort(cells, all, list0, CmpIdx(true), null);
    ByIndex(cells, items, m, Records(Datas(all)));
  }

  /** Regenerated data words with the same high bytes are the same. */
  lemma RegeneratedSame(m: map<ListData, Datum>, m': map<ListData, Datum>)
    requires Kept(m, m') && Regenerated(m) && Regenerated(m')
    ensures m == m'
  {
    forall d <- m.Keys ensures m[d] == m'[d] {
      assert m[d].data16 == Regenerate(m[d].data16) && m'[d].data16 == Regenerate(m'[d].data16);
    }
  }

  /** What all the searches of a run contribute. */
  ghost function CountOf(m: map<ListData, Datum>, cells0: seq<Cell>, findNum: int, finderIdx: int, low0: nat): nat {
    Contribution(m, Search(cells0, finderIdx, low0), TurnsTo(findNum))
  }

  /** The checksum up to the last sort, from the searches' contribution, their last key and the items then listed. */
  ghost function Midway(count: nat, s: Search, items: seq<Item>): Half
    requires |items| >= 2
  {
    var data := Datums(items);
    CrcFold(Repeat(data[0].data16, FoldCount(data, s.idx, s.low)), HalfOf(count))
  }

  ghost function Datums(items: seq<Item>): (data: seq<Datum>)
    ensures |data| == |items|
  {
    seq(|items|, i requires 0 <= i < |items| => DatumOf(items[i]))
  }

  lemma HeldData(m: map<ListData, Datum>, cells: seq<Cell>, items: seq<Item>)
    requires Hold(m, cells, items)
    ensures Listed(m, cells) && DataOf(m, cells) == Datums(items)
  {}

  /**
   What the benchmark has done before its last sort: the searches one after the other,
   and the sort by data if it is asked for.
   */
  ghost predicate Disturbed(m: map<ListData, Datum>, cells0: seq<Cell>, findNum: int, finderIdx: int, low0: nat,
          kernels: Kernels, r0: Results, s: Search, items: seq<Item>, r: Results)
  {
    && s == Searched(m, TurnsTo(findNum), Search(cells0, finderIdx, low0))
    && PreparedOf(m, s.cells, finderIdx, kernels, r0, items, r)
    && |items| == |s.cells| == |cells0| && forall i | 0 <= i < |items| :: items[i].pos < |s.cells|
  }

  /** The benchmark up to its last sort. */
  method Disturb(ghost m: map<ListData, Datum>, ghost cells0: seq<Cell>, ghost all: set<Cell>, res: CoreResults,
          finderIdx: int, low0: nat)
    returns (list: ListHead, retval: Half, ghost s: Search, ghost items: seq<Item>, ghost m1: map<ListData, Datum>)
    requires ListIn(res.list, cells0, all) && |cells0| >= 3 && m == Records(Datas(all))
    modifies Nodes(all), Datas(all)`data16, res`crc, res`crcstate, res`crcmatrix, res`calls
    ensures Disturbed(m, cells0, res.seed3, finderIdx, low0, res.kernels, old(res.Snapshot()), s, items, res.Snapshot())
    ensures Arranged(s.cells, items, m, m1) && Records(Datas(all)) == m1
    ensures ListIn(list, At(s.cells, items), all)
    ensures retval == Midway(CountOf(m, cells0, res.seed3, finderIdx, low0), s, items)
  {
    var idx, low, tally;
    list, idx, low, tally, s, items := SearchAndSort(m, cells0, all, res, finderIdx, low0);
    m1 := Records(Datas(all));
    ghost var count := CountOf(m, cells0, res.seed3, finderIdx, low0);
    retval := RemoveOne(m1, count, s, items, all, list, idx, low, HalfOf(tally));
  }

  /** Searches and the sort by data. */
  method SearchAndSort(ghost m: map<ListData, Datum>, ghost cells0: seq<Cell>, ghost all: set<Cell>, res: CoreResults,
          finderIdx: int, low0: nat)
    returns (list: ListHead, idx: int, low: nat, retval: nat, ghost s: Search, ghost items: seq<Item>)
    requires ListIn(res.list, cells0, all) && |cells0| >= 3 && m == Records(Datas(all))
    modifies Nodes(all)`next, Datas(all)`data16, res`crc, res`crcstate, res`crcmatrix, res`calls
    ensures Disturbed(m, cells0, res.seed3, finderIdx, low0, res.kernels, old(res.Snapshot()), s, items, res.Snapshot())
    ensures Arranged(s.cells, items, m, Records(Datas(all))) && ListIn(list, At(s.cells, items), all)
    ensures idx == s.idx && low == s.low && retval == CountOf(m, cells0, res.seed3, finderIdx, low0)
  {
    RecordsShown(all);
    list, idx, low, retval, s := FindPhase(m, cells0, all, res.list, res.seed3, finderIdx, low0);
    ShownRecords(m, all);
    list, items := SortIfAsked(s.cells, all, list, res, finderIdx);
  }

  lemma ShownRecords(m: map<ListData, Datum>, all: set<Cell>)
    requires Shows(m, all) && m.Keys == Datas(all)
    ensures Records(Datas(all)) == m
  {
    forall d <- Datas(all) ensures Records(Datas(all))[d] == m[d] {
      var c :| c in all && c.info == d;
    }
  }

  /** Removing a node, folding and undoing, on the items as they stand then. */
  method RemoveOne(ghost m1: map<ListData, Datum>, ghost count: nat, ghost s: Search, ghost items: seq<Item>,
          ghost all: set<Cell>, list: ListHead, idx: int, low: nat, retval0: Half)
    returns (retval: Half)
    requires m1 == Records(Datas(all))
    requires |items| == |s.cells| >= 3 && (forall i | 0 <= i < |items| :: items[i].pos < |s.cells|)
    requires Hold(m1, At(s.cells, items), items) && ListIn(list, At(s.cells, items), all)
    requires idx == s.idx && low == s.low && retval0 == HalfOf(count)
    modifies Nodes(all)
    ensures m1 == Records(Datas(all))
    ensures ListIn(list, At(s.cells, items), all) && retval == Midway(count, s, items)
  {
    HeldData(m1, At(s.cells, items), items);
    ghost var k;
    retval, k := RemoveFromList(At(s.cells, items), all, list, idx, low, retval0);
  }

  lemma RecordsShown(all: set<Cell>)
    ensures Shows(Records(Datas(all)), all)
  {
    forall c <- all ensures c.info in Datas(all) {}
  }

  /** The order of the cells before the last sort. */
  ghost function OrderAfter(m: map<ListData, Datum>, cells0: seq<Cell>, findNum: int, finderIdx: int, low0: nat,
          kernels: Kernels, r0: Results): seq<Cell>
  {
    var cells := Searched(m, TurnsTo(findNum), Search(cells0, finderIdx, low0)).cells;
    if Listed(m, cells) then Arrangement(cells, PreparedItems(m, cells, finderIdx, kernels, r0).items) else cells
  }

  ghost function Arrangement(cells: seq<Cell>, items: seq<Item>): seq<Cell> {
    if forall i | 0 <= i < |items| :: items[i].pos < |cells| then At(cells, items) else cells
  }

  /** The benchmark leaves cells of the same index in their order, so that its last sort restores the list. */
  ghost predicate Restores(m: map<ListData, Datum>, cells0: seq<Cell>, findNum: int, finderIdx: int, low0: nat,
          kernels: Kernels, r0: Results)
  {
    Listed(m, cells0) && TiesKept(m, cells0, OrderAfter(m, cells0, findNum, finderIdx, low0, kernels, r0))
  }

  lemma DisturbedOrder(m: map<ListData, Datum>, cells0: seq<Cell>, findNum: int, finderIdx: int, low0: nat,
          kernels: Kernels, r0: Results, s: Search, items: seq<Item>, r: Results)
    requires Disturbed(m, cells0, findNum, finderIdx, low0, kernels, r0, s, items, r)
    ensures OrderAfter(m, cells0, findNum, finderIdx, low0, kernels, r0) == At(s.cells, items)
  {}

  // ---------- When the list comes back ----------

  /** Where the cell of place `i` stands after a search that found place `t` of `n`. */
  ghost function PlaceAfter(n: nat, t: nat, i: nat): int {
    var p := n - 1 - i;
    if !(0 < t < n) then p else if i == t - 1 then 1 else if 0 < p <= n - 1 - t then p + 1 else p
  }

  lemma PlaceMoved(n: nat, t: nat, i: nat)
    requires 0 < t < n && i < n
    ensures 0 <= PlaceAfter(n, t, i) < n && MovedFrom(n - 1 - t, PlaceAfter(n, t, i)) == n - 1 - i
  {}

  lemma AfterSearchAt<T>(s: seq<T>, t: nat, i: nat)
    requires t <= |s| && i < |s|
    ensures 0 <= PlaceAfter(|s|, t, i) < |s| && AfterSearch(s, t)[PlaceAfter(|s|, t, i)] == s[i]
  {
    if 0 < t < |s| {
      PlaceMoved(|s|, t, i);
      MovedUpAt(Reversed(s), |s| - 1 - t, PlaceAfter(|s|, t, i));
    }
  }

  lemma PlaceIs<T>(s: seq<T>, p: nat)
    requires Distinct(s) && p < |s|
    ensures PlaceIn(s, s[p]) == p
  {}

  /** A search turns two places round, unless the later one is found and the earlier one right before it. */
  lemma SearchTurns(n: nat, t: nat, i: nat, j: nat)
    requires i < j < n && t <= n && i + 1 != t
    ensures PlaceAfter(n, t, j) < PlaceAfter(n, t, i)
  {}

  lemma NoTieBeforeFound(m: map<ListData, Datum>, cells: seq<Cell>, i: nat, j: nat)
    requires Listed(m, cells) && Nondecreasing(Indices(m, cells))
    requires i < j < |cells| && Indices(m, cells)[i] == Indices(m, cells)[j]
    ensures i + 1 != FirstWanted(DataOf(m, cells), 0, 0)
  {
    var data := DataOf(m, cells);
    FirstWantedAt(data, 0, 0);
    assert Indices(m, cells)[i] <= Indices(m, cells)[i + 1] <= Indices(m, cells)[j];
    assert Wanted(0, 0, data[i]) == Wanted(0, 0, data[i + 1]);
  }

  /** With search key 0 the found cell has index 0, and the one right before it a lower one: ties are turned round. */
  lemma TieTurned(m: map<ListData, Datum>, cells: seq<Cell>, i: nat, j: nat)
    requires Listed(m, cells) && Nondecreasing(Indices(m, cells)) && Distinct(cells)
    requires i < j < |cells| && Indices(m, cells)[i] == Indices(m, cells)[j]
    ensures var after := AfterSearch(cells, FirstWanted(DataOf(m, cells), 0, 0));
      PlaceIn(after, cells[j]) < PlaceIn(after, cells[i])
  {
    var data := DataOf(m, cells);
    var t := FirstWanted(data, 0, 0);
    NoTieBeforeFound(m, cells, i, j);
    SearchTurns(|cells|, t, i, j);
    AfterSearchAt(cells, t, i);
    AfterSearchAt(cells, t, j);
    AfterSearchReorders(cells, t);
    PlaceIs(AfterSearch(cells, t), PlaceAfter(|cells|, t, i));
    PlaceIs(AfterSearch(cells, t), PlaceAfter(|cells|, t, j));
  }

  lemma ListedStill(m: map<ListData, Datum>, cells: seq<Cell>, after: seq<Cell>)
    requires Listed(m, cells) && Elems(after) == Elems(cells)
    ensures Listed(m, after)
  {
    forall c <- after ensures c.info in m {
      assert c in Elems(cells);
    }
  }

  lemma AsTheyStand(m: map<ListData, Datum>, cells: seq<Cell>)
    requires Listed(m, cells)
    ensures Arrangement(cells, ItemsOf(m, cells)) == cells
  {}

  /** The order after one search with key 0. */
  lemma OneSearchOrder(m: map<ListData, Datum>, cells: seq<Cell>, low0: nat, kernels: Kernels, r0: Results)
    requires Listed(m, cells) && Distinct(cells) && |cells| >= 2
    ensures OrderAfter(m, cells, 1, 0, low0, kernels, r0) == AfterSearch(cells, FirstWanted(DataOf(m, cells), 0, 0))
  {
    var t := FirstWanted(DataOf(m, cells), 0, 0);
    assert Searched(m, 0, Search(cells, 0, low0)) == Search(cells, 0, low0);
    AfterSearchReorders(cells, t);
    ListedStill(m, cells, AfterSearch(cells, t));
    AsTheyStand(m, AfterSearch(cells, t));
  }

  /**
   One search with key 0 and no sort by data: the list comes back if and only if no
   index repeats.
   */
  lemma OneSearchRestores(m: map<ListData, Datum>, cells: seq<Cell>, low0: nat, kernels: Kernels, r0: Results)
    requires Listed(m, cells) && Nondecreasing(Indices(m, cells)) && Distinct(cells) && |cells| >= 2
    ensures Restores(m, cells, 1, 0, low0, kernels, r0) <==> IndicesDiffer(m, cells)
  {
    OneSearchOrder(m, cells, low0, kernels, r0);
    forall i, j | 0 <= i < j < |cells| && Indices(m, cells)[i] == Indices(m, cells)[j]
      ensures !Restores(m, cells, 1, 0, low0, kernels, r0)
    {
      TieTurned(m, cells, i, j);
    }
  }

  /** Whatever the searches, the kernels and the results so far. */
  ghost predicate AlwaysRestores(m: map<ListData, Datum>, cells: seq<Cell>) {
    forall findNum: int, finderIdx: int, low0: nat, kernels: Kernels, r0: Results ::
      Restores(m, cells, findNum, finderIdx, low0, kernels, r0)
  }

  /** The list comes back from every run if and only if no index repeats. */
  lemma AlwaysRestoredExactly(m: map<ListData, Datum>, cells: seq<Cell>)
    requires Listed(m, cells) && Nondecreasing(Indices(m, cells)) && Distinct(cells) && |cells| >= 2
    ensures AlwaysRestores(m, cells) <==> IndicesDiffer(m, cells)
  {
    var kernels := Kernels((_, _, _) => Zero(16), (_, _, _) => Zero(16));
    var r0 := Results(Zero(16), Zero(16), Zero(16), 0);
    OneSearchRestores(m, cells, 0, kernels, r0);
    assert AlwaysRestores(m, cells) ==> Restores(m, cells, 1, 0, 0, kernels, r0);
  }

  /** No other cell has the index of the head. */
  ghost predicate HeadAlone(m: map<ListData, Datum>, cells: seq<Cell>)
    requires Listed(m, cells)
  {
    forall i | 0 < i < |cells| :: Indices(m, cells)[i] != Indices(m, cells)[0]
  }

  /** Then every order with the same indices has the same head. */
  lemma HeadBack(m: map<ListData, Datum>, cells0: seq<Cell>, cells1: seq<Cell>)
    requires Listed(m, cells0) && Listed(m, cells1) && Indices(m, cells1) == Indices(m, cells0)
    requires Elems(cells1) == Elems(cells0) && |cells0| > 0 && HeadAlone(m, cells0)
    ensures cells1[0] == cells0[0]
  {
    assert cells1[0] in Elems(cells0);
    var i :| 0 <= i < |cells0| && cells0[i] == cells1[0];
    assert Indices(m, cells0)[i] == Indices(m, cells1)[0];
  }

  // ---------- The benchmark restores ----------

  /**
   The indices are in their original order again; so are the cells if and only if cells
   of the same index had kept their order, which is so in any case if no index repeats.
   */
  ghost predicate BackTo(m: map<ListData, Datum>, cells0: seq<Cell>, cells: seq<Cell>, cells1: seq<Cell>) {
    && Listed(m, cells0) && Listed(m, cells1) && Indices(m, cells1) == Indices(m, cells0)
    && (cells1 == cells0 <==> TiesKept(m, cells0, cells))
    && (IndicesDiffer(m, cells0) ==> cells1 == cells0)
  }

  /** Index order and regenerated records come back; the original order exactly if ties have been kept. */
  lemma Restored(cells0: seq<Cell>, cells: seq<Cell>, items: seq<Item>, m: map<ListData, Datum>,
          m1: map<ListData, Datum>, m2: map<ListData, Datum>)
    requires Prepared(m, cells0) && Distinct(cells0) && |cells0| == |cells| && Elems(cells0) == Elems(cells)
    requires Kept(m, m1) && SortedByIndex(cells, items, m1, m2) && Prepared(m2, At(cells, items))
    ensures m2 == m && BackTo(m, cells0, cells, At(cells, items))
  {
    RegeneratedSame(m, m2);
    RestoredExactly(cells0, cells, items, m1, m2);
  }

  /** The last sort. */
  method Restore(ghost m: map<ListData, Datum>, ghost m1: map<ListData, Datum>, ghost cells0: seq<Cell>,
          ghost cells: seq<Cell>, ghost all: set<Cell>, list0: ListHead, ghost res: CoreResults)
    returns (list: ListHead, ghost cells1: seq<Cell>)
    requires Prepared(m, cells0) && Distinct(cells0) && Elems(cells0) == all && |cells0| == |cells| >= 3
    requires Records(Datas(all)) == m1 && Kept(m, m1) && ListIn(list0, cells, all)
    modifies Nodes(all)`next, Datas(all)`data16
    ensures Records(Datas(all)) == m && |cells1| == |cells0| && ListIn(list, cells1, all)
    ensures BackTo(m, cells0, cells, cells1)
    ensures unchanged(res)
  {
    ghost var items;
    list, items := SortByIndex(cells, all, list0);
    cells1 := At(cells, items);
    Restored(cells0, cells, items, m, m1, Records(Datas(all)));
  }

  /** The last sort and the closing loop. */
  method RestoreAndClose(ghost m: map<ListData, Datum>, ghost m1: map<ListData, Datum>, ghost cells0: seq<Cell>,
          ghost cells: seq<Cell>, ghost all: set<Cell>, list0: ListHead, ghost res: CoreResults, retval0: Half)
    returns (retval: Half, ghost cells1: seq<Cell>)
    requires Prepared(m, cells0) && Distinct(cells0) && Elems(cells0) == all && |cells0| == |cells| >= 3
    requires Records(Datas(all)) == m1 && Kept(m, m1) && ListIn(list0, cells, all)
    modifies Nodes(all)`next, Datas(all)`data16
    ensures Records(Datas(all)) == m && |cells1| == |cells0| && ListIn(cells1[0].node, cells1, all)
    ensures BackTo(m, cells0, cells, cells1)
    ensures retval == CrcFold(Repeat(m[cells1[0].info].data16, |cells1| - 1), retval0)
    ensures unchanged(res)
  {
    var list;
    list, cells1 := Restore(m, m1, cells0, cells, all, list0, res);
    retval := ClosingCrc(m, cells1, all, list, retval0);
  }

  /**
   `core_bench_list`, for a list as `core_list_init` leaves it, in index order with
   regenerated data words. Afterwards all records are as they were, and the same cells
   are listed in index order again, so that the benchmark can be run once more; the
   list is back to its original state exactly as `Restores` says, and so always if no
   index repeats. `res.list` still is its head if no other cell has the head's index.
   The checksum folds the head's word for each node from the one found on, before the
   last sort, and once for each node behind the head after it.
   */
  method BenchList(ghost m: map<ListData, Datum>, ghost cells0: seq<Cell>, ghost all: set<Cell>, res: CoreResults,
          finderIdx: int, low0: nat)
    returns (retval: Half, ghost s: Search, ghost items: seq<Item>, ghost cells1: seq<Cell>)
    requires m == Records(Datas(all)) && ListIn(res.list, cells0, all) && |cells0| >= 3 && Prepared(m, cells0)
    modifies Nodes(all), Datas(all)`data16, res`crc, res`crcstate, res`crcmatrix, res`calls
    ensures Disturbed(m, cells0, res.seed3, finderIdx, low0, res.kernels, old(res.Snapshot()), s, items, res.Snapshot())
    ensures Records(Datas(all)) == m && |cells1| == |cells0| && ListIn(cells1[0].node, cells1, all)
    ensures Prepared(m, cells1) && Indices(m, cells1) == Indices(m, cells0)
    ensures cells1 == cells0 <==>
      Restores(m, cells0, res.seed3, finderIdx, low0, res.kernels, old(res.Snapshot()))
    ensures IndicesDiffer(m, cells0) ==> cells1 == cells0
    ensures HeadAlone(m, cells0) ==> HeadAlone(m, cells1) && ListIn(res.list, cells1, all)
    ensures retval == CrcFold(Repeat(m[cells1[0].info].data16, |cells1| - 1),
      Midway(CountOf(m, cells0, res.seed3, finderIdx, low0), s, items))
  {
    ghost var r0 := res.Snapshot();
    var list;
    ghost var m1;
    list, retval, s, items, m1 := Disturb(m, cells0, all, res, finderIdx, low0);
    ghost var r := res.Snapshot();
    retval, cells1 := RestoreAndClose(m, m1, cells0, At(s.cells, items), all, list, res, retval);
    Afterwards(m, cells0, res.seed3, finderIdx, low0, res.kernels, r0, s, items, r, cells1);
  }

  /** What the caller knows about the list afterwards. */
  lemma Afterwards(m: map<ListData, Datum>, cells0: seq<Cell>, findNum: int, finderIdx: int, low0: nat,
          kernels: Kernels, r0: Results, s: Search, items: seq<Item>, r: Results, cells1: seq<Cell>)
    requires Disturbed(m, cells0, findNum, finderIdx, low0, kernels, r0, s, items, r)
    requires BackTo(m, cells0, At(s.cells, items), cells1)
    requires Prepared(m, cells0) && Elems(cells1) == Elems(cells0) && |cells0| > 0
    ensures Prepared(m, cells1)
    ensures cells1 == cells0 <==> Restores(m, cells0, findNum, finderIdx, low0, kernels, r0)
    ensures HeadAlone(m, cells0) ==> cells1[0] == cells0[0] && HeadAlone(m, cells1)
  {
    DisturbedOrder(m, cells0, findNum, finderIdx, low0, kernels, r0, s, items, r);
    if HeadAlone(m, cells0) {
      HeadBack(m, cells0, cells1);
    }
  }

  // ---------- Iterations ----------

  /** The list between two runs of the benchmark. */
  ghost predicate Ready(m: map<ListData, Datum>, cells: seq<Cell>, all: set<Cell>, list: ListHead)
    reads NodeSeq(cells)`next, Nodes(all)`info, Datas(all)
  {
    && Records(Datas(all)) == m && ListIn(list, cells, all) && |cells| >= 3 && Prepared(m, cells)
    && HeadAlone(m, cells)
  }

  /** The results after one run on a list in this order, its checksum folded into the running one. */
  ghost function RunOf(m: map<ListData, Datum>, cells: seq<Cell>, findNum: int, finderIdx: int, low0: nat,
          kernels: Kernels, r0: Results): Results
    requires Listed(m, cells) && |cells| >= 2
  {
    var s := Searched(m, TurnsTo(findNum), Search(cells, finderIdx, low0));
    if !Listed(m, s.cells) then r0
    else
      var prepared := PreparedItems(m, s.cells, finderIdx, kernels, r0);
      if |prepared.items| < 2 then r0
      else
        var midway := Midway(CountOf(m, cells, findNum, finderIdx, low0), s, prepared.items);
        var retval := CrcFold(Repeat(m[cells[0].info].data16, |cells| - 1), midway);
        prepared.results.(crc := Crc(retval, prepared.results.crc))
  }

  /** The results after the given number of iterations on a list that keeps its order. */
  ghost function IterationsOf(n: nat, m: map<ListData, Datum>, cells: seq<Cell>, findNum: int, low0: nat,
          kernels: Kernels, r0: Results): Results
    requires Listed(m, cells) && |cells| >= 2
  {
    if n == 0 then r0
    else
      var r := RunOf(m, cells, findNum, 1, low0, kernels, IterationsOf(n - 1, m, cells, findNum, low0, kernels, r0));
      RunOf(m, cells, findNum, -1, low0, kernels, r)
  }

  /** What a run leaves behind is what `RunOf` says. */
  lemma {:induction false} RunIs(m: map<ListData, Datum>, cells: seq<Cell>, findNum: int, finderIdx: int, low0: nat,
          kernels: Kernels, r0: Results, s: Search, items: seq<Item>, r: Results, cells1: seq<Cell>, retval: Half)
    requires Disturbed(m, cells, findNum, finderIdx, low0, kernels, r0, s, items, r)
    requires Listed(m, cells) && |cells| >= 2 && |cells1| == |cells| && cells1[0] == cells[0]
    requires retval == CrcFold(Repeat(m[cells1[0].info].data16, |cells1| - 1),
      Midway(CountOf(m, cells, findNum, finderIdx, low0), s, items))
    ensures RunOf(m, cells, findNum, finderIdx, low0, kernels, r0) == r.(crc := Crc(retval, r.crc))
  {}

  /** One run of the benchmark, its checksum folded into the running one. */
  method RunOnce(ghost m: map<ListData, Datum>, ghost cells0: seq<Cell>, ghost all: set<Cell>, res: CoreResults,
          finderIdx: int, low0: nat)
    returns (ghost cells: seq<Cell>)
    requires Ready(m, cells0, all, res.list)
    modifies Nodes(all), Datas(all)`data16, res`crc, res`crcstate, res`crcmatrix, res`calls
    ensures Ready(m, cells, all, res.list) && |cells| == |cells0| && Indices(m, cells) == Indices(m, cells0)
    ensures IndicesDiffer(m, cells0) ==> cells == cells0
    ensures res.Snapshot() == RunOf(m, cells0, res.seed3, finderIdx, low0, res.kernels, old(res.Snapshot()))
  {
    ghost var r0 := res.Snapshot();
    var crc;
    ghost var s, items;
    crc, s, items, cells := BenchList(m, cells0, all, res, finderIdx, low0);
    RunIs(m, cells0, res.seed3, finderIdx, low0, res.kernels, r0, s, items, res.Snapshot(), cells, crc);
    FoldChecksum(m, cells, all, res, crc);
  }

  method FoldChecksum(ghost m: map<ListData, Datum>, ghost cells: seq<Cell>, ghost all: set<Cell>, res: CoreResults,
          crc: Half)
    requires Ready(m, cells, all, res.list)
    modifies res`crc
    ensures Ready(m, cells, all, res.list)
    ensures res.Snapshot() == old(res.Snapshot()).(crc := Crc(crc, old(res.crc)))
  {
    res.crc := Crcu16(crc, res.crc);
  }

  method Reset(ghost m: map<ListData, Datum>, ghost cells: seq<Cell>, ghost all: set<Cell>, res: CoreResults)
    requires Ready(m, cells, all, res.list)
    modifies res`crc, res`crcstate, res`crcmatrix
    ensures Ready(m, cells, all, res.list)
    ensures res.Snapshot() == Results(Zero(16), Zero(16), Zero(16), old(res.calls))
  {
    res.crc, res.crcmatrix, res.crcstate := Zero(16), Zero(16), Zero(16);
  }

  /**
   `iterate`: as long as no other cell has the index of the head, each run finds at
   `res.list` a list in index order with the records of the first one; if no index
   repeats, it is the same list, and all checksums are those of the runs one after the
   other.
   */
  method Iterate(ghost m: map<ListData, Datum>, ghost cells0: seq<Cell>, ghost all: set<Cell>, res: CoreResults,
          iterations: nat, low0: nat)
    returns (crclist: Half, ghost cells: seq<Cell>)
    requires Ready(m, cells0, all, res.list)
    modifies Nodes(all), Datas(all)`data16, res`crc, res`crcstate, res`crcmatrix, res`calls
    ensures Ready(m, cells, all, res.list) && |cells| == |cells0| && Indices(m, cells) == Indices(m, cells0)
    ensures IndicesDiffer(m, cells0) ==> cells == cells0
    ensures var r0 := Results(Zero(16), Zero(16), Zero(16), old(res.calls));
      IndicesDiffer(m, cells0) ==>
        && res.Snapshot() == IterationsOf(iterations, m, cells0, res.seed3, low0, res.kernels, r0)
        && crclist == IterationsOf(if iterations == 0 then 0 else 1, m, cells0, res.seed3, low0, res.kernels, r0).crc
  {
    ghost var r0 := Results(Zero(16), Zero(16), Zero(16), res.calls);
    Reset(m, cells0, all, res);
    crclist := Zero(16);
    cells := cells0;
    for i := 0 to iterations
      invariant Ready(m, cells, all, res.list) && |cells| == |cells0| && Indices(m, cells) == Indices(m, cells0)
      invariant IndicesDiffer(m, cells0) ==>
        && cells == cells0
        && res.Snapshot() == IterationsOf(i, m, cells0, res.seed3, low0, res.kernels, r0)
        && crclist == IterationsOf(if i == 0 then 0 else 1, m, cells0, res.seed3, low0, res.kernels, r0).crc
    {
      cells := RunTwice(m, cells, all, res, low0);
      if i == 0 {
        crclist := res.crc;
      }
    }
  }

  /** The body of the loop: one run with the sort by data and one without. */
  method RunTwice(ghost m: map<ListData, Datum>, ghost cells0: seq<Cell>, ghost all: set<Cell>, res: CoreResults,
          low0: nat)
    returns (ghost cells: seq<Cell>)
    requires Ready(m, cells0, all, res.list)
    modifies Nodes(all), Datas(all)`data16, res`crc, res`crcstate, res`crcmatrix, res`calls
    ensures Ready(m, cells, all, res.list) && |cells| == |cells0| && Indices(m, cells) == Indices(m, cells0)
    ensures IndicesDiffer(m, cells0) ==>
      && cells == cells0
      && res.Snapshot() == RunOf(m, cells0, res.seed3, -1, low0, res.kernels,
          RunOf(m, cells0, res.seed3, 1, low0, res.kernels, old(res.Snapshot())))
  {
    cells := RunOnce(m, cells0, all, res, 1, low0);
    cells := RunOnce(m, cells, all, res, -1, low0);
  }
}
