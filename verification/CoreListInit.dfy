/**
 The end of `core_list_init`: the nodes between head and tail get their indices, and
 the list is sorted by them. When no index repeats, the benchmark brings this list back.
 */
module CoreListInit {
  import opened BitArith
  import opened BitOps
  import opened Common
  import opened Words
  import opened CoreCrc
  import opened CoreSort
  import opened CoreList
  import opened CoreListOps
  import opened CoreListBench

  function Or(a: Half, b: Half): Half {
    seq(16, i requires 0 <= i < 16 => a[i] || b[i])
  }

  /** `w << 8`. */
  function ShiftLeft8(w: Half): Half {
    Zero(8) + w[..8]
  }

  /** The pseudo-random index; the counter has been increased already when its low bits are taken. */
  function MixedIndex(seed: int, i: nat): nat {
    var pat := Xor(HalfOf(i), HalfOf(U16(seed)));
    Value(And(Or(ShiftLeft8(And(HalfOf(i + 1), 7)), pat), 0x3FFF))
  }

  /** The index of place `i`: the place itself in the first fifth, mixed behind it. */
  function InitIndex(size: nat, seed: int, i: nat): int {
    if i < size / 5 then Wrap16(i) else MixedIndex(seed, i)
  }

  /** All indices, with those of head and tail. */
  ghost function InitIndices(size: nat, seed: int, n: nat): (s: seq<int>)
    ensures |s| == n
  {
    seq(n, i requires 0 <= i < n => if i == 0 then 0 else if i == n - 1 then 0x7FFF else InitIndex(size, seed, i))
  }

  // ---------- The bits of an index ----------

  lemma Powers()
    ensures Pow2(2) == 4 && Pow2(3) == 8 && Pow2(8) == 256 && Pow2(9) == 512 && Pow2(10) == 1024 && Pow2(14) == 0x4000
  {}

  lemma BitsOfSeven(k: nat)
    ensures Bit(7, k) == (k < 3)
  {
    MaskBits(3, 0, k);
    Powers();
  }

  lemma BitsOfMask(k: nat)
    ensures Bit(0x3FFF, k) == (k < 14)
  {
    MaskBits(14, 0, k);
    Powers();
  }

  /** The bits of a mixed index: those of counter and seed, and the next counter's low three in addition. */
  ghost predicate MixedBit(seed: int, i: nat, k: nat) {
    k < 14 && (Bit(i, k) != Bit(U16(seed), k) || (8 <= k < 11 && Bit(i + 1, k - 8)))
  }

  lemma MixedBits(seed: int, i: nat)
    ensures forall k: nat :: Bit(MixedIndex(seed, i), k) == MixedBit(seed, i, k)
    ensures MixedIndex(seed, i) < Pow2(14)
  {
    var low := And(HalfOf(i + 1), 7);
    var w := And(Or(ShiftLeft8(low), Xor(HalfOf(i), HalfOf(U16(seed)))), 0x3FFF);
    ValueBits(w);
    forall k: nat ensures Bit(Value(w), k) == MixedBit(seed, i, k) {
      BitsOfMask(k);
      if 8 <= k < 16 {
        BitsOfSeven(k - 8);
      }
    }
    BitsBound(Value(w), 14);
  }

  /** A number with a certain digit is no less than that digit's power. */
  lemma DigitBound(a: nat, k: nat)
    requires Bit(a, k)
    ensures a >= Pow2(k)
  {
    if a < Pow2(k) {
      HighBitsClear(a, k, k);
    }
  }

  /** A number that has all digits of another is no less. */
  lemma {:induction false} DigitsBound(a: nat, b: nat)
    requires forall k: nat | Bit(a, k) :: Bit(b, k)
    ensures a <= b
    decreases a
  {
    if a > 0 {
      forall k: nat | Bit(a / 2, k) ensures Bit(b / 2, k) {
        assert Bit(a, k + 1);
      }
      DigitsBound(a / 2, b / 2);
      assert Bit(a, 0) ==> Bit(b, 0);
    }
  }

  /** Below 256, places with the same mixed index are the same. */
  lemma MixedDiffer(seed: int, i: nat, j: nat)
    requires i < 256 && j < 256 && MixedIndex(seed, i) == MixedIndex(seed, j)
    ensures i == j
  {
    MixedBits(seed, i);
    MixedBits(seed, j);
    forall k: nat | k < 8 ensures Bit(i, k) == Bit(j, k) {
      assert MixedBit(seed, i, k) == MixedBit(seed, j, k);
    }
    Powers();
    BitsDetermine(i, j, 8);
  }

  // ---------- When indices repeat ----------

  /** What the code's comment means to achieve: mixed indices come behind those in sequence, the head's included. */
  ghost predicate MixedBehind(size: nat, seed: int, n: nat) {
    forall i | 0 < i < n - 1 && i >= size / 5 :: MixedIndex(seed, i) >= 1 && MixedIndex(seed, i) >= size / 5
  }

  lemma IndexBelow(size: nat, seed: int, n: nat, i: nat)
    requires 2 <= n <= 257 && 0 < i < n - 1
    ensures 0 <= InitIndex(size, seed, i) < 0x7FFF && (i < size / 5 ==> InitIndex(size, seed, i) == i)
  {
    if i >= size / 5 {
      MixedBits(seed, i);
      Powers();
    }
  }

  lemma BehindDiffer(size: nat, seed: int, n: nat, i: nat, j: nat)
    requires 2 <= n <= 257 && MixedBehind(size, seed, n) && i < j < n
    ensures InitIndices(size, seed, n)[i] != InitIndices(size, seed, n)[j]
  {
    if i > 0 {
      IndexBelow(size, seed, n, i);
    }
    if j < n - 1 {
      IndexBelow(size, seed, n, j);
      if size / 5 <= i && MixedIndex(seed, i) == MixedIndex(seed, j) {
        MixedDiffer(seed, i, j);
      }
    }
  }

  /** In a list of at most 257 nodes no index repeats if and only if the mixed ones come behind. */
  lemma DifferExactly(size: nat, seed: int, n: nat)
    requires 2 <= n <= 257
    ensures Distinct(InitIndices(size, seed, n)) <==> MixedBehind(size, seed, n)
  {
    var s := InitIndices(size, seed, n);
    if MixedBehind(size, seed, n) {
      forall i, j | 0 <= i < j < n ensures s[i] != s[j] {
        BehindDiffer(size, seed, n, i, j);
      }
    }
    forall i: nat | 0 < i < n - 1 && i >= size / 5 && !(MixedIndex(seed, i) >= 1 && MixedIndex(seed, i) >= size / 5)
      ensures !Distinct(s)
    {
      var j := MixedIndex(seed, i);
      assert s[i] == j == s[j];
    }
  }

  /** With size 31 and seed 2 the places 5 and 7 of thirty have the index 5. */
  lemma RepeatedIndex(size: nat, seed: int)
    requires size == 31 && seed == 2
    ensures InitIndex(size, seed, 5) == 5 == InitIndex(size, seed, 7)
    ensures !Distinct(InitIndices(size, seed, size - 1)) && !MixedBehind(size, seed, size - 1)
  {
    SeventhIndex(seed, 7);
    assert InitIndices(size, seed, size - 1)[5] == InitIndices(size, seed, size - 1)[7];
    DifferExactly(size, seed, size - 1);
  }

  lemma SeventhIndex(seed: int, i: nat)
    requires seed == 2 && i == 7
    ensures MixedIndex(seed, i) == 5
  {
    MixedBits(seed, i);
    forall k: nat | k < 14 ensures Bit(MixedIndex(seed, i), k) == Bit(5, k) {
      SmallBits(k);
    }
    Powers();
    BitsDetermine(MixedIndex(seed, i), 5, 14);
  }

  lemma SmallBits(k: nat)
    ensures Bit(2, k) == (k == 1) && Bit(5, k) == (k == 0 || k == 2) && Bit(7, k) == (k < 3) && Bit(8, k) == (k == 3)
  {
    if k >= 4 {
      HighBitsClear(2, 4, k);
      HighBitsClear(5, 4, k);
      HighBitsClear(7, 4, k);
      HighBitsClear(8, 4, k);
    }
  }

  lemma ByDigit(seed: int, i: nat, k: nat)
    requires MixedBit(seed, i, k)
    ensures MixedIndex(seed, i) >= Pow2(k)
  {
    MixedBits(seed, i);
    DigitBound(MixedIndex(seed, i), k);
  }

  /** With seed 0 a mixed index is no less than the place. */
  lemma ZeroSeed(seed: int, i: nat)
    requires seed == 0 && i < 256
    ensures MixedIndex(seed, i) >= i
  {
    MixedBits(seed, i);
    Powers();
    forall k: nat | Bit(i, k) ensures Bit(MixedIndex(seed, i), k) {
      if k >= 8 {
        HighBitsClear(i, 8, k);
      }
      ZeroHasNoBits(k);
    }
    DigitsBound(i, MixedIndex(seed, i));
  }

  /** The seed of the validation runs sets a high bit everywhere. */
  lemma ValidationSeed(seed: int, i: nat)
    requires seed == 0x3415 && i < 256
    ensures MixedIndex(seed, i) >= 1024
  {
    Powers();
    HighBitsClear(i, 8, 10);
    ByDigit(seed, i, 10);
  }

  lemma ProfileSeed(seed: int, i: nat)
    requires seed == 8 && 3 <= i < 16
    ensures MixedIndex(seed, i) >= 4
  {
    Powers();
    if (i + 1) % 2 == 1 {
      ByDigit(seed, i, 8);
    } else if (i + 1) / 2 % 2 == 1 {
      ByDigit(seed, i, 9);
    } else if (i + 1) / 4 % 2 == 1 {
      ByDigit(seed, i, 10);
    } else {
      assert i == 7 || i == 15;
      ByDigit(seed, i, 2);
    }
  }

  /** The runs whose checksums the program knows: sizes 98, 31 and 18, and their seeds. */
  predicate KnownRun(size: nat, seed: int) {
    ((size == 98 || size == 31) && (seed == 0 || seed == 0x3415)) || (size == 18 && seed == 8)
  }

  /** In none of them an index repeats. */
  lemma KnownRunsDiffer(size: nat, seed: int)
    requires KnownRun(size, seed)
    ensures Distinct(InitIndices(size, seed, size - 1))
  {
    forall i | 0 < i < size - 2 && i >= size / 5 ensures MixedIndex(seed, i) >= 1 && MixedIndex(seed, i) >= size / 5 {
      if seed == 0 {
        ZeroSeed(seed, i);
      } else if seed == 8 {
        ProfileSeed(seed, i);
      } else {
        ValidationSeed(seed, i);
      }
    }
    DifferExactly(size, seed, size - 1);
  }

  // ---------- The loop and the sort ----------

  /** The records when the places from 1 up to `k` have got their indices. */
  ghost predicate IndexedTo(m: map<ListData, Datum>, m1: map<ListData, Datum>, cells: seq<Cell>, size: nat, seed: int,
          k: nat)
  {
    && Listed(m, cells) && m1.Keys == m.Keys
    && forall i | 0 <= i < |cells| ::
      m1[cells[i].info] ==
        if 0 < i < k then Datum(m[cells[i].info].data16, InitIndex(size, seed, i)) else m[cells[i].info]
  }

  lemma IndexedMore(m: map<ListData, Datum>, m1: map<ListData, Datum>, m2: map<ListData, Datum>, cells: seq<Cell>,
          all: set<Cell>, size: nat, seed: int, k: nat)
    requires IndexedTo(m, m1, cells, size, seed, k) && 0 < k < |cells|
    requires Separate(all) && Elems(cells) == all && Distinct(cells)
    requires m2 == m1[cells[k].info := Datum(m1[cells[k].info].data16, InitIndex(size, seed, k))]
    ensures IndexedTo(m, m2, cells, size, seed, k + 1)
  {
    CellsApart(cells, all);
    forall i | 0 <= i < |cells| && i != k ensures cells[i].info != cells[k].info {
      assert InfoSeq(cells)[i] != InfoSeq(cells)[k];
    }
  }

  method SetIndex(ghost all: set<Cell>, ghost c: Cell, node: ListHead, idx: int)
    requires Pointing(all) && c in all && node == c.node
    modifies Datas(all)`idx
    ensures Records(Datas(all)) ==
      old(Records(Datas(all)))[c.info := Datum(old(Records(Datas(all)))[c.info].data16, idx)]
  {
    assert c.info in Datas(all);
    node.info.idx := idx;
  }

  /** The loop has come to place `k`. */
  ghost predicate Indexing(m: map<ListData, Datum>, cells: seq<Cell>, all: set<Cell>, list: ListHead, size: nat,
          seed: int, k: nat)
    reads NodeSeq(cells)`next, Nodes(all)`info, Datas(all)
  {
    && ListIn(list, cells, all) && k <= |cells|
    && IndexedTo(m, Records(Datas(all)), cells, size, seed, k)
  }

  /** One turn of the loop. */
  method IndexNode(ghost m: map<ListData, Datum>, ghost cells: seq<Cell>, ghost all: set<Cell>, ghost list: ListHead,
          node: ListHead, size: nat, seed: int, i: nat)
    requires Indexing(m, cells, all, list, size, seed, i) && 0 < i < |cells| && node == cells[i].node
    modifies Datas(all)`idx
    ensures Indexing(m, cells, all, list, size, seed, i + 1)
  {
    ghost var m1 := Records(Datas(all));
    CellMembers(cells, all);
    SetIndex(all, cells[i], node, InitIndex(size, seed, i));
    IndexedMore(m, m1, Records(Datas(all)), cells, all, size, seed, i);
  }

  lemma NextNode(cells: seq<Cell>, i: nat)
    requires Chained(NodeSeq(cells)) && i < |cells|
    ensures cells[i].node.next == if i + 1 < |cells| then cells[i + 1].node else null
  {
    assert NodeSeq(cells)[i].next == NextIn(NodeSeq(cells), i);
  }

  /** The loop that gives every node between head and tail its index. */
  method IndexNodes(ghost cells: seq<Cell>, ghost all: set<Cell>, list: ListHead, size: nat, seed: int)
    requires ListIn(list, cells, all) && |cells| >= 2
    modifies Datas(all)`idx
    ensures ListIn(list, cells, all)
    ensures IndexedTo(old(Records(Datas(all))), Records(Datas(all)), cells, size, seed, |cells| - 1)
  {
    ghost var m := Records(Datas(all));
    CellMembers(cells, all);
    NextNode(cells, 0);
    NextNode(cells, 1);
    var finder, i := list.next, 1;
    while finder.next != null
      invariant 0 < i < |cells| && finder == cells[i].node && Indexing(m, cells, all, list, size, seed, i)
      invariant finder.next == if i + 1 < |cells| then cells[i + 1].node else null
      decreases |cells| - i
    {
      IndexNode(m, cells, all, list, finder, size, seed, i);
      i := i + 1;
      finder := finder.next;
      NextNode(cells, i);
    }
  }

  /** The indices that the list has at both ends before the loop. */
  ghost predicate Fenced(m: map<ListData, Datum>, cells: seq<Cell>) {
    && Listed(m, cells) && |cells| >= 2
    && m[cells[0].info].idx == 0 && m[cells[|cells| - 1].info].idx == 0x7FFF
  }

  lemma IndexedAll(m: map<ListData, Datum>, m1: map<ListData, Datum>, m2: map<ListData, Datum>, cells: seq<Cell>,
          size: nat, seed: int)
    requires Fenced(m, cells) && IndexedTo(m, m1, cells, size, seed, |cells| - 1) && Kept(m1, m2)
    ensures Listed(m2, cells) && Indices(m2, cells) == InitIndices(size, seed, |cells|)
  {}

  /** Whether indices differ does not depend on the order of the cells. */
  lemma DifferInAnyOrder(m: map<ListData, Datum>, a: seq<Cell>, b: seq<Cell>)
    requires Listed(m, a) && Listed(m, b) && Elems(a) == Elems(b) && Distinct(b) && IndicesDiffer(m, a)
    ensures IndicesDiffer(m, b)
  {
    forall i, j | 0 <= i < j < |b| ensures Indices(m, b)[i] != Indices(m, b)[j] {
      assert b[i] in Elems(a) && b[j] in Elems(a);
      var p :| 0 <= p < |a| && a[p] == b[i];
      var q :| 0 <= q < |a| && a[q] == b[j];
      assert Indices(m, a)[p] == Indices(m, b)[i] && Indices(m, a)[q] == Indices(m, b)[j];
    }
  }

  lemma FoundIn(m: map<ListData, Datum>, a: seq<Cell>, b: seq<Cell>, i: nat) returns (p: nat)
    requires Listed(m, a) && Listed(m, b) && Elems(a) == Elems(b) && i < |a|
    ensures p < |b| && b[p] == a[i] && Indices(m, b)[p] == Indices(m, a)[i]
  {
    assert a[i] in Elems(b);
    p :| 0 <= p < |b| && b[p] == a[i];
  }

  /** The index 0 is the least; if only the first of the original cells has it, that cell is the head again. */
  lemma ZeroInFront(m: map<ListData, Datum>, cells: seq<Cell>, sorted: seq<Cell>)
    requires Listed(m, cells) && Listed(m, sorted) && Elems(sorted) == Elems(cells) && |cells| > 0
    requires Distinct(cells) && Distinct(sorted) && Nondecreasing(Indices(m, sorted))
    requires Indices(m, cells)[0] == 0 && forall i | 0 <= i < |cells| :: Indices(m, cells)[i] >= 0
    ensures HeadAlone(m, sorted) <==> forall i | 0 < i < |cells| :: Indices(m, cells)[i] != 0
    ensures |sorted| > 0 && (HeadAlone(m, sorted) ==> sorted[0] == cells[0])
  {
    var p := FoundIn(m, cells, sorted, 0);
    var first := FoundIn(m, sorted, cells, 0);
    if HeadAlone(m, sorted) {
      forall i | 0 < i < |cells| ensures Indices(m, cells)[i] != 0 {
        var q := FoundIn(m, cells, sorted, i);
        assert cells[i] != cells[0];
      }
    } else {
      var k :| 0 < k < |sorted| && Indices(m, sorted)[k] == Indices(m, sorted)[0];
      var i := FoundIn(m, sorted, cells, k);
      assert sorted[k] != sorted[0];
    }
  }

  /** What is known about the list that `core_list_init` returns. */
  ghost predicate Initialized(m: map<ListData, Datum>, cells0: seq<Cell>, cells: seq<Cell>, size: nat, seed: int) {
    && Prepared(m, cells) && |cells| == |cells0| > 0
    && (IndicesDiffer(m, cells) <==> Distinct(InitIndices(size, seed, |cells|)))
    && (|cells| <= 257 ==>
          (HeadAlone(m, cells) <==> forall i | 0 < i < |cells| - 1 :: InitIndex(size, seed, i) != 0))
    && (|cells| <= 257 && HeadAlone(m, cells) ==> cells[0] == cells0[0])
  }

  lemma NoneNegative(size: nat, seed: int, n: nat)
    requires 2 <= n <= 257
    ensures forall i | 0 <= i < n :: InitIndices(size, seed, n)[i] >= 0
    ensures (forall i | 0 < i < n :: InitIndices(size, seed, n)[i] != 0) <==>
      forall i | 0 < i < n - 1 :: InitIndex(size, seed, i) != 0
  {
    var s := InitIndices(size, seed, n);
    forall i | 0 < i < n - 1 ensures s[i] == InitIndex(size, seed, i) >= 0 {
      IndexBelow(size, seed, n, i);
    }
  }

  lemma InitializedAfter(m: map<ListData, Datum>, cells0: seq<Cell>, cells: seq<Cell>, size: nat, seed: int)
    requires Prepared(m, cells) && Listed(m, cells0) && |cells0| == |cells| >= 2
    requires Elems(cells) == Elems(cells0) && Distinct(cells0) && Distinct(cells)
    requires Indices(m, cells0) == InitIndices(size, seed, |cells0|)
    ensures Initialized(m, cells0, cells, size, seed)
  {
    if IndicesDiffer(m, cells) {
      DifferInAnyOrder(m, cells, cells0);
    } else if IndicesDiffer(m, cells0) {
      DifferInAnyOrder(m, cells0, cells);
    }
    if |cells| <= 257 {
      NoneNegative(size, seed, |cells|);
      ZeroInFront(m, cells0, cells);
    }
  }

  /** The end of `core_list_init`: the loop, and the sort by index. */
  method IndexAndSort(ghost cells0: seq<Cell>, ghost all: set<Cell>, list0: ListHead, size: nat, seed: int)
    returns (list: ListHead, ghost cells: seq<Cell>)
    requires ListIn(list0, cells0, all) && Fenced(Records(Datas(all)), cells0)
    modifies Nodes(all)`next, Datas(all)`idx, Datas(all)`data16
    ensures ListIn(list, cells, all) && Initialized(Records(Datas(all)), cells0, cells, size, seed)
  {
    ghost var m := Records(Datas(all));
    IndexNodes(cells0, all, list0, size, seed);
    ghost var m1 := Records(Datas(all));
    ghost var items;
    list, items := SortByIndex(cells0, all, list0);
    ghost var m2 := Records(Datas(all));
    cells := At(cells0, items);
    IndexedAll(m, m1, m2, cells0, size, seed);
    ByIndex(cells0, items, m1, m2);
    InitializedAfter(m2, cells0, cells, size, seed);
  }

  /**
   The benchmark always brings back the list that `core_list_init` has made if and only
   if no index repeats; for at most 257 nodes, if and only if the mixed indices come
   behind those in sequence; and so in all runs whose checksums the program knows.
   */
  lemma InitRestoredExactly(m: map<ListData, Datum>, cells0: seq<Cell>, cells: seq<Cell>, size: nat, seed: int)
    requires Initialized(m, cells0, cells, size, seed) && Distinct(cells) && |cells| >= 2
    ensures AlwaysRestores(m, cells) <==> Distinct(InitIndices(size, seed, |cells|))
    ensures |cells| <= 257 ==> (AlwaysRestores(m, cells) <==> MixedBehind(size, seed, |cells|))
    ensures KnownRun(size, seed) && |cells| == size - 1 ==> AlwaysRestores(m, cells)
  {
    AlwaysRestoredExactly(m, cells);
    if |cells| <= 257 {
      DifferExactly(size, seed, |cells|);
    }
    if KnownRun(size, seed) && |cells| == size - 1 {
      KnownRunsDiffer(size, seed);
    }
  }
}
