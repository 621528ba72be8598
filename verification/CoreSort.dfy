/**
 The value-level meaning of CoreMark's list sort: comparators that rewrite the
 data they compare, and the bottom-up merge passes, over the items of a list.
 */
module CoreSort {
  import opened BitArith
  import opened Common
  import opened CoreCrc
  import opened Words

  /** A list element: where it stood when the sort began, its index and its data word. */
  datatype Item = Item(pos: nat, idx: int, data16: Half)

  /** The contents of a data record. */
  datatype Datum = Datum(data16: Half, idx: int)

  /**
   The comparison function passed to the sort: `cmp_complex`, `cmp_idx` with a null
   results pointer (it then regenerates the data) or with another, or any function of
   the two records that changes nothing.
   */
  datatype Comparator = CmpComplex | CmpIdx(regenerates: bool) | CmpOther(diff: (Datum, Datum) -> int)

  /** The fields of `core_results` that comparisons change; `calls` counts kernel calls. */
  datatype Results = Results(crc: Half, crcstate: Half, crcmatrix: Half, calls: nat)

  /** The state-machine and matrix kernels: any 16-bit result, possibly different on every call. */
  datatype Kernels = Kernels(state: (nat, nat, Half) -> Half, matrix: (nat, nat, Half) -> Half)

  // ---------- Data words ----------

  predicate Cached(data: Half) {
    data[7]
  }

  function LowSeven(data: Half): nat {
    Value(data[..7])
  }

  function HighByte(data: Half): Octet {
    data[8..]
  }

  /** Keep the high byte, mark the low byte as cached and store the result there. */
  function Cache(data: Half, retval: Half): Half {
    retval[..7] + [true] + data[8..]
  }

  /** Rebuild the low byte from its backup in the high byte. */
  function Regenerate(data: Half): Half {
    data[8..] + data[8..]
  }

  /** The value that a data word asks for: a kernel's result or the word itself. */
  function FuncResult(kernels: Kernels, data: Half, r: Results): Half {
    var flag := Value(data[..3]);
    var dtype := Value(data[3..7] + data[3..7]);
    if flag == 0 then kernels.state(r.calls, if dtype < 0x22 then 0x22 else dtype, r.crc)
    else if flag == 1 then kernels.matrix(r.calls, dtype, r.crc)
    else data
  }

  datatype Called = Called(retval: nat, data: Half, results: Results)

  /** `calc_func` on a data word. */
  function CalcFunc(kernels: Kernels, data: Half, r: Results): Called {
    if Cached(data) then Called(LowSeven(data), data, r)
    else
      var flag := Value(data[..3]);
      var retval := FuncResult(kernels, data, r);
      var r' := Results(
        Crc(retval, r.crc),
        if flag == 0 && r.crcstate == Zero(16) then retval else r.crcstate,
        if flag == 1 && r.crcmatrix == Zero(16) then retval else r.crcmatrix,
        r.calls + if flag <= 1 then 1 else 0);
      Called(Value(retval[..7]), Cache(data, retval), r')
  }

  datatype Compared = Compared(diff: int, a: Item, b: Item, results: Results)

  function DatumOf(x: Item): Datum {
    Datum(x.data16, x.idx)
  }

  /** One call of the comparison function. */
  function Compare(cmp: Comparator, kernels: Kernels, a: Item, b: Item, r: Results): Compared {
    match cmp
    case CmpComplex =>
      var ca := CalcFunc(kernels, a.data16, r);
      var cb := CalcFunc(kernels, b.data16, ca.results);
      Compared(ca.retval - cb.retval, a.(data16 := ca.data), b.(data16 := cb.data), cb.results)
    case CmpIdx(regenerates) =>
      if regenerates then Compared(a.idx - b.idx, a.(data16 := Regenerate(a.data16)),
        b.(data16 := Regenerate(b.data16)), r)
      else Compared(a.idx - b.idx, a, b, r)
    case CmpOther(diff) => Compared(diff(DatumOf(a), DatumOf(b)), a, b, r)
  }

  // ---------- The sort ----------

  datatype Merged = Merged(items: seq<Item>, results: Results)

  function Merge(cmp: Comparator, kernels: Kernels, ps: seq<Item>, qs: seq<Item>, r: Results): Merged
    decreases |ps| + |qs|
  {
    if |ps| == 0 then Merged(qs, r)
    else if |qs| == 0 then Merged(ps, r)
    else
      var c := Compare(cmp, kernels, ps[0], qs[0], r);
      if c.diff <= 0 then
        var rest := Merge(cmp, kernels, ps[1..], [c.b] + qs[1..], c.results);
        rest.(items := [c.a] + rest.items)
      else
        var rest := Merge(cmp, kernels, [c.a] + ps[1..], qs[1..], c.results);
        rest.(items := [c.b] + rest.items)
  }

  /** One pass: merge neighbouring runs of length `w`. */
  function Pass(cmp: Comparator, kernels: Kernels, w: nat, items: seq<Item>, r: Results): Merged
    requires w > 0
    decreases |items|
  {
    if |items| == 0 then Merged([], r)
    else
      var i := Min(w, |items|);
      var j := Min(2 * w, |items|);
      var m := Merge(cmp, kernels, items[..i], items[i..j], r);
      var rest := Pass(cmp, kernels, w, items[j..], m.results);
      rest.(items := m.items + rest.items)
  }

  lemma {:induction false} MergeLength(cmp: Comparator, kernels: Kernels, ps: seq<Item>, qs: seq<Item>, r: Results)
    ensures |Merge(cmp, kernels, ps, qs, r).items| == |ps| + |qs|
    decreases |ps| + |qs|
  {
    if |ps| > 0 && |qs| > 0 {
      var c := Compare(cmp, kernels, ps[0], qs[0], r);
      if c.diff <= 0 {
        MergeLength(cmp, kernels, ps[1..], [c.b] + qs[1..], c.results);
      } else {
        MergeLength(cmp, kernels, [c.a] + ps[1..], qs[1..], c.results);
      }
    }
  }

  lemma {:induction false} PassLength(cmp: Comparator, kernels: Kernels, w: nat, items: seq<Item>, r: Results)
    requires w > 0
    ensures |Pass(cmp, kernels, w, items, r).items| == |items|
    decreases |items|
  {
    if |items| > 0 {
      var i, j := Min(w, |items|), Min(2 * w, |items|);
      var m := Merge(cmp, kernels, items[..i], items[i..j], r);
      MergeLength(cmp, kernels, items[..i], items[i..j], r);
      PassLength(cmp, kernels, w, items[j..], m.results);
    }
  }

  /** Passes with doubling run length until a pass needs a single merge. */
  function Sort(cmp: Comparator, kernels: Kernels, w: nat, items: seq<Item>, r: Results): Merged
    requires w > 0
    decreases |items| - w
  {
    var p := Pass(cmp, kernels, w, items, r);
    if |items| <= 2 * w then p
    else
      PassLength(cmp, kernels, w, items, r);
      Sort(cmp, kernels, 2 * w, p.items, p.results)
  }

  // ---------- What comparisons do to an item ----------

  /** Whether a comparison would leave the item as it is. */
  predicate Settled(cmp: Comparator, x: Item) {
    match cmp
    case CmpComplex => Cached(x.data16)
    case CmpIdx(regenerates) => regenerates ==> x.data16 == Regenerate(x.data16)
    case CmpOther(_) => true
  }

  /** The order that the comparison function stands for. */
  predicate Leq(cmp: Comparator, x: Item, y: Item) {
    match cmp
    case CmpComplex => LowSeven(x.data16) <= LowSeven(y.data16)
    case CmpIdx(_) => x.idx <= y.idx
    case CmpOther(diff) => diff(DatumOf(x), DatumOf(y)) <= 0
  }

  /** Any two records are ordered one way or the other, and the order is transitive. */
  ghost predicate TotalPreorder(diff: (Datum, Datum) -> int) {
    && (forall x, y :: diff(x, y) <= 0 || diff(y, x) <= 0)
    && (forall x, y, z :: diff(x, y) <= 0 && diff(y, z) <= 0 ==> diff(x, z) <= 0)
  }

  /** The two comparison functions of the program are total preorders; another one has to be. */
  ghost predicate Preordered(cmp: Comparator) {
    cmp.CmpOther? ==> TotalPreorder(cmp.diff)
  }

  /** The part of an item that no comparison changes. */
  datatype Core = Core(pos: nat, idx: int, high: Octet)

  function CoreOf(x: Item): Core {
    Core(x.pos, x.idx, HighByte(x.data16))
  }

  function Cores(items: seq<Item>): seq<Core> {
    seq(|items|, i requires 0 <= i < |items| => CoreOf(items[i]))
  }

  /** A comparison settles both items, tells their order, and leaves settled items as they are. */
  lemma CompareSettles(cmp: Comparator, kernels: Kernels, a: Item, b: Item, r: Results)
    ensures var c := Compare(cmp, kernels, a, b, r);
      && Settled(cmp, c.a) && Settled(cmp, c.b)
      && CoreOf(c.a) == CoreOf(a) && CoreOf(c.b) == CoreOf(b)
      && (c.diff <= 0 <==> Leq(cmp, c.a, c.b))
      && (Settled(cmp, a) ==> c.a == a) && (Settled(cmp, b) ==> c.b == b)
      && (Settled(cmp, a) && Settled(cmp, b) ==> c.results == r)
  {
    if cmp.CmpComplex? {
      CalcFuncCaches(kernels, a.data16, r);
      CalcFuncCaches(kernels, b.data16, CalcFunc(kernels, a.data16, r).results);
    }
  }

  lemma CalcFuncCaches(kernels: Kernels, data: Half, r: Results)
    ensures var c := CalcFunc(kernels, data, r);
      && Cached(c.data) && HighByte(c.data) == HighByte(data) && c.retval == LowSeven(c.data)
      && (Cached(data) ==> c.data == data && c.results == r)
  {
    var retval := FuncResult(kernels, data, r);
    assert Cache(data, retval)[..7] == retval[..7];
    assert Cache(data, retval)[8..] == data[8..];
  }

  // ---------- The data word as a number ----------

  /** Flag, data type and cache mark as digits: bits 0 to 2, bits 3 to 6 twice, bit 7. */
  lemma WordDigits(data: Half)
    ensures Value(data[..3]) == Value(data) % 8
    ensures Value(data[3..7] + data[3..7]) == 17 * (Value(data) / 8 % 16)
    ensures Cached(data) <==> Value(data) / 128 % 2 == 1
    ensures LowSeven(data) == Value(data) % 128 && Value(HighByte(data)) == Value(data) / 256
  {
    SmallPowers();
    ValueParts(data, 3);
    ValueParts(data[3..], 4);
    assert data[3..][..4] == data[3..7];
    ValueConcat(data[3..7], data[3..7]);
    ValueDigit(data, 7);
    ValueParts(data, 7);
    ValueParts(data, 8);
  }

  lemma SmallPowers()
    ensures Pow2(3) == 8 && Pow2(4) == 16 && Pow2(7) == 128 && Pow2(8) == 256
  {}

  /** The word's low seven bits, the cache mark, and the high byte of the data. */
  lemma CachedValue(data: Half, word: Half)
    ensures Value(Cache(data, word)) == Value(word) % 128 + 128 + Value(data) / 256 * 256
  {
    SmallPowers();
    ValueParts(word, 7);
    ValueParts(data, 8);
    ValueConcat(word[..7], [true]);
    ValueConcat(word[..7] + [true], data[8..]);
    assert Value([true]) == 1;
  }

  /** Regeneration copies the high byte over the low one. */
  lemma RegeneratedValue(data: Half)
    ensures Value(Regenerate(data)) == 257 * (Value(data) / 256)
  {
    SmallPowers();
    ValueParts(data, 8);
    ValueConcat(data[8..], data[8..]);
  }

  /** The call returns the word's low seven bits, caches them, and folds the whole word into the running checksum. */
  ghost predicate Absorbs(c: Called, data: Half, r: Results, word: Half) {
    && c.retval == Value(word) % 128 && c.results.crc == Crc(word, r.crc)
    && Value(c.data) == Value(word) % 128 + 128 + Value(data) / 256 * 256
  }

  lemma WordAbsorbed(kernels: Kernels, data: Half, r: Results)
    requires Value(data) / 128 % 2 == 0
    ensures Absorbs(CalcFunc(kernels, data, r), data, r, FuncResult(kernels, data, r))
  {
    var word := FuncResult(kernels, data, r);
    WordDigits(data);
    WordDigits(word);
    CachedValue(data, word);
  }

  /** A word with the cache mark is only read. */
  lemma CachedCall(kernels: Kernels, data: Half, r: Results)
    requires Value(data) / 128 % 2 == 1
    ensures CalcFunc(kernels, data, r) == Called(Value(data) % 128, data, r)
  {
    WordDigits(data);
  }

  /** Flag 0 runs the state kernel alone, with a data type of at least 0x22, and keeps its first checksum. */
  lemma StateCall(kernels: Kernels, data: Half, r: Results)
    requires Value(data) / 128 % 2 == 0 && Value(data) % 8 == 0
    ensures var c := CalcFunc(kernels, data, r);
      var dtype := 17 * (Value(data) / 8 % 16);
      var word := kernels.state(r.calls, if dtype >= 0x22 then dtype else 0x22, r.crc);
      && Absorbs(c, data, r, word) && c.results.calls == r.calls + 1 && c.results.crcmatrix == r.crcmatrix
      && c.results.crcstate == if Value(r.crcstate) == 0 then word else r.crcstate
    ensures forall other: Kernels | other.state == kernels.state ::
      CalcFunc(other, data, r) == CalcFunc(kernels, data, r)
  {
    WordDigits(data);
    WordAbsorbed(kernels, data, r);
    ZeroValue(r.crcstate);
  }

  /** Flag 1 runs the matrix kernel alone, with the data type as it is, and keeps its first checksum. */
  lemma MatrixCall(kernels: Kernels, data: Half, r: Results)
    requires Value(data) / 128 % 2 == 0 && Value(data) % 8 == 1
    ensures var c := CalcFunc(kernels, data, r);
      var word := kernels.matrix(r.calls, 17 * (Value(data) / 8 % 16), r.crc);
      && Absorbs(c, data, r, word) && c.results.calls == r.calls + 1 && c.results.crcstate == r.crcstate
      && c.results.crcmatrix == if Value(r.crcmatrix) == 0 then word else r.crcmatrix
    ensures forall other: Kernels | other.matrix == kernels.matrix ::
      CalcFunc(other, data, r) == CalcFunc(kernels, data, r)
  {
    WordDigits(data);
    WordAbsorbed(kernels, data, r);
    ZeroValue(r.crcmatrix);
  }

  /** Any other flag asks for the word itself; no kernel has a part in it. */
  lemma PlainCall(kernels: Kernels, data: Half, r: Results)
    requires Value(data) / 128 % 2 == 0 && Value(data) % 8 >= 2
    ensures var c := CalcFunc(kernels, data, r);
      && Absorbs(c, data, r, data) && c.results == r.(crc := Crc(data, r.crc))
      && Value(c.data) == Value(data) + 128
    ensures forall other: Kernels :: CalcFunc(other, data, r) == CalcFunc(kernels, data, r)
  {
    WordDigits(data);
    WordAbsorbed(kernels, data, r);
  }

  /** Comparing two words that ask for themselves: the first one is folded first. */
  lemma PlainCompared(kernels: Kernels, a: Item, b: Item, r: Results)
    requires Value(a.data16) / 128 % 2 == 0 && Value(a.data16) % 8 >= 2
    requires Value(b.data16) / 128 % 2 == 0 && Value(b.data16) % 8 >= 2
    ensures var c := Compare(CmpComplex, kernels, a, b, r);
      && c.diff == Value(a.data16) % 128 - Value(b.data16) % 128
      && c.results == r.(crc := CrcFold([a.data16, b.data16], r.crc))
  {
    PlainCall(kernels, a.data16, r);
    PlainCall(kernels, b.data16, r.(crc := Crc(a.data16, r.crc)));
    assert [a.data16, b.data16][1..] == [b.data16] && [b.data16][1..] == [];
    assert CrcFold([b.data16], Crc(a.data16, r.crc)) == Crc(b.data16, Crc(a.data16, r.crc));
  }

  lemma ZeroValue(w: Half)
    ensures Value(w) == 0 <==> w == Zero(16)
  {
    ValueBits(w);
    if w != Zero(16) {
      var i :| 0 <= i < 16 && w[i];
      assert Bit(Value(w), i);
      ZeroHasNoBits(i);
    } else {
      ZeroOf(16);
    }
  }

  lemma {:induction false} ZeroOf(n: nat)
    ensures Value(Zero(n)) == 0
  {
    if n > 0 {
      assert Zero(n)[..n - 1] == Zero(n - 1);
      ZeroOf(n - 1);
    }
  }

  // ---------- Sortedness ----------

  /** By the order, and by original position among items that it does not tell apart. */
  predicate Before(cmp: Comparator, x: Item, y: Item) {
    Leq(cmp, x, y) && (Leq(cmp, y, x) ==> x.pos < y.pos)
  }

  lemma LeqTotal(cmp: Comparator, x: Item, y: Item)
    requires Preordered(cmp)
    ensures Leq(cmp, x, y) || Leq(cmp, y, x)
  {}

  lemma LeqTransitive(cmp: Comparator, x: Item, y: Item, z: Item)
    requires Preordered(cmp) && Leq(cmp, x, y) && Leq(cmp, y, z)
    ensures Leq(cmp, x, z)
  {}

  lemma BeforeTransitive(cmp: Comparator, x: Item, y: Item, z: Item)
    requires Preordered(cmp) && Before(cmp, x, y) && Before(cmp, y, z)
    ensures Before(cmp, x, z)
  {
    LeqTransitive(cmp, x, y, z);
    if Leq(cmp, z, x) {
      LeqTransitive(cmp, y, z, x);
      LeqTransitive(cmp, z, x, y);
    }
  }

  ghost predicate Ordered(cmp: Comparator, items: seq<Item>) {
    forall i, j | 0 <= i < j < |items| :: Before(cmp, items[i], items[j])
  }

  ghost predicate AllSettled(cmp: Comparator, items: seq<Item>) {
    forall i | 0 <= i < |items| :: Settled(cmp, items[i])
  }

  ghost predicate PositionsIn(items: seq<Item>, lo: nat, hi: nat) {
    forall i | 0 <= i < |items| :: lo <= items[i].pos < hi
  }

  /** A run: original positions `lo..hi`; once it has two items they are settled and in order. */
  ghost predicate Run(cmp: Comparator, items: seq<Item>, lo: nat, hi: nat) {
    && PositionsIn(items, lo, hi)
    && (|items| >= 2 ==> AllSettled(cmp, items) && Ordered(cmp, items))
  }

  lemma {:induction false} CoresConcat(a: seq<Item>, b: seq<Item>)
    ensures Cores(a + b) == Cores(a) + Cores(b)
  {}

  /** Two settled runs in order, the first from earlier positions. */
  ghost predicate Mergeable(cmp: Comparator, ps: seq<Item>, qs: seq<Item>) {
    && AllSettled(cmp, ps) && AllSettled(cmp, qs)
    && Ordered(cmp, ps) && Ordered(cmp, qs)
    && forall i, j | 0 <= i < |ps| && 0 <= j < |qs| :: ps[i].pos < qs[j].pos
  }

  /** The next item of a merge precedes what is left, and the rest can be merged. */
  lemma MergeHead(cmp: Comparator, kernels: Kernels, ps: seq<Item>, qs: seq<Item>, r: Results)
    requires Preordered(cmp) && |ps| > 0 && |qs| > 0 && Mergeable(cmp, ps, qs)
    ensures var c := Compare(cmp, kernels, ps[0], qs[0], r);
      && c.a == ps[0] && c.b == qs[0] && c.results == r
      && (c.diff <= 0 ==> Mergeable(cmp, ps[1..], qs) && Before(cmp, ps[0], qs[0]))
      && (c.diff > 0 ==> Mergeable(cmp, ps, qs[1..]) && Before(cmp, qs[0], ps[0]))
    ensures [qs[0]] + qs[1..] == qs && [ps[0]] + ps[1..] == ps
  {
    CompareSettles(cmp, kernels, ps[0], qs[0], r);
    LeqTotal(cmp, ps[0], qs[0]);
  }

  /** An item before the first of an ordered list is before all of it. */
  lemma BeforeAll(cmp: Comparator, x: Item, a: seq<Item>)
    requires Preordered(cmp) && Ordered(cmp, a) && (|a| > 0 ==> Before(cmp, x, a[0]))
    ensures forall i | 0 <= i < |a| :: Before(cmp, x, a[i])
  {
    forall i | 0 < i < |a| ensures Before(cmp, x, a[i]) {
      BeforeTransitive(cmp, x, a[0], a[i]);
    }
  }

  /** Putting an item in front of a rearrangement of two lists that it precedes. */
  lemma ConsOrdered(cmp: Comparator, x: Item, rest: seq<Item>, a: seq<Item>, b: seq<Item>)
    requires Preordered(cmp) && multiset(rest) == multiset(a) + multiset(b)
    requires Ordered(cmp, rest) && AllSettled(cmp, rest) && Settled(cmp, x)
    requires Ordered(cmp, a) && (|a| > 0 ==> Before(cmp, x, a[0]))
    requires Ordered(cmp, b) && (|b| > 0 ==> Before(cmp, x, b[0]))
    ensures Ordered(cmp, [x] + rest) && AllSettled(cmp, [x] + rest)
  {
    BeforeAll(cmp, x, a);
    BeforeAll(cmp, x, b);
    forall y <- rest ensures Before(cmp, x, y) {
      assert y in multiset(rest);
      assert y in a || y in b;
    }
    forall i, j | 0 <= i < j < |[x] + rest| ensures Before(cmp, ([x] + rest)[i], ([x] + rest)[j]) {
      if i == 0 {
        assert ([x] + rest)[j] in rest;
      }
    }
  }

  /** `m` is an ordered rearrangement of two lists of settled items, made without side effects. */
  ghost predicate Merges(cmp: Comparator, m: Merged, ps: seq<Item>, qs: seq<Item>, r: Results) {
    && multiset(m.items) == multiset(ps) + multiset(qs)
    && Ordered(cmp, m.items) && AllSettled(cmp, m.items)
    && m.results == r
  }

  lemma HeadAndTail(items: seq<Item>)
    requires |items| > 0
    ensures multiset(items) == multiset{items[0]} + multiset(items[1..])
  {
    assert items == [items[0]] + items[1..];
  }

  lemma TakeFirst(cmp: Comparator, m: Merged, ps: seq<Item>, qs: seq<Item>, r: Results)
    requires Preordered(cmp) && |ps| > 0 && |qs| > 0 && Mergeable(cmp, ps, qs) && Before(cmp, ps[0], qs[0])
    requires Merges(cmp, m, ps[1..], qs, r)
    ensures Merges(cmp, m.(items := [ps[0]] + m.items), ps, qs, r)
  {
    ConsOrdered(cmp, ps[0], m.items, ps[1..], qs);
    HeadAndTail(ps);
  }

  lemma TakeSecond(cmp: Comparator, m: Merged, ps: seq<Item>, qs: seq<Item>, r: Results)
    requires Preordered(cmp) && |ps| > 0 && |qs| > 0 && Mergeable(cmp, ps, qs) && Before(cmp, qs[0], ps[0])
    requires Merges(cmp, m, ps, qs[1..], r)
    ensures Merges(cmp, m.(items := [qs[0]] + m.items), ps, qs, r)
  {
    ConsOrdered(cmp, qs[0], m.items, ps, qs[1..]);
    HeadAndTail(qs);
  }

  /** Merging settled, ordered runs gives an ordered rearrangement and has no side effects. */
  lemma {:induction false} MergeSettled(cmp: Comparator, kernels: Kernels, ps: seq<Item>, qs: seq<Item>, r: Results)
    requires Preordered(cmp) && Mergeable(cmp, ps, qs)
    ensures Merges(cmp, Merge(cmp, kernels, ps, qs, r), ps, qs, r)
    decreases |ps| + |qs|
  {
    if |ps| > 0 && |qs| > 0 {
      MergeHead(cmp, kernels, ps, qs, r);
      if Compare(cmp, kernels, ps[0], qs[0], r).diff <= 0 {
        MergeSettled(cmp, kernels, ps[1..], qs, r);
        TakeFirst(cmp, Merge(cmp, kernels, ps[1..], qs, r), ps, qs, r);
      } else {
        MergeSettled(cmp, kernels, ps, qs[1..], r);
        TakeSecond(cmp, Merge(cmp, kernels, ps, qs[1..], r), ps, qs, r);
      }
    }
  }

  lemma SplitOut(items: seq<Item>, j: nat) returns (rest: seq<Item>)
    requires j < |items|
    ensures |rest| == |items| - 1
    ensures multiset(rest) == multiset(items) - multiset{items[j]}
    ensures multiset(Cores(items)) == multiset{CoreOf(items[j])} + multiset(Cores(rest))
  {
    var before, after := items[..j], items[j + 1..];
    rest := before + after;
    assert items == before + [items[j]] + after;
    assert Cores(items) == Cores(before) + [CoreOf(items[j])] + Cores(after);
    assert Cores(rest) == Cores(before) + Cores(after);
  }

  lemma {:induction false} CoresRearranged(a: seq<Item>, b: seq<Item>)
    requires multiset(a) == multiset(b)
    ensures multiset(Cores(a)) == multiset(Cores(b))
    decreases |a|
  {
    if |a| == 0 {
      assert |multiset(b)| == 0;
    } else {
      assert a[0] in multiset(b);
      var j :| 0 <= j < |b| && b[j] == a[0];
      var restA := SplitOut(a, 0);
      var restB := SplitOut(b, j);
      CoresRearranged(restA, restB);
    }
  }

  /** The first comparison of a merge settles both heads; merging goes on as if they had been settled. */
  lemma MergeSettlesHeads(cmp: Comparator, kernels: Kernels, ps: seq<Item>, qs: seq<Item>, r: Results)
    requires |ps| > 0 && |qs| > 0
    ensures var c := Compare(cmp, kernels, ps[0], qs[0], r);
      Merge(cmp, kernels, ps, qs, r) == Merge(cmp, kernels, [c.a] + ps[1..], [c.b] + qs[1..], c.results)
  {
    var c := Compare(cmp, kernels, ps[0], qs[0], r);
    CompareSettles(cmp, kernels, ps[0], qs[0], r);
    CompareSettles(cmp, kernels, c.a, c.b, c.results);
    var ps', qs' := [c.a] + ps[1..], [c.b] + qs[1..];
    assert ps'[0] == c.a && ps'[1..] == ps[1..] && qs'[0] == c.b && qs'[1..] == qs[1..];
  }

  /** `out` has the items of `ps` and `qs`, up to what comparisons may change. */
  ghost predicate SameCores(out: seq<Item>, items: seq<Item>) {
    multiset(Cores(out)) == multiset(Cores(items))
  }

  /** A run whose head has been settled is settled and ordered throughout. */
  lemma SettleHead(cmp: Comparator, items: seq<Item>, head: Item, lo: nat, hi: nat)
    requires Run(cmp, items, lo, hi) && |items| > 0
    requires Settled(cmp, head) && CoreOf(head) == CoreOf(items[0])
    requires Settled(cmp, items[0]) ==> head == items[0]
    ensures var items' := [head] + items[1..];
      && AllSettled(cmp, items') && Ordered(cmp, items') && PositionsIn(items', lo, hi)
      && Cores(items') == Cores(items)
  {
    if |items| >= 2 {
      assert [head] + items[1..] == items;
    }
  }

  /** After their first comparison two runs are settled throughout and can be merged. */
  lemma SettledRunsMergeable(cmp: Comparator, kernels: Kernels, ps: seq<Item>, qs: seq<Item>, r: Results, lo: nat,
          mid: nat, hi: nat)
    requires Run(cmp, ps, lo, mid) && Run(cmp, qs, mid, hi)
    requires |ps| > 0 && |qs| > 0
    ensures var c := Compare(cmp, kernels, ps[0], qs[0], r);
      var ps', qs' := [c.a] + ps[1..], [c.b] + qs[1..];
      && Mergeable(cmp, ps', qs')
      && Cores(ps' + qs') == Cores(ps + qs)
      && PositionsIn(ps', lo, mid) && PositionsIn(qs', mid, hi)
  {
    var c := Compare(cmp, kernels, ps[0], qs[0], r);
    CompareSettles(cmp, kernels, ps[0], qs[0], r);
    SettleHead(cmp, ps, c.a, lo, mid);
    SettleHead(cmp, qs, c.b, mid, hi);
    CoresConcat([c.a] + ps[1..], [c.b] + qs[1..]);
    CoresConcat(ps, qs);
  }

  lemma MergedIsRun(cmp: Comparator, m: Merged, ps: seq<Item>, qs: seq<Item>, r: Results, lo: nat, mid: nat, hi: nat)
    requires Merges(cmp, m, ps, qs, r) && lo <= mid <= hi
    requires PositionsIn(ps, lo, mid) && PositionsIn(qs, mid, hi)
    ensures Run(cmp, m.items, lo, hi) && SameCores(m.items, ps + qs)
  {
    assert multiset(m.items) == multiset(ps + qs);
    CoresRearranged(m.items, ps + qs);
    forall i | 0 <= i < |m.items| ensures lo <= m.items[i].pos < hi {
      assert m.items[i] in multiset(ps + qs);
      assert m.items[i] in ps || m.items[i] in qs;
    }
  }

  /** Two neighbouring runs merge into one run. */
  lemma MergeRuns(cmp: Comparator, kernels: Kernels, ps: seq<Item>, qs: seq<Item>, r: Results, lo: nat, mid: nat,
          hi: nat)
    requires Preordered(cmp) && Run(cmp, ps, lo, mid) && Run(cmp, qs, mid, hi) && lo <= mid <= hi
    ensures var m := Merge(cmp, kernels, ps, qs, r);
      Run(cmp, m.items, lo, hi) && SameCores(m.items, ps + qs)
  {
    if |ps| == 0 {
      assert ps + qs == qs;
    } else if |qs| == 0 {
      assert ps + qs == ps;
    } else {
      var c := Compare(cmp, kernels, ps[0], qs[0], r);
      var ps', qs' := [c.a] + ps[1..], [c.b] + qs[1..];
      SettledRunsMergeable(cmp, kernels, ps, qs, r, lo, mid, hi);
      MergeSettlesHeads(cmp, kernels, ps, qs, r);
      MergeSettled(cmp, kernels, ps', qs', c.results);
      MergedIsRun(cmp, Merge(cmp, kernels, ps', qs', c.results), ps', qs', c.results, lo, mid, hi);
    }
  }

  /** The list falls into runs of `w` consecutive original positions. */
  ghost predicate Runs(cmp: Comparator, w: nat, items: seq<Item>, lo: nat)
    requires w > 0
    decreases |items|
  {
    |items| == 0 ||
    var i := Min(w, |items|);
    Run(cmp, items[..i], lo, lo + i) && Runs(cmp, w, items[i..], lo + i)
  }

  lemma {:induction false} SameCoresConcat(a: seq<Item>, a': seq<Item>, b: seq<Item>, b': seq<Item>)
    requires SameCores(a, a') && SameCores(b, b')
    ensures SameCores(a + b, a' + b')
  {
    CoresConcat(a, b);
    CoresConcat(a', b');
  }

  lemma FirstRun(cmp: Comparator, w: nat, items: seq<Item>, lo: nat)
    requires w > 0 && Runs(cmp, w, items, lo)
    ensures var i := Min(w, |items|);
      Run(cmp, items[..i], lo, lo + i) && Runs(cmp, w, items[i..], lo + i)
  {}

  lemma SliceConcat(items: seq<Item>, i: nat, j: nat)
    requires i <= j <= |items|
    ensures items[..i] + items[i..j] == items[..j] && items[..j] + items[j..] == items
  {}

  lemma SliceOfTail(items: seq<Item>, i: nat, j: nat)
    requires i <= j <= |items|
    ensures items[i..][..j - i] == items[i..j] && items[i..][j - i..] == items[j..]
  {}

  lemma RunFrom(cmp: Comparator, w: nat, items: seq<Item>, i: nat, j: nat, lo: nat)
    requires w > 0 && i <= j <= |items| && j - i == Min(w, |items| - i) && Runs(cmp, w, items[i..], lo)
    ensures Run(cmp, items[i..j], lo, lo + (j - i)) && Runs(cmp, w, items[j..], lo + (j - i))
  {
    FirstRun(cmp, w, items[i..], lo);
    SliceOfTail(items, i, j);
  }

  /** The second run of a list that falls into runs, and the runs after it. */
  lemma SecondRun(cmp: Comparator, w: nat, items: seq<Item>, lo: nat)
    requires w > 0 && Runs(cmp, w, items, lo)
    ensures var i, j := Min(w, |items|), Min(2 * w, |items|);
      Run(cmp, items[i..j], lo + i, lo + j) && Runs(cmp, w, items[j..], lo + j)
  {
    var i, j := Min(w, |items|), Min(2 * w, |items|);
    FirstRun(cmp, w, items, lo);
    RunFrom(cmp, w, items, i, j, lo + i);
  }

  /** A full run in front of a list that falls into runs; a short one only at the end. */
  lemma PrependRun(cmp: Comparator, w: nat, run: seq<Item>, rest: seq<Item>, lo: nat)
    requires w > 0 && 0 < |run| <= w && (|run| < w ==> rest == [])
    requires Run(cmp, run, lo, lo + |run|) && Runs(cmp, w, rest, lo + |run|)
    ensures Runs(cmp, w, run + rest, lo)
  {
    assert (run + rest)[..|run|] == run && (run + rest)[|run|..] == rest;
  }

  /** What a pass should make of a list that falls into runs. */
  ghost predicate RunsOf(cmp: Comparator, w: nat, out: seq<Item>, items: seq<Item>, lo: nat)
    requires w > 0
  {
    |out| == |items| && Runs(cmp, w, out, lo) && SameCores(out, items)
  }

  /** A run that the first merge of a pass should make. */
  ghost predicate JoinsTwo(cmp: Comparator, w: nat, run: seq<Item>, items: seq<Item>, lo: nat) {
    var j := Min(2 * w, |items|);
    |run| == j && Run(cmp, run, lo, lo + j) && SameCores(run, items[..j])
  }

  lemma PrependJoined(cmp: Comparator, w: nat, run: seq<Item>, out: seq<Item>, items: seq<Item>, lo: nat)
    requires w > 0 && |items| > 0 && JoinsTwo(cmp, w, run, items, lo)
    requires var j := Min(2 * w, |items|); RunsOf(cmp, 2 * w, out, items[j..], lo + j)
    ensures RunsOf(cmp, 2 * w, run + out, items, lo)
  {
    var j := Min(2 * w, |items|);
    PrependRun(cmp, 2 * w, run, out, lo);
    SameCoresConcat(run, items[..j], out, items[j..]);
    SliceConcat(items, j, j);
  }

  /** The first merge of a pass joins the first two runs. */
  lemma FirstMerge(cmp: Comparator, kernels: Kernels, w: nat, items: seq<Item>, r: Results, lo: nat)
    requires Preordered(cmp) && w > 0 && |items| > 0 && Runs(cmp, w, items, lo)
    ensures var i, j := Min(w, |items|), Min(2 * w, |items|);
      && JoinsTwo(cmp, w, Merge(cmp, kernels, items[..i], items[i..j], r).items, items, lo)
      && Runs(cmp, w, items[j..], lo + j)
  {
    var i, j := Min(w, |items|), Min(2 * w, |items|);
    FirstRun(cmp, w, items, lo);
    SecondRun(cmp, w, items, lo);
    MergeRuns(cmp, kernels, items[..i], items[i..j], r, lo, lo + i, lo + j);
    MergeLength(cmp, kernels, items[..i], items[i..j], r);
    SliceConcat(items, i, j);
  }

  /** A pass turns runs of length `w` into runs of length `2 * w`. */
  lemma {:induction false} PassDoublesRuns(cmp: Comparator, kernels: Kernels, w: nat, items: seq<Item>, r: Results,
          lo: nat)
    requires Preordered(cmp) && w > 0 && Runs(cmp, w, items, lo)
    ensures RunsOf(cmp, 2 * w, Pass(cmp, kernels, w, items, r).items, items, lo)
    decreases |items|
  {
    if |items| > 0 {
      var i, j := Min(w, |items|), Min(2 * w, |items|);
      var m := Merge(cmp, kernels, items[..i], items[i..j], r);
      FirstMerge(cmp, kernels, w, items, r, lo);
      PassDoublesRuns(cmp, kernels, w, items[j..], m.results, lo + j);
      PrependJoined(cmp, w, m.items, Pass(cmp, kernels, w, items[j..], m.results).items, items, lo);
    }
  }

  lemma {:induction false} SortSorts(cmp: Comparator, kernels: Kernels, w: nat, items: seq<Item>, r: Results)
    requires Preordered(cmp) && w > 0 && Runs(cmp, w, items, 0)
    ensures var s := Sort(cmp, kernels, w, items, r);
      |s.items| == |items| && Run(cmp, s.items, 0, |items|) && SameCores(s.items, items)
    decreases |items| - w
  {
    PassDoublesRuns(cmp, kernels, w, items, r, 0);
    var p := Pass(cmp, kernels, w, items, r);
    if |items| <= 2 * w {
      assert |items| > 0 ==> p.items[..Min(2 * w, |items|)] == p.items;
    } else {
      SortSorts(cmp, kernels, 2 * w, p.items, p.results);
    }
  }

  /** The positions of the items are their places in the list. */
  ghost predicate InPlace(items: seq<Item>, lo: nat) {
    forall i | 0 <= i < |items| :: items[i].pos == lo + i
  }

  lemma {:induction false} SingletonRuns(cmp: Comparator, items: seq<Item>, lo: nat)
    requires InPlace(items, lo)
    ensures Runs(cmp, 1, items, lo)
  {
    if |items| > 0 {
      SingletonRuns(cmp, items[1..], lo + 1);
    }
  }

  // ---------- Comparisons that change nothing ----------

  /** `m` is a rearrangement of settled items, made without side effects. */
  ghost predicate Rearranges(cmp: Comparator, m: Merged, items: multiset<Item>, r: Results) {
    multiset(m.items) == items && AllSettled(cmp, m.items) && m.results == r
  }

  lemma TakeFromFirst(cmp: Comparator, m: Merged, ps: seq<Item>, qs: seq<Item>, r: Results)
    requires |ps| > 0 && Settled(cmp, ps[0]) && Rearranges(cmp, m, multiset(ps[1..]) + multiset(qs), r)
    ensures Rearranges(cmp, m.(items := [ps[0]] + m.items), multiset(ps) + multiset(qs), r)
  {
    HeadAndTail(ps);
  }

  lemma TakeFromSecond(cmp: Comparator, m: Merged, ps: seq<Item>, qs: seq<Item>, r: Results)
    requires |qs| > 0 && Settled(cmp, qs[0]) && Rearranges(cmp, m, multiset(ps) + multiset(qs[1..]), r)
    ensures Rearranges(cmp, m.(items := [qs[0]] + m.items), multiset(ps) + multiset(qs), r)
  {
    HeadAndTail(qs);
  }

  lemma CompareSettled(cmp: Comparator, kernels: Kernels, ps: seq<Item>, qs: seq<Item>, r: Results)
    requires |ps| > 0 && |qs| > 0 && Settled(cmp, ps[0]) && Settled(cmp, qs[0])
    ensures var c := Compare(cmp, kernels, ps[0], qs[0], r);
      c.results == r && [c.a] + ps[1..] == ps && [c.b] + qs[1..] == qs
  {
    CompareSettles(cmp, kernels, ps[0], qs[0], r);
  }

  lemma {:induction false} MergeRearranges(cmp: Comparator, kernels: Kernels, ps: seq<Item>, qs: seq<Item>, r: Results)
    requires AllSettled(cmp, ps) && AllSettled(cmp, qs)
    ensures Rearranges(cmp, Merge(cmp, kernels, ps, qs, r), multiset(ps) + multiset(qs), r)
    decreases |ps| + |qs|
  {
    if |ps| > 0 && |qs| > 0 {
      CompareSettled(cmp, kernels, ps, qs, r);
      if Compare(cmp, kernels, ps[0], qs[0], r).diff <= 0 {
        MergeRearranges(cmp, kernels, ps[1..], qs, r);
        TakeFromFirst(cmp, Merge(cmp, kernels, ps[1..], qs, r), ps, qs, r);
      } else {
        MergeRearranges(cmp, kernels, ps, qs[1..], r);
        TakeFromSecond(cmp, Merge(cmp, kernels, ps, qs[1..], r), ps, qs, r);
      }
    }
  }

  lemma {:induction false} PassRearranges(cmp: Comparator, kernels: Kernels, w: nat, items: seq<Item>, r: Results)
    requires w > 0 && AllSettled(cmp, items)
    ensures Rearranges(cmp, Pass(cmp, kernels, w, items, r), multiset(items), r)
    decreases |items|
  {
    if |items| > 0 {
      var i, j := Min(w, |items|), Min(2 * w, |items|);
      MergeRearranges(cmp, kernels, items[..i], items[i..j], r);
      PassRearranges(cmp, kernels, w, items[j..], r);
      SliceConcat(items, i, j);
      assert multiset(items) == multiset(items[..j]) + multiset(items[j..]);
      assert multiset(items[..j]) == multiset(items[..i]) + multiset(items[i..j]);
    }
  }

  /** A comparison function that has nothing left to change only rearranges the items, and leaves the results alone. */
  lemma {:induction false} SortRearranges(cmp: Comparator, kernels: Kernels, w: nat, items: seq<Item>, r: Results)
    requires w > 0 && AllSettled(cmp, items)
    ensures Rearranges(cmp, Sort(cmp, kernels, w, items, r), multiset(items), r)
    decreases |items| - w
  {
    PassRearranges(cmp, kernels, w, items, r);
    PassLength(cmp, kernels, w, items, r);
    if |items| > 2 * w {
      SortRearranges(cmp, kernels, 2 * w, Pass(cmp, kernels, w, items, r).items, r);
    }
  }

  // ---------- The result ----------

  /** The items are ordered, and equal ones stay as they stood. */
  ghost predicate SortedStably(cmp: Comparator, items: seq<Item>, sorted: seq<Item>) {
    && |sorted| == |items|
    && multiset(Cores(sorted)) == multiset(Cores(items))
    && (|items| >= 2 ==> AllSettled(cmp, sorted) && Ordered(cmp, sorted))
    && (AllSettled(cmp, items) ==> multiset(sorted) == multiset(items))
  }

  /**
   For every comparison function that is a total preorder, the sort rearranges the
   items, keeping index and high byte of each; a list of at least two items ends up
   settled throughout and ordered, items that the order does not tell apart in their
   original order. If comparisons have nothing to change, not even the low bytes and
   the results change.
   */
  lemma MergesortCorrect(cmp: Comparator, kernels: Kernels, items: seq<Item>, r: Results)
    requires Preordered(cmp) && InPlace(items, 0)
    ensures SortedStably(cmp, items, Sort(cmp, kernels, 1, items, r).items)
    ensures AllSettled(cmp, items) ==> Sort(cmp, kernels, 1, items, r).results == r
  {
    SingletonRuns(cmp, items, 0);
    SortSorts(cmp, kernels, 1, items, r);
    if AllSettled(cmp, items) {
      SortRearranges(cmp, kernels, 1, items, r);
    }
  }
}
