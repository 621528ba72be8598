/**
 CoreMark's linked list in memory, and its in-place merge sort, proved against the
 sort on list items.
 */
module CoreList {
  import opened Common
  import opened Words
  import opened CoreCrc
  import opened CoreSort

  class ListData {
    var data16: Half
    var idx: int

    constructor (data16: Half, idx: int)
      ensures this.data16 == data16 && this.idx == idx
    {
      this.data16 := data16;
      this.idx := idx;
    }
  }

  class ListHead {
    var next: ListHead?
    var info: ListData

    constructor (next: ListHead?, info: ListData)
      ensures this.next == next && this.info == info
    {
      this.next := next;
      this.info := info;
    }
  }

  /** The part of `core_results` that the list benchmark uses; `calls` numbers the kernel calls. */
  class CoreResults {
    const list: ListHead
    const seed3: int
    var crc: Half
    var crcstate: Half
    var crcmatrix: Half
    var calls: nat
    const kernels: Kernels

    constructor (list: ListHead, seed3: int, kernels: Kernels)
      ensures this.list == list && this.seed3 == seed3 && this.kernels == kernels
    {
      this.list := list;
      this.seed3 := seed3;
      this.kernels := kernels;
      this.crc, this.crcstate, this.crcmatrix, this.calls := Zero(16), Zero(16), Zero(16), 0;
    }

    ghost function Snapshot(): Results
      reads this
    {
      Results(crc, crcstate, crcmatrix, calls)
    }
  }

  // ---------- What a chain of nodes holds ----------

  /** The benchmark's results pointer may be null; then nothing of it matters. */
  ghost function SnapshotOf(res: CoreResults?): Results
    reads res
  {
    if res == null then Results(Zero(16), Zero(16), Zero(16), 0) else res.Snapshot()
  }

  ghost function KernelsOf(res: CoreResults?): Kernels {
    if res == null then Kernels((_, _, _) => Zero(16), (_, _, _) => Zero(16)) else res.kernels
  }

  /** `cmp_complex` needs the results; for `cmp_idx` a null pointer is the request to regenerate. */
  predicate CalledWith(cmp: Comparator, res: CoreResults?) {
    (cmp.CmpComplex? ==> res != null) && (cmp.CmpIdx? ==> cmp.regenerates == (res == null))
  }

  /** Different places hold different nodes with different data records, and these are `infos`. */
  ghost predicate Apart(nodes: seq<ListHead>, infos: seq<ListData>)
    reads nodes`info
  {
    && |infos| == |nodes|
    && (forall i, j | 0 <= i < j < |nodes| :: nodes[i] != nodes[j])
    && (forall i, j | 0 <= i < j < |infos| :: infos[i] != infos[j])
    && (forall i | 0 <= i < |nodes| :: nodes[i].info == infos[i])
  }

  ghost predicate InRange(nodes: seq<ListHead>, items: seq<Item>) {
    forall i | 0 <= i < |items| :: items[i].pos < |nodes|
  }

  ghost function NodeAt(nodes: seq<ListHead>, items: seq<Item>, i: nat): ListHead
    requires InRange(nodes, items) && i < |items|
  {
    nodes[items[i].pos]
  }

  ghost function HeadOf(nodes: seq<ListHead>, items: seq<Item>): ListHead?
    requires InRange(nodes, items)
  {
    if |items| == 0 then null else NodeAt(nodes, items, 0)
  }

  ghost function LastOf(nodes: seq<ListHead>, items: seq<Item>): ListHead?
    requires InRange(nodes, items)
  {
    if |items| == 0 then null else NodeAt(nodes, items, |items| - 1)
  }

  ghost function Data(infos: seq<ListData>): (d: seq<Datum>)
    reads infos
    ensures |d| == |infos|
  {
    seq(|infos|, i requires 0 <= i < |infos| reads infos => Datum(infos[i].data16, infos[i].idx))
  }

  /** The data at the items' positions is that of the items. */
  ghost predicate Holds(data: seq<Datum>, items: seq<Item>) {
    forall i | 0 <= i < |items| :: items[i].pos < |data| && data[items[i].pos] == Datum(items[i].data16, items[i].idx)
  }

  /** The links of all the nodes. */
  ghost function Links(nodes: seq<ListHead>): (l: seq<ListHead?>)
    reads nodes
    ensures |l| == |nodes|
  {
    seq(|nodes|, i requires 0 <= i < |nodes| reads nodes => nodes[i].next)
  }

  /** The nodes of the items are linked one to the next; the last one's link is not looked at. */
  ghost predicate Linked(nodes: seq<ListHead>, links: seq<ListHead?>, items: seq<Item>)
    requires |links| == |nodes| && InRange(nodes, items)
  {
    forall i | 0 <= i < |items| - 1 :: links[items[i].pos] == nodes[items[i + 1].pos]
  }

  /** A linked, null-terminated list. */
  ghost predicate Terminated(nodes: seq<ListHead>, links: seq<ListHead?>, items: seq<Item>)
    requires |links| == |nodes| && InRange(nodes, items)
  {
    Linked(nodes, links, items) && (|items| > 0 ==> links[items[|items| - 1].pos] == null)
  }

  ghost predicate DistinctPositions(items: seq<Item>) {
    forall i, j | 0 <= i < j < |items| :: items[i].pos != items[j].pos
  }

  ghost predicate DisjointPositions(a: seq<Item>, b: seq<Item>) {
    forall i, j | 0 <= i < |a| && 0 <= j < |b| :: a[i].pos != b[j].pos
  }

  /** A list in memory: the nodes of the items, in order, with their data. */
  ghost predicate IsList(nodes: seq<ListHead>, infos: seq<ListData>, head: ListHead?, items: seq<Item>)
    reads nodes, infos
  {
    && InRange(nodes, items) && DistinctPositions(items)
    && head == HeadOf(nodes, items)
    && Terminated(nodes, Links(nodes), items) && Holds(Data(infos), items)
  }

  // ---------- Comparators ----------

  method CalcFunction(pdata: ListData, res: CoreResults) returns (retval: nat)
    modifies pdata`data16, res`crc, res`crcstate, res`crcmatrix, res`calls
    ensures var c := CalcFunc(res.kernels, old(pdata.data16), old(res.Snapshot()));
      retval == c.retval && pdata.data16 == c.data && res.Snapshot() == c.results
  {
    var data := pdata.data16;
    if data[7] {
      return Value(data[..7]);
    }
    var flag := Value(data[..3]);
    var dtype := Value(data[3..7] + data[3..7]);
    var value: Half;
    if flag == 0 {
      if dtype < 0x22 {
        dtype := 0x22;
      }
      value := res.kernels.state(res.calls, dtype, res.crc);
      res.calls := res.calls + 1;
      if res.crcstate == Zero(16) {
        res.crcstate := value;
      }
    } else if flag == 1 {
      value := res.kernels.matrix(res.calls, dtype, res.crc);
      res.calls := res.calls + 1;
      if res.crcmatrix == Zero(16) {
        res.crcmatrix := value;
      }
    } else {
      value := data;
    }
    res.crc := Crcu16(value, res.crc);
    pdata.data16 := value[..7] + [true] + data[8..];
    retval := Value(value[..7]);
  }

  method CompareItems(cmp: Comparator, a: ListData, b: ListData, res: CoreResults?, ghost i: nat, ghost j: nat)
    returns (diff: int)
    requires a != b && CalledWith(cmp, res)
    modifies a`data16, b`data16, ResultsFrame(res)`crc, ResultsFrame(res)`crcstate, ResultsFrame(res)`crcmatrix,
            ResultsFrame(res)`calls
    ensures
      var c := Compare(cmp, KernelsOf(res), Item(i, a.idx, old(a.data16)), Item(j, b.idx, old(b.data16)),
        old(SnapshotOf(res)));
      && diff == c.diff && SnapshotOf(res) == c.results
      && c.a == Item(i, a.idx, a.data16) && c.b == Item(j, b.idx, b.data16)
  {
    match cmp {
      case CmpComplex =>
        var val1 := CalcFunction(a, res);
        var val2 := CalcFunction(b, res);
        diff := val1 as int - val2 as int;
      case CmpIdx(_) =>
        if res == null {
          a.data16 := a.data16[8..] + a.data16[8..];
          b.data16 := b.data16[8..] + b.data16[8..];
        }
        diff := a.idx - b.idx;
      case CmpOther(f) =>
        diff := f(Datum(a.data16, a.idx), Datum(b.data16, b.idx));
    }
  }

  // ---------- Merging ----------

  /**
   A merge under way, for given links and data of the nodes: nodes already output, the
   rest of the first run, and everything after it.
   */
  ghost predicate LayoutIn(nodes: seq<ListHead>, links: seq<ListHead?>, data: seq<Datum>, list: ListHead?,
          tail: ListHead?, out: seq<Item>, ps: seq<Item>, qs: seq<Item>)
    requires |links| == |nodes|
  {
    && InRange(nodes, out) && InRange(nodes, ps) && InRange(nodes, qs)
    && DistinctPositions(out) && DistinctPositions(ps) && DistinctPositions(qs)
    && DisjointPositions(out, ps) && DisjointPositions(out, qs) && DisjointPositions(ps, qs)
    && list == HeadOf(nodes, out) && tail == LastOf(nodes, out)
    && Linked(nodes, links, out) && Linked(nodes, links, ps) && Terminated(nodes, links, qs)
    && Holds(data, out) && Holds(data, ps) && Holds(data, qs)
  }

  ghost predicate Layout(nodes: seq<ListHead>, infos: seq<ListData>, list: ListHead?, tail: ListHead?, out: seq<Item>,
          ps: seq<Item>, qs: seq<Item>)
    reads nodes, infos
  {
    LayoutIn(nodes, Links(nodes), Data(infos), list, tail, out, ps, qs)
  }

  lemma PositionParts(items: seq<Item>, other: seq<Item>)
    requires |items| > 0 && DistinctPositions(items)
    requires DisjointPositions(items, other) || DisjointPositions(other, items)
    ensures DistinctPositions(items[1..]) && DisjointPositions([items[0]], items[1..])
    ensures DisjointPositions([items[0]], other) && DisjointPositions(other, [items[0]])
    ensures DisjointPositions(items[1..], other) && DisjointPositions(other, items[1..])
  {}

  lemma PositionsExtended(out: seq<Item>, x: Item, other: seq<Item>)
    requires DistinctPositions(out) && DisjointPositions(out, [x]) && DisjointPositions(out, other) &&
      DisjointPositions([x], other)
    ensures DistinctPositions(out + [x]) && DisjointPositions(out + [x], other)
  {
    assert [x][0] == x;
  }

  lemma ListTail(nodes: seq<ListHead>, links: seq<ListHead?>, items: seq<Item>)
    requires |links| == |nodes| && InRange(nodes, items) && |items| > 0 && Linked(nodes, links, items)
    ensures Linked(nodes, links, items[1..])
    ensures Terminated(nodes, links, items) ==> Terminated(nodes, links, items[1..])
    ensures |items| > 1 || Terminated(nodes, links, items) ==> links[items[0].pos] == HeadOf(nodes, items[1..])
  {}

  lemma HoldsParts(data: seq<Datum>, items: seq<Item>)
    requires |items| > 0 && Holds(data, items)
    ensures Holds(data, [items[0]]) && Holds(data, items[1..])
  {}

  /** The links after `tail->next = e`, if there is a tail. */
  ghost function Appended(nodes: seq<ListHead>, links: seq<ListHead?>, out: seq<Item>, e: ListHead): seq<ListHead?>
    requires |links| == |nodes| && InRange(nodes, out)
  {
    if |out| == 0 then links else links[out[|out| - 1].pos := e]
  }

  /** Linking the last output node to the next one disturbs nothing else. */
  lemma LinkAppended(nodes: seq<ListHead>, links: seq<ListHead?>, out: seq<Item>, x: Item, ps: seq<Item>, qs: seq<Item>)
    requires |links| == |nodes| && InRange(nodes, out) && InRange(nodes, [x]) && InRange(nodes, ps) &&
      InRange(nodes, qs)
    requires DistinctPositions(out) && DisjointPositions(out, ps) && DisjointPositions(out, qs)
    requires Linked(nodes, links, out) && Linked(nodes, links, ps) && Terminated(nodes, links, qs)
    ensures InRange(nodes, out + [x])
    ensures var links' := Appended(nodes, links, out, NodeAt(nodes, [x], 0));
      Linked(nodes, links', out + [x]) && Linked(nodes, links', ps) && Terminated(nodes, links', qs)
  {
    assert [x][0] == x;
  }

  /** The head of the first run moves to the output. */
  lemma MoveP(nodes: seq<ListHead>, links: seq<ListHead?>, data: seq<Datum>, list: ListHead?, tail: ListHead?,
          out: seq<Item>, ps: seq<Item>, qs: seq<Item>)
    requires |links| == |nodes| && LayoutIn(nodes, links, data, list, tail, out, ps, qs) && |ps| > 0
    ensures var e := HeadOf(nodes, ps);
      LayoutIn(nodes, Appended(nodes, links, out, e), data, if tail == null then e else list, e, out + [ps[0]],
        ps[1..], qs)
    ensures |ps| > 1 ==> links[ps[0].pos] == HeadOf(nodes, ps[1..])
  {
    PositionParts(ps, out);
    PositionParts(ps, qs);
    PositionsExtended(out, ps[0], ps[1..]);
    PositionsExtended(out, ps[0], qs);
    HoldsParts(data, ps);
    ListTail(nodes, links, ps);
    LinkAppended(nodes, links, out, ps[0], ps[1..], qs);
  }

  /** The head of the second run moves to the output. */
  lemma MoveQ(nodes: seq<ListHead>, links: seq<ListHead?>, data: seq<Datum>, list: ListHead?, tail: ListHead?,
          out: seq<Item>, ps: seq<Item>, qs: seq<Item>)
    requires |links| == |nodes| && LayoutIn(nodes, links, data, list, tail, out, ps, qs) && |qs| > 0
    ensures var e := HeadOf(nodes, qs);
      LayoutIn(nodes, Appended(nodes, links, out, e), data, if tail == null then e else list, e, out + [qs[0]], ps,
        qs[1..])
    ensures links[qs[0].pos] == HeadOf(nodes, qs[1..])
  {
    PositionParts(qs, out);
    PositionParts(qs, ps);
    PositionsExtended(out, qs[0], ps);
    PositionsExtended(out, qs[0], qs[1..]);
    HoldsParts(data, qs);
    ListTail(nodes, links, qs);
    LinkAppended(nodes, links, out, qs[0], ps, qs[1..]);
  }

  /** `tail->next = e`, or `list = e` for the first node. */
  method Append(ghost nodes: seq<ListHead>, ghost infos: seq<ListData>, list: ListHead?, tail: ListHead?, e: ListHead,
          ghost out: seq<Item>)
    returns (list': ListHead?, tail': ListHead?)
    requires Apart(nodes, infos) && InRange(nodes, out) && tail == LastOf(nodes, out)
    modifies nodes`next
    ensures Links(nodes) == Appended(nodes, old(Links(nodes)), out, e) && Data(infos) == old(Data(infos))
    ensures list' == (if tail == null then e else list) && tail' == e
  {
    if tail != null {
      tail.next := e;
      list' := list;
    } else {
      list' := e;
    }
    tail' := e;
  }

  ghost function ResultsFrame(res: CoreResults?): set<CoreResults> {
    if res == null then {} else {res}
  }

  /** The data after the heads of both runs have been compared. */
  ghost function WithHeads(data: seq<Datum>, a: Item, b: Item): seq<Datum>
    requires a.pos < |data| && b.pos < |data|
  {
    data[a.pos := Datum(a.data16, a.idx)][b.pos := Datum(b.data16, b.idx)]
  }

  lemma HeadsUpdated(data: seq<Datum>, out: seq<Item>, ps: seq<Item>, qs: seq<Item>, a: Item, b: Item)
    requires Holds(data, out) && Holds(data, ps) && Holds(data, qs)
    requires |ps| > 0 && |qs| > 0 && a.pos == ps[0].pos && b.pos == qs[0].pos
    requires DistinctPositions(ps) && DistinctPositions(qs)
    requires DisjointPositions(out, ps) && DisjointPositions(out, qs) && DisjointPositions(ps, qs)
    ensures var data' := WithHeads(data, a, b);
      Holds(data', out) && Holds(data', [a] + ps[1..]) && Holds(data', [b] + qs[1..])
  {}

  /** Linking and distinctness depend on positions only. */
  lemma SamePositions(nodes: seq<ListHead>, links: seq<ListHead?>, items: seq<Item>, head: Item)
    requires |links| == |nodes| && InRange(nodes, items) && |items| > 0 && head.pos == items[0].pos
    ensures var items' := [head] + items[1..];
      && InRange(nodes, items')
      && (Linked(nodes, links, items) ==> Linked(nodes, links, items'))
      && (Terminated(nodes, links, items) ==> Terminated(nodes, links, items'))
      && (DistinctPositions(items) ==> DistinctPositions(items'))
      && (forall other :: DisjointPositions(other, items) ==> DisjointPositions(other, items'))
      && (forall other :: DisjointPositions(items, other) ==> DisjointPositions(items', other))
  {
    var items' := [head] + items[1..];
    assert forall i | 0 <= i < |items| :: items'[i].pos == items[i].pos;
  }

  /** New data at the heads of both runs, everything else as before. */
  lemma CompareInLayout(nodes: seq<ListHead>, links: seq<ListHead?>, data: seq<Datum>, list: ListHead?, tail: ListHead?,
          out: seq<Item>, ps: seq<Item>, qs: seq<Item>, a: Item, b: Item)
    requires |links| == |nodes| == |data| && LayoutIn(nodes, links, data, list, tail, out, ps, qs)
    requires |ps| > 0 && |qs| > 0 && a.pos == ps[0].pos && b.pos == qs[0].pos
    ensures LayoutIn(nodes, links, WithHeads(data, a, b), list, tail, out, [a] + ps[1..], [b] + qs[1..])
  {
    HeadsUpdated(data, out, ps, qs, a, b);
    SamePositions(nodes, links, ps, a);
    SamePositions(nodes, links, qs, b);
  }

  /** Compare the heads of both runs; only their data words change. */
  method CompareHeads(ghost nodes: seq<ListHead>, ghost infos: seq<ListData>, cmp: Comparator, res: CoreResults?,
          p: ListHead, q: ListHead, ghost a: Item, ghost b: Item)
    returns (diff: int, ghost c: Compared)
    requires Apart(nodes, infos) && CalledWith(cmp, res)
    requires a.pos < |nodes| && b.pos < |nodes| && a.pos != b.pos && p == nodes[a.pos] && q == nodes[b.pos]
    requires Holds(Data(infos), [a]) && Holds(Data(infos), [b])
    modifies infos`data16, ResultsFrame(res)`crc, ResultsFrame(res)`crcstate, ResultsFrame(res)`crcmatrix,
            ResultsFrame(res)`calls
    ensures c == Compare(cmp, KernelsOf(res), a, b, old(SnapshotOf(res)))
    ensures diff == c.diff && SnapshotOf(res) == c.results
    ensures c.a.pos == a.pos && c.b.pos == b.pos && Data(infos) == WithHeads(old(Data(infos)), c.a, c.b)
    ensures Links(nodes) == old(Links(nodes))
  {
    c := Compare(cmp, KernelsOf(res), a, b, SnapshotOf(res));
    assert p in nodes && q in nodes;
    assert [a][0] == a && [b][0] == b;
    diff := CompareItems(cmp, p.info, q.info, res, a.pos, b.pos);
  }

  /** Where merging will end: what is output already, then the merge of what is left. */
  ghost predicate Heading(goal: Merged, cmp: Comparator, kernels: Kernels, out: seq<Item>, ps: seq<Item>, qs: seq<Item>,
          r: Results)
  {
    var m := Merge(cmp, kernels, ps, qs, r);
    goal == Merged(out + m.items, m.results)
  }

  /** One comparison, then the smaller head is output. */
  lemma HeadingStep(goal: Merged, cmp: Comparator, kernels: Kernels, out: seq<Item>, ps: seq<Item>, qs: seq<Item>,
          r: Results)
    requires Heading(goal, cmp, kernels, out, ps, qs, r) && |ps| > 0 && |qs| > 0
    ensures var c := Compare(cmp, kernels, ps[0], qs[0], r);
      if c.diff <= 0 then Heading(goal, cmp, kernels, out + [c.a], ps[1..], [c.b] + qs[1..], c.results)
      else Heading(goal, cmp, kernels, out + [c.b], [c.a] + ps[1..], qs[1..], c.results)
  {
    var c := Compare(cmp, kernels, ps[0], qs[0], r);
    if c.diff <= 0 {
      var m := Merge(cmp, kernels, ps[1..], [c.b] + qs[1..], c.results);
      assert out + ([c.a] + m.items) == (out + [c.a]) + m.items;
    } else {
      var m := Merge(cmp, kernels, [c.a] + ps[1..], qs[1..], c.results);
      assert out + ([c.b] + m.items) == (out + [c.b]) + m.items;
    }
  }

  lemma HeadingOnlyP(goal: Merged, cmp: Comparator, kernels: Kernels, out: seq<Item>, ps: seq<Item>, r: Results)
    requires Heading(goal, cmp, kernels, out, ps, [], r) && |ps| > 0
    ensures Heading(goal, cmp, kernels, out + [ps[0]], ps[1..], [], r)
  {
    assert out + ps == (out + [ps[0]]) + ps[1..];
  }

  lemma HeadingOnlyQ(goal: Merged, cmp: Comparator, kernels: Kernels, out: seq<Item>, qs: seq<Item>, r: Results)
    requires Heading(goal, cmp, kernels, out, [], qs, r) && |qs| > 0
    ensures Heading(goal, cmp, kernels, out + [qs[0]], [], qs[1..], r)
  {
    assert out + qs == (out + [qs[0]]) + qs[1..];
  }

  /** `e = p; p = p->next`, and `e` goes to the end of the output. */
  method OutputP(ghost nodes: seq<ListHead>, ghost infos: seq<ListData>, list: ListHead?, tail: ListHead?, p: ListHead,
          ghost out: seq<Item>, ghost ps: seq<Item>, ghost qs: seq<Item>)
    returns (list': ListHead?, tail': ListHead?, p': ListHead?)
    requires Apart(nodes, infos) && Layout(nodes, infos, list, tail, out, ps, qs) && |ps| > 0 && p == HeadOf(nodes, ps)
    modifies nodes`next
    ensures Layout(nodes, infos, list', tail', out + [ps[0]], ps[1..], qs)
    ensures |ps| > 1 ==> p' == HeadOf(nodes, ps[1..])
  {
    MoveP(nodes, Links(nodes), Data(infos), list, tail, out, ps, qs);
    p' := p.next;
    list', tail' := Append(nodes, infos, list, tail, p, out);
  }

  /** `e = q; q = q->next`, and `e` goes to the end of the output. */
  method OutputQ(ghost nodes: seq<ListHead>, ghost infos: seq<ListData>, list: ListHead?, tail: ListHead?, q: ListHead,
          ghost out: seq<Item>, ghost ps: seq<Item>, ghost qs: seq<Item>)
    returns (list': ListHead?, tail': ListHead?, q': ListHead?)
    requires Apart(nodes, infos) && Layout(nodes, infos, list, tail, out, ps, qs) && |qs| > 0 && q == HeadOf(nodes, qs)
    modifies nodes`next
    ensures Layout(nodes, infos, list', tail', out + [qs[0]], ps, qs[1..])
    ensures q' == HeadOf(nodes, qs[1..])
  {
    MoveQ(nodes, Links(nodes), Data(infos), list, tail, out, ps, qs);
    q' := q.next;
    list', tail' := Append(nodes, infos, list, tail, q, out);
  }

  /** The variables of the inner loop against the items still to merge. */
  ghost predicate Cursors(nodes: seq<ListHead>, p: ListHead?, psize: nat, q: ListHead?, qsize: nat, ps: seq<Item>,
          qs: seq<Item>, rest: seq<Item>)
    requires InRange(nodes, ps) && InRange(nodes, qs + rest)
  {
    && psize == |ps| && (psize > 0 ==> p == HeadOf(nodes, ps)) && q == HeadOf(nodes, qs + rest)
    && |qs| <= qsize && (|qs| < qsize ==> |rest| == 0)
  }

  lemma FrontOfRest(qs: seq<Item>, rest: seq<Item>)
    requires |qs| > 0
    ensures (qs + rest)[0] == qs[0] && (qs + rest)[1..] == qs[1..] + rest
  {}

  /** `p` is used up; the next node comes from `q`. */
  method StepFromQ(ghost nodes: seq<ListHead>, ghost infos: seq<ListData>, list0: ListHead?, tail0: ListHead?,
          q0: ListHead, qsize0: nat, ghost out0: seq<Item>, ghost ps: seq<Item>, ghost qs0: seq<Item>,
          ghost rest: seq<Item>)
    returns (list: ListHead?, tail: ListHead?, q: ListHead?, qsize: nat)
    requires Apart(nodes, infos) && Layout(nodes, infos, list0, tail0, out0, ps, qs0 + rest) && |qs0| > 0 && qsize0 > 0
    requires q0 == HeadOf(nodes, qs0 + rest)
    requires |qs0| <= qsize0 && (|qs0| < qsize0 ==> |rest| == 0)
    modifies nodes`next
    ensures Layout(nodes, infos, list, tail, out0 + [qs0[0]], ps, qs0[1..] + rest)
    ensures q == HeadOf(nodes, qs0[1..] + rest)
    ensures qsize == qsize0 - 1
  {
    FrontOfRest(qs0, rest);
    list, tail, q := OutputQ(nodes, infos, list0, tail0, q0, out0, ps, qs0 + rest);
    qsize := qsize0 - 1;
  }

  /** Compare the heads of both runs where they stand. */
  method CompareRuns(ghost nodes: seq<ListHead>, ghost infos: seq<ListData>, cmp: Comparator, res: CoreResults?,
          p: ListHead, q: ListHead, ghost list: ListHead?, ghost tail: ListHead?, ghost out: seq<Item>,
          ghost ps: seq<Item>, ghost qs: seq<Item>, ghost rest: seq<Item>)
    returns (diff: int, ghost c: Compared)
    requires Apart(nodes, infos) && CalledWith(cmp, res)
    requires Layout(nodes, infos, list, tail, out, ps, qs + rest) && |ps| > 0 && |qs| > 0
    requires p == HeadOf(nodes, ps) && q == HeadOf(nodes, qs + rest)
    modifies infos`data16, ResultsFrame(res)`crc, ResultsFrame(res)`crcstate, ResultsFrame(res)`crcmatrix,
            ResultsFrame(res)`calls
    ensures c == Compare(cmp, KernelsOf(res), ps[0], qs[0], old(SnapshotOf(res)))
    ensures diff == c.diff && SnapshotOf(res) == c.results
    ensures Layout(nodes, infos, list, tail, out, [c.a] + ps[1..], ([c.b] + qs[1..]) + rest)
  {
    FrontOfRest(qs, rest);
    HoldsParts(Data(infos), ps);
    HoldsParts(Data(infos), qs + rest);
    ghost var data := Data(infos);
    diff, c := CompareHeads(nodes, infos, cmp, res, p, q, ps[0], qs[0]);
    CompareInLayout(nodes, Links(nodes), data, list, tail, out, ps, qs + rest, c.a, c.b);
    FrontReplaced(qs, rest, c.b);
  }

  lemma FrontReplaced(qs: seq<Item>, rest: seq<Item>, x: Item)
    requires |qs| > 0
    ensures [x] + (qs + rest)[1..] == ([x] + qs[1..]) + rest
  {}

  lemma NewHead(items: seq<Item>, x: Item)
    requires |items| > 0
    ensures ([x] + items[1..])[0] == x && ([x] + items[1..])[1..] == items[1..]
  {}

  /** Both runs have nodes left: compare their heads and output the smaller one. */
  method StepCompare(ghost nodes: seq<ListHead>, ghost infos: seq<ListData>, cmp: Comparator, res: CoreResults?,
          list0: ListHead?, tail0: ListHead?, p0: ListHead, psize0: nat, q0: ListHead, qsize0: nat,
          ghost out0: seq<Item>, ghost ps0: seq<Item>, ghost qs0: seq<Item>, ghost rest: seq<Item>)
    returns (list: ListHead?, tail: ListHead?, p: ListHead?, psize: nat, q: ListHead?, qsize: nat,
             ghost c: Compared)
    requires Apart(nodes, infos) && CalledWith(cmp, res)
    requires Layout(nodes, infos, list0, tail0, out0, ps0, qs0 + rest)
    requires Cursors(nodes, p0, psize0, q0, qsize0, ps0, qs0, rest) && psize0 > 0 && |qs0| > 0
    modifies nodes`next, infos`data16, ResultsFrame(res)`crc, ResultsFrame(res)`crcstate, ResultsFrame(res)`crcmatrix,
            ResultsFrame(res)`calls
    ensures c == Compare(cmp, KernelsOf(res), ps0[0], qs0[0], old(SnapshotOf(res))) && SnapshotOf(res) == c.results
    ensures c.diff <= 0 ==> Layout(nodes, infos, list, tail, out0 + [c.a], ps0[1..], ([c.b] + qs0[1..]) + rest)
    ensures c.diff <= 0 ==> Cursors(nodes, p, psize, q, qsize, ps0[1..], [c.b] + qs0[1..], rest)
    ensures c.diff > 0 ==> Layout(nodes, infos, list, tail, out0 + [c.b], [c.a] + ps0[1..], qs0[1..] + rest)
    ensures c.diff > 0 ==> Cursors(nodes, p, psize, q, qsize, [c.a] + ps0[1..], qs0[1..], rest)
  {
    p, psize, q, qsize := p0, psize0, q0, qsize0;
    var diff: int;
    diff, c := CompareRuns(nodes, infos, cmp, res, p, q, list0, tail0, out0, ps0, qs0, rest);
    ghost var ps, qs := [c.a] + ps0[1..], [c.b] + qs0[1..];
    NewHead(ps0, c.a);
    NewHead(qs0, c.b);
    FrontOfRest(qs, rest);
    if diff <= 0 {
      list, tail, p := OutputP(nodes, infos, list0, tail0, p, out0, ps, qs + rest);
      psize := psize - 1;
    } else {
      list, tail, q, qsize := StepFromQ(nodes, infos, list0, tail0, q, qsize, out0, ps, qs, rest);
    }
  }

  /** What the loop's tests say about the second run. */
  lemma SecondRunTest(nodes: seq<ListHead>, p: ListHead?, psize: nat, q: ListHead?, qsize: nat, ps: seq<Item>,
          qs: seq<Item>, rest: seq<Item>)
    requires InRange(nodes, ps) && InRange(nodes, qs + rest)
    requires Cursors(nodes, p, psize, q, qsize, ps, qs, rest)
    ensures qsize == 0 || q == null <==> |qs| == 0
    ensures |qs| == 0 ==> qs + rest == rest
  {}

  /** A round of the inner loop with both runs left. */
  method StepBoth(ghost nodes: seq<ListHead>, ghost infos: seq<ListData>, cmp: Comparator, res: CoreResults?,
          list0: ListHead?, tail0: ListHead?, p0: ListHead, psize0: nat, q0: ListHead, qsize0: nat,
          ghost out0: seq<Item>, ghost ps0: seq<Item>, ghost qs0: seq<Item>, ghost rest: seq<Item>, ghost goal: Merged)
    returns (list: ListHead?, tail: ListHead?, p: ListHead?, psize: nat, q: ListHead?, qsize: nat,
             ghost out: seq<Item>, ghost ps: seq<Item>, ghost qs: seq<Item>)
    requires Apart(nodes, infos) && CalledWith(cmp, res)
    requires Layout(nodes, infos, list0, tail0, out0, ps0, qs0 + rest)
    requires Cursors(nodes, p0, psize0, q0, qsize0, ps0, qs0, rest) && psize0 > 0 && |qs0| > 0
    requires Heading(goal, cmp, KernelsOf(res), out0, ps0, qs0, SnapshotOf(res))
    modifies nodes`next, infos`data16, ResultsFrame(res)`crc, ResultsFrame(res)`crcstate, ResultsFrame(res)`crcmatrix,
            ResultsFrame(res)`calls
    ensures Layout(nodes, infos, list, tail, out, ps, qs + rest)
    ensures Cursors(nodes, p, psize, q, qsize, ps, qs, rest)
    ensures Heading(goal, cmp, KernelsOf(res), out, ps, qs, SnapshotOf(res))
    ensures |ps| + |qs| < |ps0| + |qs0|
  {
    HeadingStep(goal, cmp, KernelsOf(res), out0, ps0, qs0, SnapshotOf(res));
    ghost var c: Compared;
    list, tail, p, psize, q, qsize, c :=
      StepCompare(nodes, infos, cmp, res, list0, tail0, p0, psize0, q0, qsize0, out0, ps0, qs0, rest);
    if c.diff <= 0 {
      out, ps, qs := out0 + [c.a], ps0[1..], [c.b] + qs0[1..];
    } else {
      out, ps, qs := out0 + [c.b], [c.a] + ps0[1..], qs0[1..];
    }
  }

  /** One round of the inner loop. */
  method MergeStep(ghost nodes: seq<ListHead>, ghost infos: seq<ListData>, cmp: Comparator, res: CoreResults?,
          list0: ListHead?, tail0: ListHead?, p0: ListHead?, psize0: nat, q0: ListHead?, qsize0: nat,
          ghost out0: seq<Item>, ghost ps0: seq<Item>, ghost qs0: seq<Item>, ghost rest: seq<Item>, ghost goal: Merged)
    returns (list: ListHead?, tail: ListHead?, p: ListHead?, psize: nat, q: ListHead?, qsize: nat,
             ghost out: seq<Item>, ghost ps: seq<Item>, ghost qs: seq<Item>)
    requires Apart(nodes, infos) && CalledWith(cmp, res)
    requires Layout(nodes, infos, list0, tail0, out0, ps0, qs0 + rest)
    requires Cursors(nodes, p0, psize0, q0, qsize0, ps0, qs0, rest)
    requires psize0 > 0 || (qsize0 > 0 && q0 != null)
    requires Heading(goal, cmp, KernelsOf(res), out0, ps0, qs0, SnapshotOf(res))
    modifies nodes`next, infos`data16, ResultsFrame(res)`crc, ResultsFrame(res)`crcstate, ResultsFrame(res)`crcmatrix,
            ResultsFrame(res)`calls
    ensures Layout(nodes, infos, list, tail, out, ps, qs + rest)
    ensures Cursors(nodes, p, psize, q, qsize, ps, qs, rest)
    ensures Heading(goal, cmp, KernelsOf(res), out, ps, qs, SnapshotOf(res))
    ensures |ps| + |qs| < |ps0| + |qs0|
  {
    SecondRunTest(nodes, p0, psize0, q0, qsize0, ps0, qs0, rest);
    if psize0 == 0 {
      p, psize, ps := p0, psize0, ps0;
      HeadingOnlyQ(goal, cmp, KernelsOf(res), out0, qs0, SnapshotOf(res));
      list, tail, q, qsize := StepFromQ(nodes, infos, list0, tail0, q0, qsize0, out0, ps0, qs0, rest);
      out, qs := out0 + [qs0[0]], qs0[1..];
    } else if qsize0 == 0 || q0 == null {
      q, qsize, qs := q0, qsize0, qs0;
      HeadingOnlyP(goal, cmp, KernelsOf(res), out0, ps0, SnapshotOf(res));
      list, tail, p := OutputP(nodes, infos, list0, tail0, p0, out0, ps0, qs0 + rest);
      psize, out, ps := psize0 - 1, out0 + [ps0[0]], ps0[1..];
    } else {
      list, tail, p, psize, q, qsize, out, ps, qs :=
        StepBoth(nodes, infos, cmp, res, list0, tail0, p0, psize0, q0, qsize0, out0, ps0, qs0, rest, goal);
    }
  }

  /** The inner loop: merge the run of `psize` nodes from `p` with at most `insize` nodes from `q`. */
  method MergeTwo(ghost nodes: seq<ListHead>, ghost infos: seq<ListData>, cmp: Comparator, res: CoreResults?,
          p0: ListHead, psize0: nat, q0: ListHead?, insize: nat, list0: ListHead?, tail0: ListHead?,
          ghost out0: seq<Item>, ghost ps0: seq<Item>, ghost qs0: seq<Item>, ghost rest: seq<Item>)
    returns (list: ListHead?, tail: ListHead?, q: ListHead?, ghost out: seq<Item>)
    requires Apart(nodes, infos) && CalledWith(cmp, res)
    requires Layout(nodes, infos, list0, tail0, out0, ps0, qs0 + rest)
    requires psize0 > 0 && Cursors(nodes, p0, psize0, q0, insize, ps0, qs0, rest)
    modifies nodes`next, infos`data16, ResultsFrame(res)`crc, ResultsFrame(res)`crcstate, ResultsFrame(res)`crcmatrix,
            ResultsFrame(res)`calls
    ensures Layout(nodes, infos, list, tail, out, [], rest) && q == HeadOf(nodes, rest)
    ensures var m := Merge(cmp, KernelsOf(res), ps0, qs0, old(SnapshotOf(res)));
      Merged(out, SnapshotOf(res)) == Merged(out0 + m.items, m.results)
  {
    list, tail, q, out := list0, tail0, q0, out0;
    var p: ListHead?, psize, qsize := p0, psize0, insize;
    ghost var ps, qs := ps0, qs0;
    ghost var m := Merge(cmp, KernelsOf(res), ps0, qs0, SnapshotOf(res));
    ghost var goal := Merged(out0 + m.items, m.results);
    while psize > 0 || (qsize > 0 && q != null)
      invariant Layout(nodes, infos, list, tail, out, ps, qs + rest)
      invariant Cursors(nodes, p, psize, q, qsize, ps, qs, rest)
      invariant Heading(goal, cmp, KernelsOf(res), out, ps, qs, SnapshotOf(res))
      decreases |ps| + |qs|
    {
      list, tail, p, psize, q, qsize, out, ps, qs :=
        MergeStep(nodes, infos, cmp, res, list, tail, p, psize, q, qsize, out, ps, qs, rest, goal);
    }
    SecondRunTest(nodes, p, psize, q, qsize, ps, qs, rest);
    HeadingDone(goal, cmp, KernelsOf(res), out, ps, qs, SnapshotOf(res));
  }

  lemma HeadingDone(goal: Merged, cmp: Comparator, kernels: Kernels, out: seq<Item>, ps: seq<Item>, qs: seq<Item>,
          r: Results)
    requires Heading(goal, cmp, kernels, out, ps, qs, r) && |ps| == 0 && |qs| == 0
    ensures goal == Merged(out, r) && ps == []
  {}

  // ---------- Passes ----------

  /** Step `insize` places along from `p`, or to the end of the list. */
  method StepAlong(ghost nodes: seq<ListHead>, p: ListHead, insize: nat, ghost items: seq<Item>)
    returns (q: ListHead?, psize: nat)
    requires |items| > 0 && insize > 0 && InRange(nodes, items) && p == HeadOf(nodes, items)
    requires Terminated(nodes, Links(nodes), items)
    ensures psize == Min(insize, |items|) && q == HeadOf(nodes, items[psize..])
  {
    q := p;
    psize := 0;
    for i := 0 to insize
      invariant psize == i < |items| && q == HeadOf(nodes, items[psize..])
    {
      ListSuffix(nodes, Links(nodes), items, psize);
      psize := psize + 1;
      q := q.next;
      if q == null {
        break;
      }
    }
  }

  lemma ListSuffix(nodes: seq<ListHead>, links: seq<ListHead?>, items: seq<Item>, i: nat)
    requires |links| == |nodes| && InRange(nodes, items) && Terminated(nodes, links, items) && i < |items|
    ensures links[items[i].pos] == HeadOf(nodes, items[i + 1..])
    ensures HeadOf(nodes, items[i..]) == nodes[items[i].pos]
    ensures HeadOf(nodes, items[i + 1..]) == null <==> i + 1 == |items|
  {}

  lemma SplitLinks(nodes: seq<ListHead>, links: seq<ListHead?>, items: seq<Item>, i: nat)
    requires |links| == |nodes| && InRange(nodes, items) && Terminated(nodes, links, items) && i <= |items|
    ensures InRange(nodes, items[..i]) && InRange(nodes, items[i..])
    ensures Linked(nodes, links, items[..i]) && Terminated(nodes, links, items[i..])
  {}

  lemma SplitPositions(out: seq<Item>, items: seq<Item>, i: nat)
    requires DistinctPositions(items) && DisjointPositions(out, items) && i <= |items|
    ensures DistinctPositions(items[..i]) && DistinctPositions(items[i..]) && DisjointPositions(items[..i], items[i..])
    ensures DisjointPositions(out, items[..i]) && DisjointPositions(out, items[i..])
  {}

  /** Cutting a list in memory into its first run and the rest. */
  lemma LayoutSplit(nodes: seq<ListHead>, infos: seq<ListData>, list: ListHead?, tail: ListHead?, out: seq<Item>,
          items: seq<Item>, i: nat, j: nat)
    requires Layout(nodes, infos, list, tail, out, [], items) && i <= j <= |items|
    ensures Layout(nodes, infos, list, tail, out, items[..i], items[i..j] + items[j..])
    ensures i > 0 ==> HeadOf(nodes, items[..i]) == HeadOf(nodes, items)
    ensures HeadOf(nodes, items[i..j] + items[j..]) == HeadOf(nodes, items[i..])
  {
    assert items[i..j] + items[j..] == items[i..];
    SplitLinks(nodes, Links(nodes), items, i);
    SplitPositions(out, items, i);
    assert Holds(Data(infos), items[..i]) && Holds(Data(infos), items[i..]);
  }

  /** A pass under way: output so far, then the pass over what is left. */
  ghost predicate PassHeading(goal: Merged, cmp: Comparator, kernels: Kernels, w: nat, out: seq<Item>, rest: seq<Item>,
          r: Results)
    requires w > 0
  {
    var m := Pass(cmp, kernels, w, rest, r);
    goal == Merged(out + m.items, m.results)
  }

  lemma PassHeadingStep(goal: Merged, cmp: Comparator, kernels: Kernels, w: nat, out: seq<Item>, rest: seq<Item>,
          r: Results)
    requires w > 0 && |rest| > 0 && PassHeading(goal, cmp, kernels, w, out, rest, r)
    ensures var i, j := Min(w, |rest|), Min(2 * w, |rest|);
      var m := Merge(cmp, kernels, rest[..i], rest[i..j], r);
      PassHeading(goal, cmp, kernels, w, out + m.items, rest[j..], m.results)
  {
    var i, j := Min(w, |rest|), Min(2 * w, |rest|);
    var m := Merge(cmp, kernels, rest[..i], rest[i..j], r);
    var t := Pass(cmp, kernels, w, rest[j..], m.results);
    assert out + (m.items + t.items) == (out + m.items) + t.items;
  }

  /** One merge of a pass: from `p`, two runs go to the output. */
  method PassStep(ghost nodes: seq<ListHead>, ghost infos: seq<ListData>, cmp: Comparator, res: CoreResults?,
          p: ListHead, insize: nat, list0: ListHead?, tail0: ListHead?, ghost out0: seq<Item>, ghost items: seq<Item>,
          ghost goal: Merged)
    returns (list: ListHead?, tail: ListHead?, q: ListHead?, ghost out: seq<Item>, ghost rest: seq<Item>)
    requires Apart(nodes, infos) && CalledWith(cmp, res) && insize > 0
    requires Layout(nodes, infos, list0, tail0, out0, [], items) && |items| > 0 && p == HeadOf(nodes, items)
    requires PassHeading(goal, cmp, KernelsOf(res), insize, out0, items, SnapshotOf(res))
    modifies nodes`next, infos`data16, ResultsFrame(res)`crc, ResultsFrame(res)`crcstate, ResultsFrame(res)`crcmatrix,
            ResultsFrame(res)`calls
    ensures Layout(nodes, infos, list, tail, out, [], rest) && q == HeadOf(nodes, rest)
    ensures PassHeading(goal, cmp, KernelsOf(res), insize, out, rest, SnapshotOf(res))
    ensures |rest| == |items| - Min(2 * insize, |items|)
  {
    var psize;
    q, psize := StepAlong(nodes, p, insize, items);
    ghost var j := Min(2 * insize, |items|);
    rest := items[j..];
    LayoutSplit(nodes, infos, list0, tail0, out0, items, psize, j);
    PassHeadingStep(goal, cmp, KernelsOf(res), insize, out0, items, SnapshotOf(res));
    list, tail, q, out := MergeTwo(nodes, infos, cmp, res, p, psize, q, insize, list0, tail0, out0, items[..psize],
      items[psize..j], rest);
  }

  /** The number of merges so far against the number of nodes left. */
  predicate MergeCount(nmerges: nat, total: nat, left: nat, insize: nat) {
    && (nmerges == 0 ==> left == total)
    && (nmerges == 1 ==> left == total - Min(2 * insize, total))
    && (nmerges >= 2 ==> total > 2 * insize)
  }

  lemma MergeCountStep(nmerges: nat, total: nat, left: nat, insize: nat)
    requires MergeCount(nmerges, total, left, insize) && left > 0
    ensures MergeCount(nmerges + 1, total, left - Min(2 * insize, left), insize)
  {}

  /** One pass over the whole list, counting its merges. */
  method MergePass(ghost nodes: seq<ListHead>, ghost infos: seq<ListData>, cmp: Comparator, res: CoreResults?,
          list0: ListHead, insize: nat, ghost items: seq<Item>)
    returns (list: ListHead, nmerges: nat, ghost out: seq<Item>)
    requires Apart(nodes, infos) && CalledWith(cmp, res) && insize > 0
    requires IsList(nodes, infos, list0, items) && |items| > 0
    modifies nodes`next, infos`data16, ResultsFrame(res)`crc, ResultsFrame(res)`crcstate, ResultsFrame(res)`crcmatrix,
            ResultsFrame(res)`calls
    ensures IsList(nodes, infos, list, out)
    ensures var m := Pass(cmp, KernelsOf(res), insize, items, old(SnapshotOf(res)));
      Merged(out, SnapshotOf(res)) == m
    ensures nmerges <= 1 <==> |items| <= 2 * insize
  {
    var p: ListHead?, head: ListHead?, tail: ListHead? := list0, null, null;
    nmerges := 0;
    ghost var rest := items;
    ghost var goal := Pass(cmp, KernelsOf(res), insize, items, SnapshotOf(res));
    PassLength(cmp, KernelsOf(res), insize, items, SnapshotOf(res));
    out := [];
    StartOfPass(nodes, infos, list0, items, goal);
    while p != null
      invariant Layout(nodes, infos, head, tail, out, [], rest) && p == HeadOf(nodes, rest)
      invariant PassHeading(goal, cmp, KernelsOf(res), insize, out, rest, SnapshotOf(res))
      invariant MergeCount(nmerges, |items|, |rest|, insize)
      decreases |rest|
    {
      MergeCountStep(nmerges, |items|, |rest|, insize);
      nmerges := nmerges + 1;
      head, tail, p, out, rest := PassStep(nodes, infos, cmp, res, p, insize, head, tail, out, rest, goal);
    }
    list := EndOfPass(nodes, infos, cmp, KernelsOf(res), insize, head, tail, out, rest, SnapshotOf(res), goal, |items|);
  }

  lemma StartOfPass(nodes: seq<ListHead>, infos: seq<ListData>, list: ListHead, items: seq<Item>, goal: Merged)
    requires IsList(nodes, infos, list, items)
    ensures Layout(nodes, infos, null, null, [], [], items) && Merged([] + goal.items, goal.results) == goal
  {}

  /** `tail->next = NULL`. */
  method EndOfPass(ghost nodes: seq<ListHead>, ghost infos: seq<ListData>, ghost cmp: Comparator,
          ghost kernels: Kernels, ghost insize: nat, head: ListHead?, tail: ListHead?, ghost out: seq<Item>,
          ghost rest: seq<Item>, ghost r: Results, ghost goal: Merged, ghost n: nat)
    returns (list: ListHead)
    requires Apart(nodes, infos) && insize > 0 && |rest| == 0 && n > 0 && |goal.items| == n
    requires Layout(nodes, infos, head, tail, out, [], rest) && PassHeading(goal, cmp, kernels, insize, out, rest, r)
    modifies nodes`next
    ensures IsList(nodes, infos, list, out) && goal == Merged(out, r)
  {
    assert goal.items == out;
    ghost var links := Links(nodes);
    tail.next := null;
    list := head;
    assert Links(nodes) == links[out[|out| - 1].pos := null];
  }

  /** `core_list_mergesort`, with the sort on items as its specification. */
  method SortNodes(ghost nodes: seq<ListHead>, ghost infos: seq<ListData>, cmp: Comparator, res: CoreResults?,
          list0: ListHead, ghost items0: seq<Item>)
    returns (list: ListHead, ghost items: seq<Item>)
    requires Apart(nodes, infos) && CalledWith(cmp, res)
    requires IsList(nodes, infos, list0, items0) && |items0| > 0
    modifies nodes`next, infos`data16, ResultsFrame(res)`crc, ResultsFrame(res)`crcstate, ResultsFrame(res)`crcmatrix,
            ResultsFrame(res)`calls
    ensures IsList(nodes, infos, list, items)
    ensures Merged(items, SnapshotOf(res)) == Sort(cmp, KernelsOf(res), 1, items0, old(SnapshotOf(res)))
  {
    var insize: nat := 1;
    list, items := list0, items0;
    ghost var goal := Sort(cmp, KernelsOf(res), 1, items0, SnapshotOf(res));
    while true
      invariant insize > 0 && |items| > 0 && IsList(nodes, infos, list, items)
      invariant goal == Sort(cmp, KernelsOf(res), insize, items, SnapshotOf(res))
      decreases |items| - insize
    {
      var nmerges;
      PassLength(cmp, KernelsOf(res), insize, items, SnapshotOf(res));
      list, nmerges, items := MergePass(nodes, infos, cmp, res, list, insize, items);
      if nmerges <= 1 {
        return;
      }
      insize := 2 * insize;
    }
  }
}
