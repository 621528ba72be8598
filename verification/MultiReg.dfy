/**
 Registers that are replicated: packing copies of a field into compacted
 registers, and what a generated register resets to.
 */
module MultiReg {
  import opened BitArith
  import opened BitOps
  import opened Common
  import opened Decimals

  datatype Result<T> = Ok(value: T) | Raised(error: Error)

  datatype Error = TooWide | DuplicateField | NotDisjoint | CompactMany | BadCount |
    ExternalReadOnly | ExternalWithoutQe | ReadEnableNotExternal | NotShadowyName | NotShadowed

  datatype Range = Range(msb: nat, lsb: nat)

  /** A nonempty range of bits of a register. */
  type Bits = b: Range | b.lsb <= b.msb witness Range(0, 0)

  function Width(bits: Bits): nat {
    1 + bits.msb - bits.lsb
  }

  function Bitmask(bits: Bits): nat {
    MaskBits(bits.msb + 1, bits.lsb, 0);
    Pow2(bits.msb + 1) - Pow2(bits.lsb)
  }

  function ExtractField(bits: Bits, regVal: nat): nat {
    Shr(BitAnd(regVal, Bitmask(bits)), bits.lsb)
  }

  function MakeTranslated(bits: Bits, offset: nat): Bits {
    Range(bits.msb + offset, bits.lsb + offset)
  }

  datatype Reset = Unknown | Known(value: nat)

  datatype RawField = RawField(name: string, bits: Bits, resval: Reset)

  /** The reset value with unknown taken as zero. */
  function ResetOrZero(field: RawField): nat {
    if field.resval.Known? then field.resval.value else 0
  }

  /** A field whose reset value fits its bits. */
  type Field = f: RawField | ResetOrZero(f) < Pow2(Width(f.bits)) witness RawField("", Range(0, 0), Unknown)

  /** The attributes that the constructor of a register checks. */
  datatype Attributes = Attributes(hwext: bool, hwqe: bool, hwre: bool, hwReadOnly: bool, swReadable: bool,
          swWritable: bool, shadowed: bool)

  datatype Register = Register(name: string, attributes: Attributes, fields: seq<Field>, resval: nat, resmask: nat)

  /** The extracted value has the digits of the register at the field's place. */
  lemma ExtractBits(bits: Bits, regVal: nat, i: nat)
    ensures Bit(ExtractField(bits, regVal), i) == (i < Width(bits) && Bit(regVal, bits.lsb + i))
  {
    ShrBits(BitAnd(regVal, Bitmask(bits)), bits.lsb, i);
    AndBits(regVal, Bitmask(bits), i + bits.lsb);
    MaskBits(bits.msb + 1, bits.lsb, i + bits.lsb);
  }

  // The register constructor.

  /** Stable insertion by least significant bit. */
  function Insert(field: Field, fields: seq<Field>): seq<Field> {
    if fields == [] then [field]
    else
      var last := fields[|fields| - 1];
      if field.bits.lsb < last.bits.lsb then Insert(field, fields[..|fields| - 1]) + [last] else fields + [field]
  }

  function SortByLsb(fields: seq<Field>): seq<Field> {
    if fields == [] then [] else Insert(fields[|fields| - 1], SortByLsb(fields[..|fields| - 1]))
  }

  ghost predicate SortedByLsb(fields: seq<Field>) {
    forall i, j | 0 <= i < j < |fields| :: fields[i].bits.lsb <= fields[j].bits.lsb
  }

  /** Fields already in order stay as they are. */
  lemma {:induction false} SortedUnchanged(fields: seq<Field>)
    requires SortedByLsb(fields)
    ensures SortByLsb(fields) == fields
  {
    if fields != [] {
      var init, last := fields[..|fields| - 1], fields[|fields| - 1];
      SortedUnchanged(init);
      assert fields == init + [last];
    }
  }

  ghost predicate DistinctNames(fields: seq<Field>) {
    forall i, j | 0 <= i < j < |fields| :: fields[i].name != fields[j].name
  }

  /** The reset values of the fields, each at its place. */
  function ResetOf(fields: seq<Field>): nat {
    if fields == [] then 0
    else
      var last := fields[|fields| - 1];
      BitOr(ResetOf(fields[..|fields| - 1]), Shl(ResetOrZero(last), last.bits.lsb))
  }

  function MaskOf(fields: seq<Field>): nat
  {
    if fields == [] then 0 else BitOr(MaskOf(fields[..|fields| - 1]), Bitmask(fields[|fields| - 1].bits))
  }

  ghost predicate ContributesAt(field: Field, i: nat) {
    i >= field.bits.lsb && Bit(ResetOrZero(field), i - field.bits.lsb)
  }

  lemma {:induction false} ResetBits(fields: seq<Field>, i: nat)
    ensures Bit(ResetOf(fields), i) <==> exists k | 0 <= k < |fields| :: ContributesAt(fields[k], i)
  {
    if fields == [] {
      ZeroHasNoBits(i);
    } else {
      var n := |fields| - 1;
      ResetBits(fields[..n], i);
      OrBits(ResetOf(fields[..n]), Shl(ResetOrZero(fields[n]), fields[n].bits.lsb), i);
      ShlBits(ResetOrZero(fields[n]), fields[n].bits.lsb, i);
      if k :| 0 <= k < n && ContributesAt(fields[..n][k], i) {
        assert ContributesAt(fields[k], i);
      }
      if k :| 0 <= k < |fields| && ContributesAt(fields[k], i) {
        assert k < n ==> fields[..n][k] == fields[k];
      }
    }
  }

  /** Fields without known reset values leave zero. */
  lemma {:induction false} UnknownsLeaveZero(fields: seq<Field>)
    requires forall f <- fields :: f.resval == Unknown
    ensures ResetOf(fields) == 0
  {
    forall i: nat ensures !Bit(ResetOf(fields), i) {
      ResetBits(fields, i);
      ZeroHasNoBits(i);
      forall k | 0 <= k < |fields| && i >= fields[k].bits.lsb ensures !ContributesAt(fields[k], i) {
        assert fields[k] in fields;
        ZeroHasNoBits(i - fields[k].bits.lsb);
      }
    }
    BitsBound(ResetOf(fields), 0);
  }

  ghost predicate Covers(field: Field, i: nat) {
    field.bits.lsb <= i <= field.bits.msb
  }

  /** The mask has the bits of the fields and no others. */
  lemma {:induction false} MaskCovers(fields: seq<Field>, i: nat)
    ensures Bit(MaskOf(fields), i) <==> exists k | 0 <= k < |fields| :: Covers(fields[k], i)
  {
    if fields == [] {
      ZeroHasNoBits(i);
    } else {
      var n := |fields| - 1;
      MaskCovers(fields[..n], i);
      OrBits(MaskOf(fields[..n]), Bitmask(fields[n].bits), i);
      MaskBits(fields[n].bits.msb + 1, fields[n].bits.lsb, i);
      if k :| 0 <= k < n && Covers(fields[..n][k], i) {
        assert Covers(fields[k], i);
      }
      if k :| 0 <= k < |fields| && Covers(fields[k], i) {
        assert k < n ==> fields[..n][k] == fields[k];
      }
    }
  }

  /** The bits of the two fields do not meet. */
  predicate Apart(a: Bits, b: Bits) {
    a.msb < b.lsb || b.msb < a.lsb
  }

  ghost predicate AllApart(fields: seq<Field>) {
    forall i, j | 0 <= i < j < |fields| :: Apart(fields[i].bits, fields[j].bits)
  }

  /** Within the bits of field `k`, no field contributes a bit that field `k` does not contribute itself. */
  ghost predicate Undisturbed(fields: seq<Field>, k: nat)
    requires k < |fields|
  {
    forall j, i: nat | 0 <= j < |fields| && fields[k].bits.lsb <= i <= fields[k].bits.msb ::
      ContributesAt(fields[j], i) ==> ContributesAt(fields[k], i)
  }

  /**
   Inside the range of field `k` a bit of the register differs from the field's own
   exactly if another field adds it.
   */
  lemma {:induction false} BitReadsBack(fields: seq<Field>, k: nat, i: nat)
    requires k < |fields| && fields[k].bits.lsb <= i <= fields[k].bits.msb
    ensures Bit(ExtractField(fields[k].bits, ResetOf(fields)), i - fields[k].bits.lsb) <==>
      exists j | 0 <= j < |fields| :: ContributesAt(fields[j], i)
  {
    ExtractBits(fields[k].bits, ResetOf(fields), i - fields[k].bits.lsb);
    ResetBits(fields, i);
  }

  /** A field reads back its reset value if and only if no other field adds a bit inside it. */
  lemma ReadsBackExactly(fields: seq<Field>, k: nat)
    requires k < |fields|
    ensures ExtractField(fields[k].bits, ResetOf(fields)) == ResetOrZero(fields[k]) <==> Undisturbed(fields, k)
  {
    var f := fields[k];
    var got, want := ExtractField(f.bits, ResetOf(fields)), ResetOrZero(f);
    if Undisturbed(fields, k) {
      UndisturbedReadsBack(fields, k);
    }
    if got == want {
      forall j, i: nat | 0 <= j < |fields| && f.bits.lsb <= i <= f.bits.msb && ContributesAt(fields[j], i)
        ensures ContributesAt(f, i)
      {
        BitReadsBack(fields, k, i);
        assert Bit(got, i - f.bits.lsb);
      }
    }
  }

  lemma UndisturbedReadsBack(fields: seq<Field>, k: nat)
    requires k < |fields| && Undisturbed(fields, k)
    ensures ExtractField(fields[k].bits, ResetOf(fields)) == ResetOrZero(fields[k])
  {
    var f := fields[k];
    var got, want := ExtractField(f.bits, ResetOf(fields)), ResetOrZero(f);
    forall i: nat | i < Width(f.bits)
      ensures Bit(got, i) == Bit(want, i)
    {
      BitReadsBack(fields, k, f.bits.lsb + i);
      if Bit(want, i) {
        assert ContributesAt(fields[k], f.bits.lsb + i);
      }
      if j :| 0 <= j < |fields| && ContributesAt(fields[j], f.bits.lsb + i) {
        assert ContributesAt(fields[k], f.bits.lsb + i);
      }
    }
    forall i: nat | i >= Width(f.bits)
      ensures !Bit(got, i)
    {
      ExtractBits(f.bits, ResetOf(fields), i);
    }
    BitsBound(got, Width(f.bits));
    BitsDetermine(got, want, Width(f.bits));
  }

  /** In a register of disjoint fields every field can be read back. */
  lemma ResetExtracts(fields: seq<Field>, k: nat)
    requires k < |fields|
    requires AllApart(fields)
    ensures ExtractField(fields[k].bits, ResetOf(fields)) == ResetOrZero(fields[k])
  {
    forall j, i: nat | 0 <= j < |fields| && fields[k].bits.lsb <= i <= fields[k].bits.msb && ContributesAt(fields[j], i)
      ensures ContributesAt(fields[k], i)
    {
      if j != k {
        assert Apart(fields[j].bits, fields[k].bits);
        OutsideClear(fields[j], i);
      }
    }
    ReadsBackExactly(fields, k);
  }

  lemma OutsideClear(field: Field, i: nat)
    requires i < field.bits.lsb || i > field.bits.msb
    ensures !ContributesAt(field, i)
  {
    if i > field.bits.msb {
      HighBitsClear(ResetOrZero(field), Width(field.bits), i - field.bits.lsb);
    }
  }

  // The constructor's checks of name and attributes.

  function Lower(c: char): char {
    if 'A' <= c <= 'Z' then (c as int - 'A' as int + 'a' as int) as char else c
  }

  /** Capital letters are 32 below the small ones; nothing else changes. */
  lemma LowerCodes(c: char)
    ensures Lower(c) as int == c as int + if 65 <= c as int <= 90 then 32 else 0
  {}

  function LowerAll(s: string): string {
    seq(|s|, i requires 0 <= i < |s| => Lower(s[i]))
  }

  const SHADOWED := "_shadowed"

  predicate SoundsShadowy(name: string) {
    |name| >= |SHADOWED| && LowerAll(name)[|name| - |SHADOWED|..] == SHADOWED
  }

  /** Why the constructor refuses a register's attributes, in the order of its checks. */
  function Refusal(name: string, a: Attributes): (errors: seq<Error>)
    ensures errors == [] <==>
      && !(a.hwext && a.hwReadOnly && a.swReadable) && !(a.hwext && !a.hwqe && a.swWritable) && !(a.hwre && !a.hwext)
      && a.shadowed == SoundsShadowy(name)
  {
    if a.hwext && a.hwReadOnly && a.swReadable then [ExternalReadOnly]
    else if a.hwext && !a.hwqe && a.swWritable then [ExternalWithoutQe]
    else if a.hwre && !a.hwext then [ReadEnableNotExternal]
    else if a.shadowed && !SoundsShadowy(name) then [NotShadowyName]
    else if !a.shadowed && SoundsShadowy(name) then [NotShadowed]
    else []
  }

  /** Which check of the constructor fails first. */
  lemma RefusedFor(name: string, a: Attributes)
    requires Refusal(name, a) != []
    ensures match Refusal(name, a)[0]
      case ExternalReadOnly => a.hwext && a.hwReadOnly && a.swReadable
      case ExternalWithoutQe => a.hwext && !a.hwqe && a.swWritable && !(a.hwReadOnly && a.swReadable)
      case ReadEnableNotExternal => a.hwre && !a.hwext
      case NotShadowyName => a.shadowed && !SoundsShadowy(name)
      case NotShadowed => !a.shadowed && SoundsShadowy(name)
      case _ => false
  {}

  /** A number ends in a decimal digit. */
  lemma {:induction false} DigitsEnd(n: nat)
    ensures '0' <= Digits(n)[|Digits(n)| - 1] <= '9'
  {}

  /** A numbered name never sounds shadowy, whatever its stem. */
  lemma NumberedNotShadowy(name: string, n: nat)
    ensures !SoundsShadowy(name + "_" + Digits(n))
  {
    var numbered := name + "_" + Digits(n);
    DigitsEnd(n);
    var last := numbered[|numbered| - 1];
    assert last == Digits(n)[|Digits(n)| - 1] && Lower(last) == last;
    if |numbered| >= |SHADOWED| {
      assert LowerAll(numbered)[|numbered| - |SHADOWED|..][|SHADOWED| - 1] == Lower(last);
    }
  }

  /** What the constructor makes of a register: the first failing check, or the register. */
  ghost function Constructed(name: string, a: Attributes, fields: seq<Field>): Result<Register> {
    if Refusal(name, a) != [] then Raised(Refusal(name, a)[0])
    else if !DistinctNames(SortByLsb(fields)) then Raised(DuplicateField)
    else Ok(RegisterOf(name, a, SortByLsb(fields)))
  }

  /** The constructor of a register; its check for disjoint fields compares with an empty set of bits. */
  method NewRegister(name: string, a: Attributes, fields0: seq<Field>) returns (r: Result<Register>)
    requires fields0 != []
    ensures r == Constructed(name, a, fields0)
  {
    if a.hwext && a.hwReadOnly && a.swReadable {
      return Raised(ExternalReadOnly);
    }
    if a.hwext && !a.hwqe && a.swWritable {
      return Raised(ExternalWithoutQe);
    }
    if a.hwre && !a.hwext {
      return Raised(ReadEnableNotExternal);
    }
    var soundsShadowy := SoundsShadowy(name);
    if a.shadowed && !soundsShadowy {
      return Raised(NotShadowyName);
    } else if soundsShadowy && !a.shadowed {
      return Raised(NotShadowed);
    }
    var fields := SortByLsb(fields0);
    var unique := NamesUnique(fields);
    if !unique {
      return Raised(DuplicateField);
    }
    var bitsUsed := 0;
    for i := 0 to |fields| {
      if BitAnd(bitsUsed, Bitmask(fields[i].bits)) != 0 {
        return Raised(NotDisjoint);
      }
    }
    var resval, resmask := Collect(fields);
    return Ok(Register(name, a, fields, resval, resmask));
  }

  function RegisterOf(name: string, a: Attributes, fields: seq<Field>): Register {
    Register(name, a, fields, ResetOf(fields), MaskOf(fields))
  }

  /** The loop that indexes the fields by name. */
  method NamesUnique(fields: seq<Field>) returns (unique: bool)
    ensures unique == DistinctNames(fields)
  {
    var names: set<string> := {};
    for i := 0 to |fields|
      invariant forall k | 0 <= k < i :: fields[k].name in names
      invariant forall n <- names :: exists k | 0 <= k < i :: fields[k].name == n
      invariant forall j, k | 0 <= j < k < i :: fields[j].name != fields[k].name
    {
      if fields[i].name in names {
        return false;
      }
      names := names + {fields[i].name};
    }
    return true;
  }

  /** The loop that collects reset values and masks. */
  method Collect(fields: seq<Field>) returns (resval: nat, resmask: nat)
    ensures resval == ResetOf(fields) && resmask == MaskOf(fields)
  {
    resval, resmask := 0, 0;
    for i := 0 to |fields|
      invariant resval == ResetOf(fields[..i]) && resmask == MaskOf(fields[..i])
    {
      assert fields[..i + 1][..i] == fields[..i];
      resval := BitOr(resval, Shl(ResetOrZero(fields[i]), fields[i].bits.lsb));
      resmask := BitOr(resmask, Bitmask(fields[i].bits));
    }
    assert fields[..|fields|] == fields;
  }

  const LOW: Field := RawField("low", Range(1, 0), Known(1))
  const HIGH: Field := RawField("high", Range(1, 1), Known(1))

  /** Overlapping fields are accepted, and then a field need not read back. */
  lemma OverlapAccepted(name: string, a: Attributes)
    requires Refusal(name, a) == []
    ensures Constructed(name, a, [LOW, HIGH]) == Ok(RegisterOf(name, a, [LOW, HIGH]))
    ensures ExtractField(LOW.bits, ResetOf([LOW, HIGH])) != ResetOrZero(LOW)
  {
    var fields := [LOW, HIGH];
    SortedUnchanged(fields);
    assert ContributesAt(fields[1], 1) && !ContributesAt(fields[0], 1);
    ReadsBackExactly(fields, 0);
  }

  // Replicating a field.

  /** Where a copy begins: every copy takes the bits below its field as well. */
  function Offset(field: Field, place: nat): nat {
    place * (field.bits.msb + 1)
  }

  lemma OffsetsApart(field: Field, i: nat, j: nat)
    requires i < j
    ensures Offset(field, i) + field.bits.msb + 1 <= Offset(field, j)
  {
    var w := field.bits.msb + 1;
    MulMonotone(i + 1, j, w);
    assert (i + 1) * w == i * w + w;
  }

  /** A field like the given one, with another name and other bits as wide. */
  function MakeField(name: string, bits: Bits, field: Field): Field
    requires Width(bits) == Width(field.bits)
  {
    RawField(name, bits, field.resval)
  }

  /** The copy of a field for one index, at one place in its register. */
  function CopyOf(field: Field, idx: nat, place: nat): Field {
    MakeField(field.name + "_" + Digits(idx), MakeTranslated(field.bits, Offset(field, place)), field)
  }

  /** The copies for the indices from `first` to `last`, side by side. */
  function Copies(field: Field, first: nat, last: nat): seq<Field>
    requires first <= last
  {
    seq<Field>(last - first + 1, j requires 0 <= j => CopyOf(field, first + j, j))
  }

  /** Replicate a field, unless the register is too narrow. */
  method MakeMultiField(field: Field, regWidth: nat, minRegIdx: nat, maxRegIdx: nat) returns (r: Result<seq<Field>>)
    requires minRegIdx <= maxRegIdx
    ensures r == if Offset(field, 1 + maxRegIdx - minRegIdx) > regWidth then Raised(TooWide)
                 else Ok(Copies(field, minRegIdx, maxRegIdx))
  {
    var numCopies := 1 + maxRegIdx - minRegIdx;
    if Offset(field, numCopies) > regWidth {
      return Raised(TooWide);
    }
    var ret: seq<Field> := [];
    for regIdx := minRegIdx to maxRegIdx + 1
      invariant |ret| == regIdx - minRegIdx
      invariant forall k | 0 <= k < |ret| :: ret[k] == CopyOf(field, minRegIdx + k, k)
    {
      var bitOffset := Offset(field, regIdx - minRegIdx);
      var bits := if bitOffset == 0 then field.bits else MakeTranslated(field.bits, bitOffset);
      ret := ret + [MakeField(field.name + "_" + Digits(regIdx), bits, field)];
    }
    assert ret == Copies(field, minRegIdx, maxRegIdx);
    return Ok(ret);
  }

  lemma {:induction false} NamesApart(name: string, a: nat, b: nat)
    ensures name + "_" + Digits(a) == name + "_" + Digits(b) ==> a == b
  {
    if name + "_" + Digits(a) == name + "_" + Digits(b) {
      var n := |name| + 1;
      assert (name + "_" + Digits(a))[n..] == Digits(a) && (name + "_" + Digits(b))[n..] == Digits(b);
      DigitsInjective(a, b);
    }
  }

  /** Copies are in order, have different names and do not meet. */
  lemma CopiesSound(field: Field, first: nat, last: nat)
    requires first <= last
    ensures SortedByLsb(Copies(field, first, last)) && DistinctNames(Copies(field, first, last))
    ensures AllApart(Copies(field, first, last))
  {
    var c := Copies(field, first, last);
    forall i, j | 0 <= i < j < |c|
      ensures c[i].bits.lsb <= c[j].bits.lsb && c[i].name != c[j].name && Apart(c[i].bits, c[j].bits)
    {
      OffsetsApart(field, i, j);
      NamesApart(field.name, first + i, first + j);
    }
  }

  /**
   A compacted register: every copy stays inside it, apart from the others, and reads
   back the field's reset value.
   */
  lemma CompactedSound(field: Field, regWidth: nat, first: nat, last: nat, j: nat)
    requires first <= last && Offset(field, 1 + last - first) <= regWidth && j <= last - first
    ensures Copies(field, first, last)[j].bits.msb < regWidth && AllApart(Copies(field, first, last))
    ensures ExtractField(Copies(field, first, last)[j].bits, ResetOf(Copies(field, first, last))) == ResetOrZero(field)
  {
    CopiesSound(field, first, last);
    ResetExtracts(Copies(field, first, last), j);
    OffsetsApart(field, j, 1 + last - first);
    assert Copies(field, first, last)[j] == CopyOf(field, first + j, j);
  }

  // The registers of a multi-register.

  /** How many copies go into one register. */
  function RegsPerCreg(base: Register, regWidth: nat, compact: bool): nat
    requires base.fields != []
  {
    if compact then regWidth / (base.fields[0].bits.msb + 1) else 1
  }

  function Suffixed(fields: seq<Field>, cregIdx: nat): seq<Field> {
    seq<Field>(|fields|, i requires 0 <= i < |fields| =>
      MakeField(fields[i].name + "_" + Digits(cregIdx), fields[i].bits, fields[i]))
  }

  function CregName(base: Register, cregIdx: nat, cregCount: nat): string {
    if cregCount > 1 then base.name + "_" + Digits(cregIdx) else base.name
  }

  /** What a register of the configuration satisfies after it has been built from its description. */
  ghost predicate WellFormed(base: Register, regWidth: nat) {
    && base.fields != [] && SortedByLsb(base.fields) && DistinctNames(base.fields)
    && Refusal(base.name, base.attributes) == []
    && forall f <- base.fields :: f.bits.msb < regWidth
  }

  /** The numbered, packed version of the register. */
  method MakeMulti(base: Register, regWidth: nat, cregIdx: nat, cregCount: nat, compact: bool, minRegIdx: nat,
          maxRegIdx: nat)
    returns (r: Result<Register>)
    requires WellFormed(base, regWidth) && cregIdx < cregCount && minRegIdx <= maxRegIdx
    requires compact ==> |base.fields| == 1
    requires !compact ==> minRegIdx == maxRegIdx == cregIdx
    ensures r == if compact && Offset(base.fields[0], 1 + maxRegIdx - minRegIdx) > regWidth then Raised(TooWide)
                 else if base.attributes.shadowed && cregCount > 1 then Raised(NotShadowyName)
                 else Ok(Numbered(base, cregIdx, cregCount, NewFields(base, cregIdx, compact, minRegIdx, maxRegIdx)))
  {
    var newFields;
    if compact {
      var made := MakeMultiField(base.fields[0], regWidth, minRegIdx, maxRegIdx);
      if made.Raised? {
        return Raised(made.error);
      }
      newFields := made.value;
      CopiesSound(base.fields[0], minRegIdx, maxRegIdx);
    } else {
      newFields := Suffixed(base.fields, cregIdx);
      SuffixedSound(base.fields, cregIdx);
    }
    SortedUnchanged(newFields);
    NumberedRefusal(base, cregIdx, cregCount);
    r := NewRegister(CregName(base, cregIdx, cregCount), base.attributes, newFields);
  }

  function NewFields(base: Register, cregIdx: nat, compact: bool, minRegIdx: nat, maxRegIdx: nat): seq<Field>
    requires base.fields != [] && minRegIdx <= maxRegIdx
  {
    if compact then Copies(base.fields[0], minRegIdx, maxRegIdx) else Suffixed(base.fields, cregIdx)
  }

  /** The register under its number, with the attributes of the base register. */
  function Numbered(base: Register, cregIdx: nat, cregCount: nat, fields: seq<Field>): Register {
    RegisterOf(CregName(base, cregIdx, cregCount), base.attributes, fields)
  }

  /**
   A number behind the name is refused exactly for shadowed registers; every other
   check was passed by the base register.
   */
  lemma NumberedRefusal(base: Register, cregIdx: nat, cregCount: nat)
    requires Refusal(base.name, base.attributes) == []
    ensures Refusal(CregName(base, cregIdx, cregCount), base.attributes) ==
      if base.attributes.shadowed && cregCount > 1 then [NotShadowyName] else []
  {
    NumberedNotShadowy(base.name, cregIdx);
  }

  lemma SuffixedSound(fields: seq<Field>, cregIdx: nat)
    requires SortedByLsb(fields) && DistinctNames(fields)
    ensures SortedByLsb(Suffixed(fields, cregIdx)) && DistinctNames(Suffixed(fields, cregIdx))
  {
    forall i, j | 0 <= i < j < |fields|
      ensures fields[i].name + "_" + Digits(cregIdx) != fields[j].name + "_" + Digits(cregIdx)
    {
      SuffixInjective(fields[i].name, fields[j].name, "_" + Digits(cregIdx));
      assert fields[i].name + "_" + Digits(cregIdx) == fields[i].name + ("_" + Digits(cregIdx));
      assert fields[j].name + "_" + Digits(cregIdx) == fields[j].name + ("_" + Digits(cregIdx));
    }
  }

  lemma SuffixInjective(a: string, b: string, s: string)
    ensures a + s == b + s ==> a == b
  {
    if a + s == b + s {
      assert |a| == |b|;
      assert (a + s)[..|a|] == a && (b + s)[..|b|] == b;
    }
  }

  /** The fields of one of the compacted registers, of which each holds `per` copies. */
  function CregFields(base: Register, per: nat, count: nat, compact: bool, c: nat): seq<Field>
    requires base.fields != []
  {
    var first, last := per * c, Min(per * c + per, count) - 1;
    if first <= last then NewFields(base, c, compact, first, last) else []
  }

  /** The register for one index of the compacted registers. */
  function CregOf(base: Register, regWidth: nat, count: nat, compact: bool, cregCount: nat, c: nat): Register
    requires base.fields != []
  {
    Numbered(base, c, cregCount, CregFields(base, RegsPerCreg(base, regWidth, compact), count, compact, c))
  }

  /**
   The registers that a multi-register expands into. After the two checks at the
   start a well-formed base register fails exactly if it is shadowed and does not
   fit into one register.
   */
  method MultiRegister(base: Register, regWidth: nat, count: int, compact: bool) returns (r: Result<seq<Register>>)
    requires WellFormed(base, regWidth)
    ensures compact && |base.fields| > 1 ==> r == Raised(CompactMany)
    ensures !(compact && |base.fields| > 1) && count <= 0 ==> r == Raised(BadCount)
    ensures !(compact && |base.fields| > 1) && count > 0 ==>
      && RegsPerCreg(base, regWidth, compact) > 0
      && (r.Ok? <==> !(base.attributes.shadowed && count > RegsPerCreg(base, regWidth, compact)))
      && (r.Raised? ==> r.error == NotShadowyName)
      && (r.Ok? ==> Expanded(base, regWidth, count, compact, r.value))
  {
    if compact && |base.fields| > 1 {
      return Raised(CompactMany);
    }
    if count <= 0 {
      return Raised(BadCount);
    }
    var regsPerCreg := RegsPerCreg(base, regWidth, compact);
    PerCregPositive(base, regWidth, compact);
    var regs := [];
    var cregCount := (count + regsPerCreg - 1) / regsPerCreg;
    SeveralCregs(count, regsPerCreg);
    for cregIdx := 0 to cregCount
      invariant |regs| == cregIdx && (cregIdx > 0 ==> !(base.attributes.shadowed && cregCount > 1))
      invariant forall c | 0 <= c < cregIdx :: regs[c] == CregOf(base, regWidth, count, compact, cregCount, c)
    {
      var made := MakeCreg(base, regWidth, count, compact, regsPerCreg, cregCount, cregIdx);
      if made.Raised? {
        return Raised(made.error);
      }
      regs := regs + [made.value];
    }
    return Ok(regs);
  }

  /** The registers are those of the layout, and there are just enough of them. */
  ghost predicate Expanded(base: Register, regWidth: nat, count: nat, compact: bool, regs: seq<Register>)
    requires base.fields != [] && RegsPerCreg(base, regWidth, compact) > 0
  {
    && |regs| == CeilDiv(count, RegsPerCreg(base, regWidth, compact))
    && forall c | 0 <= c < |regs| :: regs[c] == CregOf(base, regWidth, count, compact, |regs|, c)
  }

  /** One turn of the loop over the compacted registers; only the check of a shadowed register's name can fail. */
  method MakeCreg(base: Register, regWidth: nat, count: nat, compact: bool, regsPerCreg: nat, cregCount: nat,
          cregIdx: nat)
    returns (r: Result<Register>)
    requires WellFormed(base, regWidth) && count > 0 && (compact ==> |base.fields| == 1)
    requires 0 < regsPerCreg == RegsPerCreg(base, regWidth, compact) &&
      cregIdx < cregCount == CeilDiv(count, regsPerCreg)
    ensures r == if base.attributes.shadowed && cregCount > 1 then Raised(NotShadowyName)
                 else Ok(CregOf(base, regWidth, count, compact, cregCount, cregIdx))
  {
    CregRange(base, regWidth, compact, count, cregIdx);
    var minRegIdx := regsPerCreg * cregIdx;
    var maxRegIdx := Min(minRegIdx + regsPerCreg, count) - 1;
    assert CregFields(base, regsPerCreg, count, compact, cregIdx) ==
      NewFields(base, cregIdx, compact, minRegIdx, maxRegIdx);
    r := MakeMulti(base, regWidth, cregIdx, cregCount, compact, minRegIdx, maxRegIdx);
  }

  /** More than one register is needed exactly for more copies than one register holds. */
  lemma SeveralCregs(count: nat, per: nat)
    requires count > 0 && per > 0
    ensures CeilDiv(count, per) > 0 && (CeilDiv(count, per) > 1 <==> count > per)
  {
    if count <= per {
      CeilDivLeast(count, per, 1);
    }
    if CeilDiv(count, per) <= 1 {
      MulMonotone(CeilDiv(count, per), 1, per);
    }
  }

  lemma PerCregPositive(base: Register, regWidth: nat, compact: bool)
    requires WellFormed(base, regWidth)
    ensures RegsPerCreg(base, regWidth, compact) > 0
  {
    assert base.fields[0] in base.fields;
    var w := base.fields[0].bits.msb + 1;
    assert regWidth >= w > 0;
    assert regWidth / w >= 1;
  }

  /** Every register has at least one copy, and they fit. */
  lemma CregRange(base: Register, regWidth: nat, compact: bool, count: nat, c: nat)
    requires WellFormed(base, regWidth) && count > 0
    requires RegsPerCreg(base, regWidth, compact) > 0 && c < CeilDiv(count, RegsPerCreg(base, regWidth, compact))
    ensures var per := RegsPerCreg(base, regWidth, compact);
      && per * c < count
      && (!compact ==> Min(per * c + per, count) - 1 == per * c == c)
      && (compact ==> Offset(base.fields[0], Min(per * c + per, count) - per * c) <= regWidth)
  {
    var per := RegsPerCreg(base, regWidth, compact);
    CregStarts(count, per, c);
    if compact {
      CopiesFit(regWidth, base.fields[0].bits.msb + 1, Min(per * c + per, count) - per * c);
    }
  }

  lemma CregStarts(count: nat, per: nat, c: nat)
    requires per > 0 && c < CeilDiv(count, per)
    ensures per * c < count
  {
    MulMonotone(c + 1, CeilDiv(count, per), per);
    assert (c + 1) * per == c * per + per;
  }

  lemma CopiesFit(regWidth: nat, w: nat, n: nat)
    requires w > 0 && n <= regWidth / w
    ensures n * w <= regWidth
  {
    MulMonotone(n, regWidth / w, w);
    assert regWidth == w * (regWidth / w) + regWidth % w;
  }

  /** The register and the place in it of an index. */
  lemma IndexPlace(count: nat, per: nat, idx: nat)
    requires per > 0 && idx < count
    ensures idx / per < CeilDiv(count, per) && idx == per * (idx / per) + idx % per
    ensures idx < Min(per * (idx / per) + per, count)
  {
    var c, q := idx / per, CeilDiv(count, per);
    assert idx == per * c + idx % per;
    if c >= q {
      MulMonotone(q, c, per);
    }
  }

  /** The copy for an index stands at the given place, inside the register and apart from all others, and reads back. */
  ghost predicate PlacedIn(creg: Register, field: Field, regWidth: nat, idx: nat, j: nat) {
    && j < |creg.fields| && creg.fields[j].name == field.name + "_" + Decimal(idx)
    && creg.fields[j].bits.lsb == field.bits.lsb + j * (field.bits.msb + 1)
    && creg.fields[j].bits.msb == field.bits.msb + j * (field.bits.msb + 1)
    && creg.fields[j].resval == field.resval
    && creg.fields[j].bits.msb < regWidth && AllApart(creg.fields)
    && ExtractField(creg.fields[j].bits, creg.resval) == ResetOrZero(field)
  }

  lemma CopyPlaced(name: string, a: Attributes, field: Field, regWidth: nat, first: nat, last: nat, j: nat)
    requires first <= last && Offset(field, 1 + last - first) <= regWidth && j <= last - first
    ensures PlacedIn(RegisterOf(name, a, Copies(field, first, last)), field, regWidth, first + j, j)
  {
    CompactedSound(field, regWidth, first, last, j);
    assert Copies(field, first, last)[j] == CopyOf(field, first + j, j);
  }

  lemma FieldsPlaced(base: Register, regWidth: nat, per: nat, count: nat, cregCount: nat, c: nat, j: nat)
    requires |base.fields| == 1 && j < Min(per * c + per, count) - per * c
    requires Offset(base.fields[0], Min(per * c + per, count) - per * c) <= regWidth
    ensures PlacedIn(Numbered(base, c, cregCount, CregFields(base, per, count, true, c)), base.fields[0], regWidth,
      per * c + j, j)
  {
    var first, last := per * c, Min(per * c + per, count) - 1;
    CopyPlaced(CregName(base, c, cregCount), base.attributes, base.fields[0], regWidth, first, last, j);
  }

  lemma CregPlaced(base: Register, regWidth: nat, count: nat, per: nat, c: nat, j: nat)
    requires WellFormed(base, regWidth) && |base.fields| == 1 && 0 < per == RegsPerCreg(base, regWidth, true)
    requires c < CeilDiv(count, per) && j < Min(per * c + per, count) - per * c
    ensures PlacedIn(CregOf(base, regWidth, count, true, CeilDiv(count, per), c), base.fields[0], regWidth,
      per * c + j, j)
  {
    CregRange(base, regWidth, true, count, c);
    FieldsPlaced(base, regWidth, per, count, CeilDiv(count, per), c, j);
  }

  /** In a compacted multi-register every index has its copy, which reads back the reset value. */
  lemma EveryIndexPlaced(base: Register, regWidth: nat, count: nat, idx: nat) returns (c: nat, j: nat)
    requires WellFormed(base, regWidth) && |base.fields| == 1 && idx < count
    ensures 0 < RegsPerCreg(base, regWidth, true) && c < CeilDiv(count, RegsPerCreg(base, regWidth, true))
    ensures j < RegsPerCreg(base, regWidth, true) && idx == RegsPerCreg(base, regWidth, true) * c + j
    ensures var n := CeilDiv(count, RegsPerCreg(base, regWidth, true));
      var creg := CregOf(base, regWidth, count, true, n, c);
      && PlacedIn(creg, base.fields[0], regWidth, idx, j)
      && creg.name == if n > 1 then base.name + "_" + Decimal(c) else base.name
  {
    var per := RegsPerCreg(base, regWidth, true);
    PerCregPositive(base, regWidth, true);
    c, j := idx / per, idx % per;
    IndexPlace(count, per, idx);
    CregPlaced(base, regWidth, count, per, c, j);
  }

  lemma EarlierPlace(per: nat, c: nat, j: nat, c': nat, j': nat)
    requires j < per && c < c'
    ensures per * c + j < per * c' + j'
  {
    MulMonotone(c + 1, c', per);
    assert (c + 1) * per == c * per + per;
  }

  /** And it has only one: different places have different indices. */
  lemma OnePlace(per: nat, c: nat, j: nat, c': nat, j': nat)
    requires j < per && j' < per && (c, j) != (c', j')
    ensures per * c + j != per * c' + j'
  {
    if c < c' {
      EarlierPlace(per, c, j, c', j');
    } else if c' < c {
      EarlierPlace(per, c', j', c, j);
    }
  }

  /** Without packing, every field keeps its bits and reset value and gets the register's number behind its name. */
  lemma SuffixedFields(fields: seq<Field>, cregIdx: nat, k: nat)
    requires k < |fields|
    ensures |Suffixed(fields, cregIdx)| == |fields|
    ensures var f := Suffixed(fields, cregIdx)[k];
      f.name == fields[k].name + "_" + Decimal(cregIdx) && f.bits == fields[k].bits && f.resval == fields[k].resval
  {}

  /** Without packing, every register resets to the value of the base register. */
  lemma {:induction false} SuffixedReset(fields: seq<Field>, cregIdx: nat)
    ensures ResetOf(Suffixed(fields, cregIdx)) == ResetOf(fields) && MaskOf(Suffixed(fields, cregIdx)) == MaskOf(fields)
  {
    if fields != [] {
      var n := |fields| - 1;
      assert Suffixed(fields, cregIdx)[..n] == Suffixed(fields[..n], cregIdx);
      SuffixedReset(fields[..n], cregIdx);
    }
  }

  lemma LowerSuffix(stem: string)
    ensures SoundsShadowy(stem + SHADOWED)
  {
    var s := stem + SHADOWED;
    forall i | 0 <= i < |SHADOWED|
      ensures LowerAll(s)[|stem|..][i] == SHADOWED[i]
    {
      assert s[|stem| + i] == SHADOWED[i];
      assert SHADOWED[i] == '_' || 'a' <= SHADOWED[i] <= 'z';
    }
    assert LowerAll(s)[|stem|..] == SHADOWED;
  }

  /** A shadowed register of one bit at place zero is well formed. */
  lemma ShadowedBit(stem: string) returns (base: Register)
    ensures base.name == stem + SHADOWED && base.attributes.shadowed && |base.fields| == 1 &&
      base.fields[0].bits == Range(0, 0)
    ensures WellFormed(base, 32)
  {
    var attributes := Attributes(false, false, false, false, true, true, true);
    base := Register(stem + SHADOWED, attributes, [RawField("en", Range(0, 0), Known(0))], 0, 1);
    LowerSuffix(stem);
  }

  lemma OnePerBit(base: Register, regWidth: nat)
    requires base.fields != [] && base.fields[0].bits.msb == 0
    ensures RegsPerCreg(base, regWidth, true) == regWidth
  {}

  /** Yet 33 copies of it, whatever the stem of its name, need two registers of 32 bits, and each of them is refused. */
  lemma ShadowedRefused(stem: string, c: nat) returns (base: Register)
    ensures base.name == stem + SHADOWED && WellFormed(base, 32) && |base.fields| == 1 && base.attributes.shadowed
    ensures 33 > RegsPerCreg(base, 32, true) && Refusal(CregName(base, c, 2), base.attributes) == [NotShadowyName]
  {
    base := ShadowedBit(stem);
    NumberedRefusal(base, c, 2);
    OnePerBit(base, 32);
  }
}
