/** The scalar-type id codec: `ScalarType.id`, `from_id` and the id registry of vllm/scalar_type.py, and
    `id`, `from_id` of csrc/core/scalar_type.hpp.

    `nanRepr` is the numeric value of the NaN convention. */
module ScalarTypes {
  import opened Wrappers
  import opened Arithmetic

  datatype ScalarType = ScalarType(
    exponent: int,
    mantissa: int,
    signed: bool,
    bias: int,
    finiteValuesOnly: bool,
    nanRepr: int)

  /** The fields fit the C++ members. */
  predicate InRange(t: ScalarType) {
    && 0 <= t.exponent < 0x100
    && 0 <= t.mantissa < 0x100
    && -0x8000_0000 <= t.bias < 0x8000_0000
    && 0 <= t.nanRepr < 0x100
  }

  // ----- packing fields

  datatype Field = Field(value: int, width: nat)

  /** `value & ((1 << width) - 1)` */
  function Low(f: Field): (r: nat)
    ensures r < Pow2(f.width)
  {
    f.value % Pow2(f.width)
  }

  function Width(fields: seq<Field>): nat {
    if fields == [] then 0 else fields[0].width + Width(fields[1..])
  }

  /** The number whose bits are the fields, the first one lowest. */
  function Pack(fields: seq<Field>): nat {
    if fields == [] then 0 else Low(fields[0]) + Pow2(fields[0].width) * Pack(fields[1..])
  }

  /** One `or_and_advance` step on the value. */
  function OrIn(val: nat, offset: nat, f: Field): int {
    BitOr(val, Low(f) * Pow2(offset))
  }

  /** The C++ fold over the members, from a partial id and its bit offset. */
  function OrFold(val: nat, offset: nat, fields: seq<Field>): int
    requires val < Pow2(offset)
    decreases fields
  {
    if fields == [] then val
    else
      OrInAdds(val, offset, fields[0]);
      OrFold(OrIn(val, offset, fields[0]), offset + fields[0].width, fields[1..])
  }

  lemma OrInAdds(val: nat, offset: nat, f: Field)
    requires val < Pow2(offset)
    ensures OrIn(val, offset, f) == val + Pow2(offset) * Low(f)
    ensures 0 <= OrIn(val, offset, f) < Pow2(offset + f.width)
  {
    var digit, p := Low(f), Pow2(offset);
    BitOrDisjoint(val, digit, offset);
    assert digit * p == p * digit;
    Pow2Add(offset, f.width);
    DigitFits(val, p, digit, Pow2(f.width));
  }

  lemma DigitFits(val: nat, p: nat, digit: nat, base: nat)
    requires val < p && digit < base
    ensures val + p * digit < p * base
  {
    MulMonotone(digit + 1, base, p);
    assert (digit + 1) * p == p * digit + p;
  }

  lemma Regroup(val: nat, p: nat, digit: nat, base: nat, rest: nat)
    ensures val + p * digit + (p * base) * rest == val + p * (digit + base * rest)
  {
    assert (p * base) * rest == p * (base * rest);
  }

  lemma {:induction false} OrFoldPacks(val: nat, offset: nat, fields: seq<Field>)
    requires val < Pow2(offset)
    ensures OrFold(val, offset, fields) == val + Pow2(offset) * Pack(fields)
    decreases fields
  {
    if fields != [] {
      var f, rest := fields[0], fields[1..];
      OrInAdds(val, offset, f);
      OrFoldPacks(OrIn(val, offset, f), offset + f.width, rest);
      Pow2Add(offset, f.width);
      Regroup(val, Pow2(offset), Low(f), Pow2(f.width), Pack(rest));
    }
  }

  /** `(id >> offset) & mask` */
  function Extract(id: nat, offset: nat, width: nat): nat {
    (id / Pow2(offset)) % Pow2(width)
  }

  lemma {:induction false} ExtractPacked(fields: seq<Field>, i: nat)
    requires i < |fields|
    ensures Extract(Pack(fields), Width(fields[..i]), fields[i].width) == Low(fields[i])
  {
    var f, rest := fields[0], Pack(fields[1..]);
    var p := Pow2(f.width);
    assert Pack(fields) == rest * p + Low(f);
    DivModUnique(Pack(fields), rest, Low(f), p);
    if i == 0 {
      assert Width(fields[..0]) == 0;
      assert Pack(fields) / 1 == Pack(fields);
    } else {
      assert fields[..i][1..] == fields[1..][..i - 1];
      var offset := Width(fields[1..][..i - 1]);
      Pow2Add(f.width, offset);
      DivDiv(Pack(fields), p, Pow2(offset));
      ExtractPacked(fields[1..], i - 1);
    }
  }

  lemma DivDiv(x: nat, a: nat, b: nat)
    requires a > 0 && b > 0
    ensures a * b > 0 && x / (a * b) == x / a / b
  {
    var q, r := x / a, x % a;
    DivDivParts(x, a, b, q, r, q / b, q % b);
  }

  lemma DivDivParts(x: nat, a: nat, b: nat, q: nat, r: nat, q': nat, r': nat)
    requires a > 0 && b > 0 && x == q * a + r && r < a && q == q' * b + r' && r' < b
    ensures a * b > 0 && x / (a * b) == q'
  {
    DigitFits(r, a, r', b);
    assert x == q' * (a * b) + (r' * a + r) by {
      assert (q' * b + r') * a == q' * (a * b) + r' * a;
    }
    DivModUnique(x, q', r' * a + r, a * b);
  }

  // ----- the two codecs

  function Bit(b: bool): int { if b then 1 else 0 }

  function Fields(t: ScalarType): seq<Field> {
    [Field(t.exponent, 8), Field(t.mantissa, 8), Field(Bit(t.signed), 1),
     Field(t.bias, 32), Field(Bit(t.finiteValuesOnly), 1), Field(t.nanRepr, 8)]
  }

  /** C++ `id` */
  function CppId(t: ScalarType): int {
    OrFold(0, 0, Fields(t))
  }

  /** The members from the bits extracted for them. */
  function Build(exponent: nat, mantissa: nat, signed: nat, bias: nat, finite: nat, nanRepr: nat): ScalarType {
    ScalarType(
      exponent, mantissa, signed != 0,
      if bias < 0x8000_0000 then bias else bias - 0x1_0000_0000,
      finite != 0, nanRepr)
  }

  /** C++ `from_id` of the low 58 bits. */
  function CppFromId(id: nat): ScalarType {
    Build(Extract(id, 0, 8), Extract(id, 8, 8), Extract(id, 16, 1),
          Extract(id, 17, 32), Extract(id, 49, 1), Extract(id, 50, 8))
  }

  lemma Powers()
    ensures Pow2(0) == 1 && Pow2(1) == 2 && Pow2(8) == 0x100 && Pow2(32) == 0x1_0000_0000
  {
    assert Pow2(4) == 16;
    Pow2Add(4, 4);
    Pow2Add(8, 8);
    Pow2Add(16, 16);
  }

  lemma Offsets(t: ScalarType)
    ensures
      var fields := Fields(t);
      && Width(fields[..0]) == 0 && Width(fields[..1]) == 8 && Width(fields[..2]) == 16
      && Width(fields[..3]) == 17 && Width(fields[..4]) == 49 && Width(fields[..5]) == 50
  {
    var fields := Fields(t);
    assert fields[..1] == [fields[0]];
    WidthStep(fields, 1);
    WidthStep(fields, 2);
    WidthStep(fields, 3);
    WidthStep(fields, 4);
  }

  lemma {:induction false} WidthStep(fields: seq<Field>, i: nat)
    requires i < |fields|
    ensures Width(fields[..i + 1]) == Width(fields[..i]) + fields[i].width
  {
    if i == 0 {
      assert fields[..1] == [fields[0]];
    } else {
      assert fields[..i + 1][1..] == fields[1..][..i] && fields[..i][1..] == fields[1..][..i - 1];
      WidthStep(fields[1..], i - 1);
    }
  }

  /** The masked members, in order. */
  lemma LowFields(t: ScalarType)
    ensures
      var f := Fields(t);
      && Low(f[0]) == t.exponent % 0x100 && Low(f[1]) == t.mantissa % 0x100
      && Low(f[2]) == Bit(t.signed) && Low(f[3]) == t.bias % 0x1_0000_0000
      && Low(f[4]) == Bit(t.finiteValuesOnly) && Low(f[5]) == t.nanRepr % 0x100
  {
    Powers();
  }

  lemma IdIsPacked(t: ScalarType)
    ensures CppId(t) == Pack(Fields(t))
  {
    OrFoldPacks(0, 0, Fields(t));
  }

  /** Reading an id back gives the members modulo their widths. */
  lemma FromIdReads(t: ScalarType)
    ensures CppFromId(Pack(Fields(t))) == Build(
      t.exponent % 0x100, t.mantissa % 0x100, Bit(t.signed),
      t.bias % 0x1_0000_0000, Bit(t.finiteValuesOnly), t.nanRepr % 0x100)
  {
    var fields := Fields(t);
    Offsets(t);
    LowFields(t);
    ExtractPacked(fields, 0);
    ExtractPacked(fields, 1);
    ExtractPacked(fields, 2);
    ExtractPacked(fields, 3);
    ExtractPacked(fields, 4);
    ExtractPacked(fields, 5);
  }

  lemma BuildInRange(t: ScalarType)
    requires InRange(t)
    ensures t == Build(
      t.exponent % 0x100, t.mantissa % 0x100, Bit(t.signed),
      t.bias % 0x1_0000_0000, Bit(t.finiteValuesOnly), t.nanRepr % 0x100)
  {}

  /** The C++ codec is a round trip, negative bias included. */
  lemma RoundTrip(t: ScalarType)
    requires InRange(t)
    ensures CppId(t) >= 0 && CppFromId(CppId(t)) == t
  {
    IdIsPacked(t);
    FromIdReads(t);
    BuildInRange(t);
  }

  /** The layout of an id, from the lowest bit: exponent, mantissa, sign, bias, finiteness, NaN convention. */
  lemma IdLayout(t: ScalarType)
    ensures CppId(t) ==
      t.exponent % 0x100
       + 0x100 * (t.mantissa % 0x100)
       + 0x1_0000 * Bit(t.signed)
       + 0x2_0000 * (t.bias % 0x1_0000_0000)
       + 0x2_0000_0000_0000 * Bit(t.finiteValuesOnly)
       + 0x4_0000_0000_0000 * (t.nanRepr % 0x100)
  {
    IdIsPacked(t);
    LowFields(t);
    PackNested(Fields(t));
  }

  /** Six members of widths 8, 8, 1, 32, 1 and 8. */
  lemma PackNested(f: seq<Field>)
    requires |f| == 6 && f[0].width == 8 && f[1].width == 8 && f[2].width == 1
    requires f[3].width == 32 && f[4].width == 1 && f[5].width == 8
    ensures Pack(f) ==
      Low(f[0]) + 0x100 * Low(f[1]) + 0x1_0000 * Low(f[2]) + 0x2_0000 * Low(f[3])
      + 0x2_0000_0000_0000 * Low(f[4]) + 0x4_0000_0000_0000 * Low(f[5])
  {
    Powers();
    PackTail(f, 5);
    PackTail(f, 4);
    PackTail(f, 3);
    PackTail(f, 2);
    PackTail(f, 1);
    PackTail(f, 0);
    assert f[0..] == f && f[6..] == [];
  }

  lemma PackTail(f: seq<Field>, i: nat)
    requires i < |f|
    ensures Pack(f[i..]) == Low(f[i]) + Pow2(f[i].width) * Pack(f[i + 1..])
  {
    assert f[i..][1..] == f[i + 1..];
  }

  /** Members agree modulo the widths of their fields. */
  predicate SameFields(t: ScalarType, u: ScalarType) {
    && t.exponent % 0x100 == u.exponent % 0x100
    && t.mantissa % 0x100 == u.mantissa % 0x100
    && t.signed == u.signed
    && t.bias % 0x1_0000_0000 == u.bias % 0x1_0000_0000
    && t.finiteValuesOnly == u.finiteValuesOnly
    && t.nanRepr % 0x100 == u.nanRepr % 0x100
  }

  /** Two types have one id exactly when their members agree modulo their widths. */
  lemma SameIdExactly(t: ScalarType, u: ScalarType)
    ensures CppId(t) == CppId(u) <==> SameFields(t, u)
  {
    IdIsPacked(t);
    IdIsPacked(u);
    FromIdReads(t);
    FromIdReads(u);
    LowFields(t);
    LowFields(u);
    var a, b := Fields(t), Fields(u);
    if forall i | 0 <= i < |a| :: Low(a[i]) == Low(b[i]) {
      PackDetermined(a, b);
    }
  }

  /** The id is injective on types whose members fit. */
  lemma IdInjective(t: ScalarType, u: ScalarType)
    requires InRange(t) && InRange(u) && CppId(t) == CppId(u)
    ensures t == u
  {
    RoundTrip(t);
    RoundTrip(u);
  }

  lemma {:induction false} PackDetermined(a: seq<Field>, b: seq<Field>)
    requires |a| == |b| && forall i | 0 <= i < |a| :: a[i].width == b[i].width && Low(a[i]) == Low(b[i])
    ensures Pack(a) == Pack(b)
  {
    if a != [] {
      PackDetermined(a[1..], b[1..]);
    }
  }

  // ----- the Python codec and its registry

  /** `val` and `offset` after one `or_and_advance`. */
  method OrAndAdvance(val: nat, offset: nat, member: int, bitWidth: nat) returns (val': nat, offset': nat)
    requires val < Pow2(offset)
    ensures val' == val + Pow2(offset) * Low(Field(member, bitWidth)) && offset' == offset + bitWidth
    ensures val' < Pow2(offset')
  {
    OrInAdds(val, offset, Field(member, bitWidth));
    val' := BitOr(val, member % Pow2(bitWidth) * Pow2(offset));
    offset' := offset + bitWidth;
  }

  lemma {:induction false} PackSnoc(fields: seq<Field>, f: Field)
    ensures Pack(fields + [f]) == Pack(fields) + Pow2(Width(fields)) * Low(f)
  {
    if fields == [] {
      assert [f][1..] == [] && fields + [f] == [f];
      assert Pow2(0) * Low(f) == Low(f) && Pow2(f.width) * 0 == 0;
    } else {
      var g, rest := fields[0], fields[1..];
      assert (fields + [f])[1..] == rest + [f];
      PackSnoc(rest, f);
      Pow2Add(g.width, Width(rest));
      Distribute(Pow2(g.width), Pack(rest), Pow2(Width(rest)), Low(f));
    }
  }

  lemma Distribute(a: nat, b: nat, c: nat, d: nat)
    ensures a * (b + c * d) == a * b + (a * c) * d
  {
    assert a * (c * d) == (a * c) * d;
  }

  /** Python `id`: the same number as in C++. */
  method PyId(t: ScalarType) returns (val: nat)
    ensures val == CppId(t) && val < Pow2(58)
  {
    var fields := Fields(t);
    var offset := 0;
    val := 0;
    for i := 0 to |fields|
      invariant offset == Width(fields[..i]) && val == Pack(fields[..i]) && val < Pow2(offset)
    {
      assert fields[..i + 1] == fields[..i] + [fields[i]];
      PackSnoc(fields[..i], fields[i]);
      WidthStep(fields, i);
      val, offset := OrAndAdvance(val, offset, fields[i].value, fields[i].width);
    }
    assert fields[..|fields|] == fields;
    Offsets(t);
    WidthStep(fields, 5);
    assert offset == 58;
    IdIsPacked(t);
  }

  /** `_SCALAR_TYPES_ID_MAP` with the two members that use it. */
  class Registry {
    var types: map<int, ScalarType>

    constructor ()
      ensures Valid() && types == map[]
    {
      types := map[];
    }

    /** Every type is registered under its own id. */
    predicate Valid()
      reads this
    {
      forall id | id in types :: CppId(types[id]) == id
    }

    /** Computing an id registers the type, in place of any type with the same id.  No other type is lost
        unless the members of one of the two do not fit their fields. */
    method Id(t: ScalarType) returns (val: nat)
      requires Valid()
      modifies this
      ensures Valid() && val == CppId(t) && types == old(types)[val := t]
      ensures forall id | id in old(types) && !SameFields(old(types)[id], t) :: types[id] == old(types)[id]
      ensures forall id | id in old(types) && InRange(old(types)[id]) && InRange(t) :: types[id] == old(types)[id]
    {
      val := PyId(t);
      if val in types {
        SameIdExactly(types[val], t);
        if InRange(types[val]) && InRange(t) {
          SameFieldsInRange(types[val], t);
        }
      }
      types := types[val := t];
    }

    /** `from_id`: the type last registered under the id, ValueError without one.  It is what C++ would
        decode, exactly when its members fit their fields. */
    method FromId(id: int) returns (r: Result<ScalarType, int>)
      requires Valid()
      ensures r.Err? <==> id !in types
      ensures r.Ok? ==> r.value == types[id] && id >= 0 && (r.value == CppFromId(id) <==> InRange(r.value))
    {
      if id !in types {
        return Err(id);
      }
      IdIsNatural(types[id]);
      DecodedExactly(types[id]);
      r := Ok(types[id]);
    }
  }

  lemma IdIsNatural(t: ScalarType)
    ensures CppId(t) >= 0
  {
    OrFoldPacks(0, 0, Fields(t));
  }

  lemma DecodedInRange(id: nat)
    ensures InRange(CppFromId(id))
  {
    Powers();
  }

  /** Decoding an id gives the type back exactly when its members fit their fields. */
  lemma DecodedExactly(t: ScalarType)
    ensures CppId(t) >= 0 && (CppFromId(CppId(t)) == t <==> InRange(t))
  {
    IdIsNatural(t);
    DecodedInRange(CppId(t));
    if InRange(t) {
      RoundTrip(t);
    }
  }

  lemma SameFieldsInRange(t: ScalarType, u: ScalarType)
    requires SameFields(t, u) && InRange(t) && InRange(u)
    ensures t == u
  {}
}
