/** The windows of structs, tuples and variants: the sizes of their fields are added up in `usize`
    without overflow checks, on reading and on writing. */
module FieldWindows {
  import opened Prim
  import opened IntEncoding
  import opened TypeMetas
  import opened Schemas
  import opened Lens
  import opened Codec
  import opened StaticSize
  import opened WindowSizes

  /** What static fields consume, however they are read, is the sum of their sizes. The window opened
      for them covers it exactly when the sum is smaller than the address space, and is then exactly
      as large. If it is not, no input is long enough for the fields. */
  lemma ReadWindowCovers(c: Config, w: Mode, fs: seq<Field>, b: bytes)
    requires WfFields(c, fs) && RoomyFields(c, fs) && Join(FieldMetas(c, Reading, fs)).Static?
    ensures var ms := FieldMetas(c, Reading, fs);
            var window := Join(ms).size;
            && Exact(DecodeFields(c, w, fs, b), b, Total(ms))
            && (window >= Total(ms) <==> Total(ms) < USIZE)
            && (window >= Total(ms) ==> window == Total(ms))
            && (Total(ms) >= USIZE && |b| < USIZE ==> DecodeFields(c, w, fs, b).Fail?)
  {
    StaticFields(c, w, fs, b);
    JoinCovers(FieldMetas(c, Reading, fs));
  }

  /** The same for what static fields write. */
  lemma WriteWindowCovers(c: Config, fs: seq<Field>, vs: seq<Value>)
    requires WfFields(c, fs) && FieldsTyped(fs, vs) && FieldsSized(c, fs, vs)
    requires Join(FieldMetas(c, Writing, fs)).Static? && EncodeFields(c, fs, vs).Wrote?
    ensures var ms, written := FieldMetas(c, Writing, fs), |EncodeFields(c, fs, vs).value|;
            var window := Join(ms).size;
            && written == Total(ms)
            && (window >= written <==> Total(ms) < USIZE)
            && (window >= written ==> window == written)
  {
    SizedWriteFields(c, fs, vs);
    JoinCovers(FieldMetas(c, Writing, fs));
  }

  /** And for the tag of a variant and its fields. */
  lemma VariantWindowCovers(c: Config, tag: Option<IntKind>, t: nat, fs: seq<Field>, vs: seq<Value>)
    requires TagKind(c, tag).Valid() && WfFields(c, fs) && FieldsTyped(fs, vs) && FieldsSized(c, fs, vs)
    requires Join([IntMeta(c, TagKind(c, tag))] + FieldMetas(c, Writing, fs)).Static?
    requires EncodeTag(c, tag, t).Wrote? && EncodeFields(c, fs, vs).Wrote?
    ensures var ms := [IntMeta(c, TagKind(c, tag))] + FieldMetas(c, Writing, fs);
            var window, written := Join(ms).size, |EncodeTag(c, tag, t).value| + |EncodeFields(c, fs, vs).value|;
            && written == Total(ms)
            && (window >= written <==> Total(ms) < USIZE)
            && (window >= written ==> window == written)
  {
    hide EncodeTag, EncodeFields;
    var m, ms := IntMeta(c, TagKind(c, tag)), FieldMetas(c, Writing, fs);
    JoinCons(m, ms);
    StaticTag(c, tag, t);
    SizedWriteFields(c, fs, vs);
    JoinCovers([m] + ms);
  }

  /** Whatever lies inside the fields, the window is what they write modulo the address space, so it
      covers them exactly when they write less than that. */
  lemma WriteWindowWraps(c: Config, fs: seq<Field>, vs: seq<Value>)
    requires WfFields(c, fs) && FieldsTyped(fs, vs)
    requires Join(FieldMetas(c, Writing, fs)).Static? && EncodeFields(c, fs, vs).Wrote?
    ensures var window, written := Join(FieldMetas(c, Writing, fs)).size, |EncodeFields(c, fs, vs).value|;
            && window == written % USIZE
            && (window >= written <==> written < USIZE)
  {
    hide EncodeFields, FieldMetas, SameAddress;
    StaticWriteFields(c, Writing, fs, vs);
    SameRemainder(|EncodeFields(c, fs, vs).value|, Join(FieldMetas(c, Writing, fs)).size);
  }

  lemma SameRemainder(n: nat, window: nat)
    requires SameAddress(n, window) && window < USIZE
    ensures window == n % USIZE && (window >= n <==> n < USIZE)
  {
    WrapsOrNot(n);
  }

  // Where the promise fails

  /** An array of 2^61 enums of one variant: nothing in memory, 2^63 bytes on the wire. */
  function HalfArray(): Schema { ArrS(0x2000_0000_0000_0000, UnitEnum()) }

  function HalfValue(): Value { ListV(Repeated(0x2000_0000_0000_0000, EnumV(0, []))) }

  function TwoHalves(): seq<Field> { [Field(HalfArray(), None), Field(HalfArray(), None)] }

  /** An enum whose one variant has two such arrays for fields. */
  function WideEnum(): Schema { EnumS(None, [Variant(None, TwoHalves())], Layout(0, 1)) }

  function WideValue(): Value { EnumV(0, [HalfValue(), HalfValue()]) }

  lemma {:induction false} HalfArrayFacts(c: Config)
    requires !c.ints.varint && c.tag == IntKind(4, false)
    ensures Wf(c, HalfArray()) && Roomy(c, HalfArray()) && WellTyped(HalfArray(), HalfValue()) && Sized(c, HalfArray(), HalfValue())
    ensures LayoutOf(HalfArray()).size == 0
    ensures forall side :: Meta(c, side, HalfArray()) == Static(USIZE / 2, false)
    ensures Encode(c, HalfArray(), HalfValue()).Wrote? && |Encode(c, HalfArray(), HalfValue()).value| == USIZE / 2
  {
    hide EncodeAll, AllTyped, AllSized;
    var n := 0x2000_0000_0000_0000;
    UnitEnumsWritten(c, n);
    assert Times(n, 4) == USIZE / 2 && Times(n, 0) == 0;
    assert Meta(c, Reading, HalfArray()) == Meta(c, Writing, HalfArray()) == Static(USIZE / 2, false);
  }

  lemma {:induction false} OneHalf(c: Config)
    requires !c.ints.varint && c.tag == IntKind(4, false)
    ensures var fs, vs := [Field(HalfArray(), None)], [HalfValue()];
            && WfFields(c, fs) && RoomyFields(c, fs) && FieldsTyped(fs, vs) && FieldsSized(c, fs, vs)
            && EncodeFields(c, fs, vs).Wrote? && |EncodeFields(c, fs, vs).value| == USIZE / 2
  {
    hide Wf, Encode, WellTyped, Sized, Meta;
    HalfArrayFacts(c);
    var fs, vs := [Field(HalfArray(), None)], [HalfValue()];
    assert fs[1..] == [] && vs[1..] == [];
    assert RoomyFields(c, []) && FieldsSized(c, [], []) && EncodeFields(c, [], []) == Wrote([]);
  }

  lemma {:induction false} TwoHalvesRoomy(c: Config)
    requires !c.ints.varint && c.tag == IntKind(4, false)
    ensures WfFields(c, TwoHalves()) && RoomyFields(c, TwoHalves())
  {
    hide Wf, Roomy, Meta, Encode, HalfArray, FieldMetas, FieldsTyped, FieldsSized, EncodeFields;
    HalfArrayFacts(c);
    OneHalf(c);
    assert TwoHalves()[1..] == [Field(HalfArray(), None)];
  }

  lemma {:induction false} TwoHalvesMetas(c: Config, side: Side)
    requires !c.ints.varint && c.tag == IntKind(4, false)
    ensures var m := Static(USIZE / 2, false);
            FieldMetas(c, side, TwoHalves()) == [m, m]
  {
    hide Meta, HalfArray;
    HalfArrayFacts(c);
    assert TwoHalves()[1..] == [Field(HalfArray(), None)] && TwoHalves()[1..][1..] == [];
    assert FieldMetas(c, side, TwoHalves()[1..]) == [Meta(c, side, HalfArray())] + FieldMetas(c, side, []);
  }

  lemma {:induction false} TwoHalvesFacts(c: Config, side: Side)
    requires !c.ints.varint && c.tag == IntKind(4, false)
    ensures WfFields(c, TwoHalves()) && RoomyFields(c, TwoHalves())
    ensures var m := Static(USIZE / 2, false);
            FieldMetas(c, side, TwoHalves()) == [m, m] && Join([m, m]) == Static(0, false) && Total([m, m]) == USIZE
  {
    hide FieldMetas, Join, Total, WfFields, RoomyFields, TwoHalves;
    TwoHalvesRoomy(c);
    TwoHalvesMetas(c, side);
    TwoSizes(USIZE / 2);
  }

  lemma TwoSizes(n: nat)
    requires n < USIZE
    ensures var m := Static(n, false);
            Join([m, m]) == Static((n + n) % USIZE, false) && Total([m, m]) == n + n
  {
    var m := Static(n, false);
    assert [m, m][1..] == [m] && [m][1..] == [];
    assert Join([m]) == m;
    assert Total([m]) == n + Total([m][1..]) == n;
  }

  lemma {:induction false} WideWritten(c: Config)
    requires !c.ints.varint && c.tag == IntKind(4, false)
    ensures var vs := [HalfValue(), HalfValue()];
            && WfFields(c, TwoHalves()) && FieldsTyped(TwoHalves(), vs) && FieldsSized(c, TwoHalves(), vs)
            && EncodeFields(c, TwoHalves(), vs).Wrote? && |EncodeFields(c, TwoHalves(), vs).value| == USIZE
  {
    hide Wf, Encode, WellTyped, Sized, HalfArray, HalfValue;
    HalfArrayFacts(c);
    OneHalf(c);
    var fs, vs := TwoHalves(), [HalfValue(), HalfValue()];
    assert fs[1..] == [Field(HalfArray(), None)] && vs[1..] == [HalfValue()];
  }

  lemma {:induction false} WideEnumFacts(c: Config)
    requires !c.ints.varint && c.tag == IntKind(4, false)
    ensures Wf(c, WideEnum()) && WellTyped(WideEnum(), WideValue())
    ensures forall side :: Meta(c, side, WideEnum()) == Static(4, false)
    ensures Join([IntMeta(c, c.tag)] + FieldMetas(c, Writing, TwoHalves())) == Static(4, false)
    ensures !Holds([IntMeta(c, c.tag)] + FieldMetas(c, Writing, TwoHalves()))
  {
    hide Wf, WellTyped, FieldMetas, Meta;
    WideWritten(c);
    forall side
      ensures Meta(c, side, WideEnum()) == Static(4, false)
    {
      WideMeta(c, side);
    }
    WideMeta(c, Writing);
    WideIsWf(c);
  }

  lemma {:induction false} WideMeta(c: Config, side: Side)
    requires !c.ints.varint && c.tag == IntKind(4, false)
    ensures Meta(c, side, WideEnum()) == Static(4, false)
    ensures Join([IntMeta(c, c.tag)] + FieldMetas(c, side, TwoHalves())) == Static(4, false)
    ensures !Holds([IntMeta(c, c.tag)] + FieldMetas(c, side, TwoHalves()))
  {
    hide FieldMetas, HalfArray;
    var tag, vs := IntMeta(c, c.tag), [Variant(None, TwoHalves())];
    TwoHalvesFacts(c, side);
    JoinCons(tag, FieldMetas(c, side, TwoHalves()));
    VariantMeta(c, side, tag, vs, 0);
  }

  lemma {:induction false} WideIsWf(c: Config)
    requires !c.ints.varint && c.tag == IntKind(4, false)
    ensures Wf(c, WideEnum()) && WellTyped(WideEnum(), WideValue())
  {
    hide HalfArray, HalfValue, FieldsTyped, WfFields, TwoHalves;
    TwoHalvesFacts(c, Reading);
    WideMeta(c, Reading);
    WideMeta(c, Writing);
    WideWritten(c);
    var vs := [Variant(None, TwoHalves())];
    assert vs[1..] == [];
    PowValues();
  }

  /** The compiler lets this enum through. Reading it, a window of no bytes is opened for fields that
      read 2^64, so the first tag in them is read outside it, whatever the input; writing it, four
      bytes are announced and reserved, and everything behind the tag is written outside them. */
  lemma {:induction false} VariantWindowWraps(c: Config, b: bytes)
    requires !c.ints.varint && c.tag == IntKind(4, false) && |b| < USIZE
    ensures Wf(c, WideEnum()) && WellTyped(WideEnum(), WideValue()) && LayoutOf(WideEnum()).size == 0
    ensures var fs := TwoHalves();
            && WfFields(c, fs) && Join(FieldMetas(c, Reading, fs)) == Static(0, false)
            && Exact(DecodeFields(c, Plain, fs, b), b, USIZE) && DecodeFields(c, Plain, fs, b).Fail?
    ensures var e := Encode(c, WideEnum(), WideValue());
            && Join([IntMeta(c, c.tag)] + FieldMetas(c, Writing, TwoHalves())) == Static(4, false)
            && SizeOf(c, WideEnum(), WideValue()) == Wrote(4)
            && e.Wrote? && |e.value| == 4 + USIZE
    ensures !Roomy(c, WideEnum()) && !Sized(c, WideEnum(), WideValue())
  {
    WideEnumFacts(c);
    WideEncoded(c);
    TwoHalvesFacts(c, Reading);
    ReadWindowCovers(c, Plain, TwoHalves(), b);
    WideNotRoomy(c);
    SizeExact(c, WideEnum(), WideValue());
  }

  lemma {:induction false} WideEncoded(c: Config)
    requires !c.ints.varint && c.tag == IntKind(4, false)
    requires Wf(c, WideEnum()) && WellTyped(WideEnum(), WideValue())
    ensures var e := Encode(c, WideEnum(), WideValue());
            e.Wrote? && |e.value| == 4 + USIZE
  {
    hide EncodeFields, FieldsTyped, WfFields, HalfArray, HalfValue;
    WideWritten(c);
    PowValues();
    StaticTag(c, None, 0);
  }

  lemma {:induction false} WideNotRoomy(c: Config)
    requires !c.ints.varint && c.tag == IntKind(4, false)
    ensures !Roomy(c, WideEnum())
    ensures Wf(c, WideEnum()) && WellTyped(WideEnum(), WideValue()) ==> !Sized(c, WideEnum(), WideValue())
  {
    hide Meta, FieldMetas, RoomyFields, FieldsSized;
    WideMeta(c, Reading);
    WideMeta(c, Writing);
  }
}
