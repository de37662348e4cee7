/** The window reserved for a sequence on writing: its size is computed in `usize` without overflow
    checks. */
module WindowSizes {
  import opened Prim
  import opened IntEncoding
  import opened TypeMetas
  import opened Schemas
  import opened Lens
  import opened Codec
  import opened StaticSize

  /** The bytes reserved for a length and `n` elements of `size` bytes. */
  function WindowFor(c: Config, len: SeqLen, n: nat, size: nat): Written<nat>
    requires len.kind.Valid()
  {
    var k :- LenBytesNeeded(c, len, n);
    Wrote(WrappingAdd(k, WrappingMul(size, n)))
  }

  /** The length and `n` elements of `size` bytes together are shorter than the address space. */
  predicate Fits(c: Config, len: SeqLen, n: nat, size: nat)
    requires len.kind.Valid()
  {
    LenBytesNeeded(c, len, n).Wrote? ==> LenBytesNeeded(c, len, n).value + Times(n, size) < USIZE
  }

  /** The window covers the length and the elements exactly when together they are shorter than the
      address space, and then it is exactly as large. */
  lemma WindowCovers(c: Config, len: SeqLen, n: nat, size: nat)
    requires len.kind.Valid() && LenBytesNeeded(c, len, n).Wrote?
    ensures var written := LenBytesNeeded(c, len, n).value + Times(n, size);
            var window := WindowFor(c, len, n, size).value;
            && (window >= written <==> Fits(c, len, n, size))
            && (window >= written ==> window == written)
  {
    hide LenBytesNeeded, Times;
    var k := LenBytesNeeded(c, len, n).value;
    TimesCommutes(n, size);
    WrappedSum(k, Times(n, size));
    WrapsOrNot(k + Times(n, size));
  }

  /** The same for the entries of a map, whose own size is a sum that may wrap. */
  lemma EntryWindowCovers(c: Config, len: SeqLen, n: nat, key: nat, val: nat)
    requires len.kind.Valid() && LenBytesNeeded(c, len, n).Wrote?
    ensures var written := LenBytesNeeded(c, len, n).value + Times(n, key + val);
            var window := WindowFor(c, len, n, WrappingAdd(key, val)).value;
            && (window >= written <==> Fits(c, len, n, key + val))
            && (window >= written ==> window == written)
  {
    WrappedProduct(key + val, n);
    WrappedProduct(WrappingAdd(key, val), n);
    WindowCovers(c, len, n, key + val);
  }

  // Values whose windows all cover what is written into them

  predicate ElemsFit(c: Config, e: Schema, len: SeqLen, n: nat)
    requires len.kind.Valid()
  {
    match Meta(c, Writing, e)
    case Static(size, _) => Fits(c, len, n, size)
    case Dynamic => true
  }

  predicate EntriesFit(c: Config, p: EntrySchema, len: SeqLen, n: nat)
    requires len.kind.Valid()
  {
    match (Meta(c, Writing, p.key), Meta(c, Writing, p.val))
    case (Static(k, _), Static(v, _)) => Fits(c, len, n, k + v)
    case _ => true
  }

  /** The window of every sequence, struct and variant in the value covers it. No window is opened for
      a sequence that the preallocation check refuses. */
  predicate Sized(c: Config, s: Schema, v: Value)
    requires Wf(c, s) && WellTyped(s, v)
    decreases s, v
  {
    match s
    case OptS(e, _) => v.SomeV? ==> Sized(c, e, v.v)
    case ArrS(_, e) => AllSized(c, e, v.vs)
    case SeqS(e, len, check, _) =>
      (check && WriteCheck(c, len, LayoutOf(e).size, |v.vs|).Refused?) ||
      (ElemsFit(c, e, len, |v.vs|) && AllSized(c, e, v.vs))
    case MapS(p, len, size, _) =>
      WriteCheck(c, len, size, |v.entries|).Refused? ||
      (EntriesFit(c, p, len, |v.entries|) && EntriesSized(c, p, v.entries))
    case StructS(_, fs) => Holds(FieldMetas(c, Writing, fs)) && FieldsSized(c, fs, v.vs)
    case EnumS(tag, vs, _) =>
      WfVariant(c, tag, vs, 0, v.variant);
      Holds([IntMeta(c, TagKind(c, tag))] + FieldMetas(c, Writing, vs[v.variant].fields)) && FieldsSized(c, vs[v.variant].fields, v.vs)
    case BoxS(e) => Sized(c, e, v)
    case DefaultOnEmptyS(e, _) => Sized(c, e, v)
    case DiscardS(e, d) => Sized(c, e, d)
    case _ => true
  }

  predicate AllSized(c: Config, e: Schema, vs: seq<Value>)
    requires Wf(c, e) && AllTyped(e, vs)
    decreases e, vs
  {
    vs == [] || (Sized(c, e, vs[0]) && AllSized(c, e, vs[1..]))
  }

  predicate EntriesSized(c: Config, p: EntrySchema, es: seq<Entry>)
    requires Wf(c, p.key) && Wf(c, p.val) && EntriesTyped(p, es)
    decreases p, es
  {
    es == [] || (Sized(c, p.key, es[0].key) && Sized(c, p.val, es[0].val) && EntriesSized(c, p, es[1..]))
  }

  predicate FieldsSized(c: Config, fs: seq<Field>, vs: seq<Value>)
    requires WfFields(c, fs) && FieldsTyped(fs, vs)
    decreases fs, vs
  {
    fs == [] ||
    (assert fs[0].schema < fs[0];
     (fs[0].skip.None? ==> Sized(c, fs[0].schema, vs[0])) && FieldsSized(c, fs[1..], vs[1..]))
  }

  /** Where windows cover what is written into them, a static schema writes exactly its static size. */
  lemma {:induction false} SizedWrite(c: Config, s: Schema, v: Value)
    requires Wf(c, s) && WellTyped(s, v) && Sized(c, s, v) && Meta(c, Writing, s).Static? && Encode(c, s, v).Wrote?
    ensures |Encode(c, s, v).value| == Meta(c, Writing, s).size
    decreases s, v
  {
    match s
    case IntS(_) =>
    case BoolS =>
    case ArrS(_, e) => SizedWriteAll(c, e, v.vs);
    case StructS(_, fs) =>
      JoinCovers(FieldMetas(c, Writing, fs));
      SizedWriteFields(c, fs, v.vs);
    case EnumS(_, _, _) => SizedWriteEnum(c, s, v);
    case BoxS(e) => SizedWrite(c, e, v);
    case DefaultOnEmptyS(e, _) => SizedWrite(c, e, v);
    case DiscardS(e, d) => SizedWrite(c, e, d);
  }

  lemma {:induction false} SizedWriteEnum(c: Config, s: Schema, v: Value)
    requires s.EnumS? && Wf(c, s) && WellTyped(s, v) && Sized(c, s, v) && Meta(c, Writing, s).Static? && Encode(c, s, v).Wrote?
    ensures |Encode(c, s, v).value| == Meta(c, Writing, s).size
    decreases s.variants, v
  {
    hide EncodeTag, EncodeFields;
    var fs, t := s.variants[v.variant].fields, Discriminant(s.variants[v.variant], v.variant);
    var tag, ms := IntMeta(c, TagKind(c, s.tag)), FieldMetas(c, Writing, fs);
    WfVariant(c, s.tag, s.variants, 0, v.variant);
    StaticEnum(c, Writing, s, v.variant);
    StaticTag(c, s.tag, t);
    SizedWriteFields(c, fs, v.vs);
    JoinCons(tag, ms);
    JoinCovers([tag] + ms);
  }

  lemma {:induction false} SizedWriteAll(c: Config, e: Schema, vs: seq<Value>)
    requires Wf(c, e) && AllTyped(e, vs) && AllSized(c, e, vs) && Meta(c, Writing, e).Static? && EncodeAll(c, e, vs).Wrote?
    ensures |EncodeAll(c, e, vs).value| == Times(|vs|, Meta(c, Writing, e).size)
    decreases e, vs
  {
    hide Encode, Wf, WellTyped, Sized, Meta;
    if vs != [] {
      TimesStep(|vs|, Meta(c, Writing, e).size);
      SizedWrite(c, e, vs[0]);
      SizedWriteAll(c, e, vs[1..]);
    }
  }

  lemma {:induction false} SizedWriteEntries(c: Config, p: EntrySchema, es: seq<Entry>)
    requires Wf(c, p.key) && Wf(c, p.val) && EntriesTyped(p, es) && EntriesSized(c, p, es)
    requires Meta(c, Writing, p.key).Static? && Meta(c, Writing, p.val).Static? && EncodeEntries(c, p, es).Wrote?
    ensures |EncodeEntries(c, p, es).value| == Times(|es|, Meta(c, Writing, p.key).size + Meta(c, Writing, p.val).size)
    decreases es
  {
    hide Encode, Wf, WellTyped, Sized, Meta;
    if es != [] {
      TimesStep(|es|, Meta(c, Writing, p.key).size + Meta(c, Writing, p.val).size);
      SizedWrite(c, p.key, es[0].key);
      SizedWrite(c, p.val, es[0].val);
      SizedWriteEntries(c, p, es[1..]);
    }
  }

  /** Static fields write the sum of their sizes, however large. */
  lemma {:induction false} SizedWriteFields(c: Config, fs: seq<Field>, vs: seq<Value>)
    requires WfFields(c, fs) && FieldsTyped(fs, vs) && FieldsSized(c, fs, vs)
    requires Join(FieldMetas(c, Writing, fs)).Static? && EncodeFields(c, fs, vs).Wrote?
    ensures |EncodeFields(c, fs, vs).value| == Total(FieldMetas(c, Writing, fs))
    decreases fs, vs
  {
    hide Encode, Wf, WellTyped, Sized, Meta;
    if fs != [] {
      if fs[0].skip.Some? {
        SizedWriteFields(c, fs[1..], vs[1..]);
      } else {
        assert fs[0].schema < fs[0];
        assert FieldMetas(c, Writing, fs)[1..] == FieldMetas(c, Writing, fs[1..]);
        SizedWrite(c, fs[0].schema, vs[0]);
        SizedWriteFields(c, fs[1..], vs[1..]);
      }
    }
  }

  /** A value whose encoding is shorter than the address space has no window that wraps. */
  lemma {:induction false} ShortIsSized(c: Config, s: Schema, v: Value)
    requires Wf(c, s) && WellTyped(s, v) && Encode(c, s, v).Wrote? && |Encode(c, s, v).value| < USIZE
    ensures Sized(c, s, v)
    decreases s, v, 0
  {
    match s
    case OptS(e, _) => if v.SomeV? { ShortIsSized(c, e, v.v); }
    case ArrS(_, e) => ShortAllSized(c, e, v.vs);
    case SeqS(e, len, _, _) => ShortSeqSized(c, s, v);
    case MapS(p, len, _, _) => ShortMapSized(c, s, v);
    case StructS(_, fs) => ShortStructSized(c, s, v);
    case EnumS(_, _, _) => ShortEnumSized(c, s, v);
    case BoxS(e) => ShortIsSized(c, e, v);
    case DefaultOnEmptyS(e, _) => ShortIsSized(c, e, v);
    case DiscardS(e, d) => ShortIsSized(c, e, d);
    case _ =>
  }

  lemma {:induction false} ShortSeqSized(c: Config, s: Schema, v: Value)
    requires s.SeqS? && Wf(c, s) && WellTyped(s, v) && Encode(c, s, v).Wrote? && |Encode(c, s, v).value| < USIZE
    ensures Sized(c, s, v)
    decreases s.elem, v.vs, 5
  {
    LenSizeExact(c, s.len, |v.vs|);
    ShortAllSized(c, s.elem, v.vs);
    if Meta(c, Writing, s.elem).Static? {
      SizedWriteAll(c, s.elem, v.vs);
    }
  }

  lemma {:induction false} ShortMapSized(c: Config, s: Schema, v: Value)
    requires s.MapS? && Wf(c, s) && WellTyped(s, v) && Encode(c, s, v).Wrote? && |Encode(c, s, v).value| < USIZE
    ensures Sized(c, s, v)
    decreases s.entry, v.entries, 5
  {
    hide EncodeEntries, EncodeLen, LenBytesNeeded, EntriesSized;
    LenSizeExact(c, s.len, |v.entries|);
    ShortEntriesSized(c, s.entry, v.entries);
    if Meta(c, Writing, s.entry.key).Static? && Meta(c, Writing, s.entry.val).Static? {
      SizedWriteEntries(c, s.entry, v.entries);
    }
  }

  lemma {:induction false} ShortStructSized(c: Config, s: Schema, v: Value)
    requires s.StructS? && Wf(c, s) && WellTyped(s, v) && Encode(c, s, v).Wrote? && |Encode(c, s, v).value| < USIZE
    ensures Sized(c, s, v)
    decreases s.fields, v.vs, 5
  {
    ShortFieldsSized(c, s.fields, v.vs);
    if Join(FieldMetas(c, Writing, s.fields)).Static? {
      SizedWriteFields(c, s.fields, v.vs);
    }
  }

  lemma {:induction false} ShortEnumSized(c: Config, s: Schema, v: Value)
    requires s.EnumS? && Wf(c, s) && WellTyped(s, v) && Encode(c, s, v).Wrote? && |Encode(c, s, v).value| < USIZE
    ensures Sized(c, s, v)
    decreases s.variants, v, 5
  {
    hide EncodeTag, EncodeFields;
    var fs, t := s.variants[v.variant].fields, Discriminant(s.variants[v.variant], v.variant);
    var tag, ms := IntMeta(c, TagKind(c, s.tag)), FieldMetas(c, Writing, fs);
    WfVariant(c, s.tag, s.variants, 0, v.variant);
    ShortFieldsSized(c, fs, v.vs);
    JoinCons(tag, ms);
    if tag.Static? && Join(ms).Static? {
      StaticTag(c, s.tag, t);
      SizedWriteFields(c, fs, v.vs);
    }
  }

  lemma {:induction false} ShortAllSized(c: Config, e: Schema, vs: seq<Value>)
    requires Wf(c, e) && AllTyped(e, vs) && EncodeAll(c, e, vs).Wrote? && |EncodeAll(c, e, vs).value| < USIZE
    ensures AllSized(c, e, vs)
    decreases e, vs, 1
  {
    if vs != [] {
      ShortIsSized(c, e, vs[0]);
      ShortAllSized(c, e, vs[1..]);
    }
  }

  lemma {:induction false} ShortEntriesSized(c: Config, p: EntrySchema, es: seq<Entry>)
    requires Wf(c, p.key) && Wf(c, p.val) && EntriesTyped(p, es)
    requires EncodeEntries(c, p, es).Wrote? && |EncodeEntries(c, p, es).value| < USIZE
    ensures EntriesSized(c, p, es)
    decreases p, es, 1
  {
    if es != [] {
      ShortIsSized(c, p.key, es[0].key);
      ShortIsSized(c, p.val, es[0].val);
      ShortEntriesSized(c, p, es[1..]);
    }
  }

  lemma {:induction false} ShortFieldsSized(c: Config, fs: seq<Field>, vs: seq<Value>)
    requires WfFields(c, fs) && FieldsTyped(fs, vs) && EncodeFields(c, fs, vs).Wrote? && |EncodeFields(c, fs, vs).value| < USIZE
    ensures FieldsSized(c, fs, vs)
    decreases fs, vs, 1
  {
    if fs != [] {
      if fs[0].skip.None? {
        assert fs[0].schema < fs[0];
        ShortIsSized(c, fs[0].schema, vs[0]);
      }
      ShortFieldsSized(c, fs[1..], vs[1..]);
    }
  }

  /** The largest object Rust allows, in bytes. */
  const ISIZE_MAX: nat := USIZE / 2 - 1

  /** The window of a slice that lies in memory covers it, unless its elements are larger on the
      wire than in memory. */
  lemma SliceInMemoryFits(c: Config, e: Schema, len: SeqLen, n: nat)
    requires len.kind.Valid() && Wf(c, e) && Times(n, LayoutOf(e).size) <= ISIZE_MAX
    requires Meta(c, Writing, e).Static? ==> Meta(c, Writing, e).zeroCopy || Meta(c, Writing, e).size <= LayoutOf(e).size
    ensures ElemsFit(c, e, len, n)
  {
    if Meta(c, Writing, e).Static? && LenBytesNeeded(c, len, n).Wrote? {
      if Meta(c, Writing, e).zeroCopy {
        ZeroCopySize(c, Writing, e);
      }
      LenIsSmall(c, len, n);
      TimesMonotone(n, Meta(c, Writing, e).size, LayoutOf(e).size);
    }
  }

  lemma TimesMonotone(n: nat, a: nat, b: nat)
    requires a <= b
    ensures Times(n, a) <= Times(n, b)
  {
    assert n * b == n * a + n * (b - a);
  }

  // Where the promise fails

  function Repeated(n: nat, v: Value): (vs: seq<Value>)
    ensures |vs| == n && forall i | 0 <= i < n :: vs[i] == v
  {
    seq(n, _ => v)
  }

  lemma {:induction false} RepeatedTyped(e: Schema, n: nat, v: Value)
    requires WellTyped(e, v)
    ensures AllTyped(e, Repeated(n, v))
    decreases n
  {
    if n > 0 {
      RepeatedTyped(e, n - 1, v);
      assert Repeated(n, v)[1..] == Repeated(n - 1, v);
    }
  }

  lemma {:induction false} RepeatedSized(c: Config, e: Schema, n: nat, v: Value)
    requires Wf(c, e) && WellTyped(e, v) && Sized(c, e, v) && AllTyped(e, Repeated(n, v))
    ensures AllSized(c, e, Repeated(n, v))
    decreases n
  {
    if n > 0 {
      assert Repeated(n, v)[1..] == Repeated(n - 1, v);
      RepeatedSized(c, e, n - 1, v);
    }
  }

  lemma {:induction false} RepeatedWrote(c: Config, e: Schema, n: nat, v: Value)
    requires Wf(c, e) && WellTyped(e, v) && Encode(c, e, v).Wrote? && AllTyped(e, Repeated(n, v))
    ensures EncodeAll(c, e, Repeated(n, v)).Wrote?
    decreases n
  {
    if n > 0 {
      assert Repeated(n, v)[1..] == Repeated(n - 1, v);
      RepeatedWrote(c, e, n - 1, v);
    }
  }

  /** An enum with one variant and no fields: nothing in memory, a tag on the wire. */
  function UnitEnum(): Schema { EnumS(None, [Variant(None, [])], Layout(0, 1)) }

  lemma UnitEnumMeta(c: Config, side: Side)
    requires !c.ints.varint && c.tag == IntKind(4, false)
    ensures Wf(c, UnitEnum()) && WellTyped(UnitEnum(), EnumV(0, [])) && Roomy(c, UnitEnum())
    ensures Meta(c, side, UnitEnum()) == Static(4, false) && Sized(c, UnitEnum(), EnumV(0, []))
    ensures Encode(c, UnitEnum(), EnumV(0, [])).Wrote?
  {
    var vs := [Variant(None, [])];
    var tag := IntMeta(c, c.tag);
    assert vs[1..] == [];
    assert [tag] + [] == [tag] && [tag][1..] == [];
    assert Join([tag]) == tag;
    assert Total([tag]) == 4 + Total([tag][1..]) == 4;
    VariantMeta(c, side, tag, vs, 0);
    PowValues();
  }

  /** A slice of 2^62 such enums takes no memory and four times 2^62 bytes on the wire. The size
      announced for it and the window reserved for it hold its length and nothing else, so every
      element is written outside the window. */
  lemma WindowWrapsForSlice(c: Config)
    requires !c.ints.varint && c.tag == IntKind(4, false)
    ensures var len := SeqLen(IntKind(8, false), false, UseConfig);
            var s := SeqS(UnitEnum(), len, false, Layout(16, 8));
            var n := 0x4000_0000_0000_0000;
            var v := ListV(Repeated(n, EnumV(0, [])));
            && Wf(c, s) && WellTyped(s, v)
            && Times(n, LayoutOf(UnitEnum()).size) == 0
            && Meta(c, Writing, UnitEnum()) == Static(4, false)
            && SizeOf(c, s, v) == WindowFor(c, len, n, 4) == Wrote(8)
            && EncodeLen(c, len, n).Wrote? && |EncodeLen(c, len, n).value| == 8
            && EncodeAll(c, UnitEnum(), v.vs).Wrote? && |EncodeAll(c, UnitEnum(), v.vs).value| == USIZE
            && !Fits(c, len, n, 4)
            && !Sized(c, s, v)
  {
    var n := 0x4000_0000_0000_0000;
    UnitEnumsWritten(c, n);
    assert Times(4, n) == Times(n, 4) == USIZE && Times(n, 0) == 0;
  }

  lemma UnitEnumsWritten(c: Config, n: nat)
    requires !c.ints.varint && c.tag == IntKind(4, false)
    ensures Wf(c, UnitEnum()) && Roomy(c, UnitEnum()) && Meta(c, Reading, UnitEnum()) == Meta(c, Writing, UnitEnum()) == Static(4, false)
    ensures var vs := Repeated(n, EnumV(0, []));
            && AllTyped(UnitEnum(), vs) && AllSized(c, UnitEnum(), vs)
            && EncodeAll(c, UnitEnum(), vs).Wrote? && |EncodeAll(c, UnitEnum(), vs).value| == Times(n, 4)
  {
    hide Encode, Wf, WellTyped, Sized, Roomy, Meta;
    UnitEnumMeta(c, Reading);
    UnitEnumMeta(c, Writing);
    RepeatedTyped(UnitEnum(), n, EnumV(0, []));
    RepeatedWrote(c, UnitEnum(), n, EnumV(0, []));
    RepeatedSized(c, UnitEnum(), n, EnumV(0, []));
    SizedWriteAll(c, UnitEnum(), Repeated(n, EnumV(0, [])));
  }

  /** An iterator over two-byte integers that reports 2^63 elements wraps its window as well. */
  lemma WindowWrapsForIterator(c: Config)
    requires !c.ints.varint
    ensures var len := SeqLen(IntKind(8, false), false, UseConfig);
            && Meta(c, Writing, IntS(IntKind(2, false))).Static? && Meta(c, Writing, IntS(IntKind(2, false))).size == 2
            && WindowFor(c, len, 0x8000_0000_0000_0000, 2) == Wrote(8)
            && !Fits(c, len, 0x8000_0000_0000_0000, 2)
  {
    assert Times(2, 0x8000_0000_0000_0000) == Times(0x8000_0000_0000_0000, 2) == USIZE;
  }
}
