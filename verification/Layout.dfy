/** The C layout rule in plain terms, and the zero-copy judgement that rests on it. */
module Layouts {
  import opened Prim
  import opened IntEncoding
  import opened TypeMetas
  import opened Schemas
  import opened Codec
  import opened ZeroCopy

  lemma MultipleBelow(q: nat, m: nat, align: nat)
    requires align > 0 && m % align == 0 && m > q * align - align
    ensures q * align <= m
  {
    var k := m / align;
    assert m == k * align;
    if q > k {
      TimesGrows(q, k, align);
    }
  }

  lemma RoundUpQuotient(n: nat, align: nat) returns (q: nat)
    requires align > 0
    ensures RoundUp(n, align) == q * align && n <= q * align < n + align
  {
    q := (n + align - 1) / align;
    var r := (n + align - 1) % align;
    assert n + align - 1 == q * align + r;
  }

  /** Rounding up gives the least multiple of the alignment that is not below. */
  lemma RoundsUp(n: nat, align: nat)
    requires align > 0
    ensures RoundUp(n, align) % align == 0
    ensures n <= RoundUp(n, align) < n + align
    ensures forall m: nat | m % align == 0 && n <= m :: RoundUp(n, align) <= m
  {
    hide RoundUp;
    var q := RoundUpQuotient(n, align);
    DivUnique(q * align, align, q, 0);
    forall m: nat | m % align == 0 && n <= m
      ensures RoundUp(n, align) <= m
    {
      MultipleBelow(q, m, align);
    }
  }

  /** The alignment of a struct is the largest of its fields. */
  lemma {:induction false} LargestAlign(ls: seq<Layout>)
    ensures MaxAlign(ls) >= 1 && forall i | 0 <= i < |ls| :: ls[i].align <= MaxAlign(ls)
    ensures MaxAlign(ls) == 1 || exists i | 0 <= i < |ls| :: ls[i].align == MaxAlign(ls)
  {
    if ls != [] {
      LargestAlign(ls[1..]);
      assert forall i | 1 <= i < |ls| :: ls[i] == ls[1..][i - 1];
      if i :| 0 <= i < |ls[1..]| && ls[1..][i].align == MaxAlign(ls[1..]) {
        assert ls[i + 1].align == MaxAlign(ls[1..]);
      }
    }
  }

  lemma {:induction false} EndAppends(ls: seq<Layout>, x: Layout, at: nat)
    ensures EndOf(ls + [x], at) == RoundUp(EndOf(ls, at), x.align) + x.size
    ensures TotalSize(ls + [x]) == TotalSize(ls) + x.size
    decreases ls
  {
    hide RoundUp;
    if ls == [] {
      assert ls + [x] == [x] && [x][1..] == [];
    } else {
      assert (ls + [x])[1..] == ls[1..] + [x];
      EndAppends(ls[1..], x, RoundUp(at, ls[0].align) + ls[0].size);
    }
  }

  /** Where the first `i` fields end. */
  function EndBefore(ls: seq<Layout>, i: nat): nat
    requires i <= |ls|
  {
    if i == 0 then 0 else Offset(ls, i - 1) + ls[i - 1].size
  }

  lemma EndBeforeIs(ls: seq<Layout>, i: nat)
    requires i <= |ls|
    ensures EndBefore(ls, i) == EndOf(ls[..i], 0)
  {
    if i > 0 {
      assert ls[..i] == ls[..i - 1] + [ls[i - 1]];
      EndAppends(ls[..i - 1], ls[i - 1], 0);
    }
  }

  /** Every field lies at the least multiple of its alignment that is not below the end of the
      previous one; the first lies at the start. */
  lemma OffsetRule(ls: seq<Layout>, i: nat)
    requires i < |ls| && ls[i].align > 0
    ensures var from := if i == 0 then 0 else Offset(ls, i - 1) + ls[i - 1].size;
            && Offset(ls, i) % ls[i].align == 0
            && from <= Offset(ls, i) < from + ls[i].align
            && forall m: nat | m % ls[i].align == 0 && from <= m :: Offset(ls, i) <= m
  {
    EndBeforeIs(ls, i);
    RoundsUp(EndBefore(ls, i), ls[i].align);
  }

  /** A C struct is aligned as its most demanding field, or as its attribute demands, and its size is
      the least multiple of that not below the end of the last field. */
  lemma CStructRule(align: nat, fs: seq<Field>)
    ensures var ls, lay := FieldLayouts(fs), LayoutOf(StructS(C(align), fs));
            var end := if fs == [] then 0 else Offset(ls, |fs| - 1) + ls[|fs| - 1].size;
            && lay.align >= align && lay.align >= 1
            && (forall i | 0 <= i < |ls| :: ls[i].align <= lay.align)
            && (lay.align in {1, align} || exists i | 0 <= i < |ls| :: ls[i].align == lay.align)
            && lay.size % lay.align == 0
            && end <= lay.size < end + lay.align
            && forall m: nat | m % lay.align == 0 && end <= m :: lay.size <= m
  {
    var ls, lay := FieldLayouts(fs), LayoutOf(StructS(C(align), fs));
    LargestAlign(ls);
    EndBeforeIs(ls, |fs|);
    assert ls[..|fs|] == ls;
    RoundsUp(EndOf(ls, 0), lay.align);
  }

  /** A transparent struct is as large as its fields together, and as aligned as the largest. */
  lemma TransparentRule(fs: seq<Field>)
    ensures var ls, lay := FieldLayouts(fs), LayoutOf(StructS(Transparent, fs));
            && (fs == [] ==> lay == Layout(0, 1))
            && (fs != [] ==> lay.size == TotalSize(ls[..|fs| - 1]) + ls[|fs| - 1].size)
            && lay.align >= 1
            && (forall i | 0 <= i < |ls| :: ls[i].align <= lay.align)
            && (lay.align == 1 || exists i | 0 <= i < |ls| :: ls[i].align == lay.align)
  {
    var ls := FieldLayouts(fs);
    LargestAlign(ls);
    if fs != [] {
      assert ls == ls[..|fs| - 1] + [ls[|fs| - 1]];
      EndAppends(ls[..|fs| - 1], ls[|fs| - 1], 0);
    }
  }

  /** The layouts Rust fixes: integers are aligned as they are large, booleans take one byte,
      characters four, boxes and vectors one and three words, arrays their elements without gaps.
      Adapters do not change the type they read. */
  lemma FixedLayouts(k: IntKind, n: nat, e: Schema, len: SeqLen, dflt: Value)
    ensures LayoutOf(IntS(k)) == Layout(k.width, k.width)
    ensures LayoutOf(BoolS) == Layout(1, 1) && LayoutOf(CharS) == Layout(4, 4)
    ensures LayoutOf(BoxS(e)) == Layout(8, 8) && LayoutOf(DiscardSeqS(e, len)) == Layout(24, 8)
    ensures LayoutOf(ArrS(n, e)) == Layout(n * LayoutOf(e).size, LayoutOf(e).align)
    ensures LayoutOf(DefaultOnEmptyS(e, dflt)) == LayoutOf(DiscardS(e, dflt)) == LayoutOf(e)
  {}

  lemma FieldLayoutAt(fs: seq<Field>, i: nat)
    requires i < |fs|
    ensures FieldLayouts(fs)[i] == LayoutOf(fs[i].schema)
  {
    if i > 0 {
      FieldLayoutAt(fs[1..], i - 1);
      assert FieldLayouts(fs)[i] == FieldLayouts(fs[1..])[i - 1];
    }
  }

  // The judgement

  /** Every field that is not skipped is zero-copy. */
  predicate ZeroCopyFields(c: Config, side: Side, fs: seq<Field>) {
    forall i | 0 <= i < |fs| && fs[i].skip.None? :: IsZeroCopy(Meta(c, side, fs[i].schema))
  }

  lemma {:induction false} JoinedZeroCopy(c: Config, side: Side, fs: seq<Field>)
    ensures IsZeroCopy(Join(FieldMetas(c, side, fs))) <==> ZeroCopyFields(c, side, fs)
    decreases fs
  {
    if fs != [] {
      assert fs[0].schema < fs[0];
      JoinedZeroCopy(c, side, fs[1..]);
      assert FieldMetas(c, side, fs) == if fs[0].skip.Some? then FieldMetas(c, side, fs[1..]) else [Meta(c, side, fs[0].schema)] + FieldMetas(c, side, fs[1..]);
      if fs[0].skip.None? {
        JoinCons(Meta(c, side, fs[0].schema), FieldMetas(c, side, fs[1..]));
      }
      assert forall i | 1 <= i < |fs| :: fs[i] == fs[1..][i - 1];
      if ZeroCopyFields(c, side, fs) {
        assert forall i | 0 <= i < |fs[1..]| :: fs[1..][i] == fs[i + 1];
      }
    }
  }

  /** The memory of the fields that are not skipped, together. */
  function UnskippedSize(fs: seq<Field>): nat {
    if fs == [] then 0 else (if fs[0].skip.Some? then 0 else LayoutOf(fs[0].schema).size) + UnskippedSize(fs[1..])
  }

  lemma {:induction false} SerializedIsUnskipped(c: Config, side: Side, fs: seq<Field>)
    requires WfFields(c, fs) && IsZeroCopy(Join(FieldMetas(c, side, fs)))
    ensures Total(FieldMetas(c, side, fs)) == UnskippedSize(fs)
    decreases fs
  {
    if fs != [] {
      JoinHead(c, side, fs);
      SerializedIsUnskipped(c, side, fs[1..]);
    }
  }

  /** A struct is judged zero-copy exactly when its layout is specified, every field that is not
      skipped is zero-copy, and it takes as much memory as these together. */
  lemma ZeroCopyBySize(c: Config, side: Side, s: Schema)
    requires s.StructS? && s.fields != [] && Wf(c, s)
    ensures IsZeroCopy(Meta(c, side, s)) <==>
              && !s.repr.RustRepr?
              && ZeroCopyFields(c, side, s.fields)
              && LayoutOf(s).size == UnskippedSize(s.fields) < USIZE
  {
    hide LayoutOf;
    JoinedZeroCopy(c, side, s.fields);
    if ZeroCopyFields(c, side, s.fields) {
      SerializedIsUnskipped(c, side, s.fields);
      JoinCovers(FieldMetas(c, side, s.fields));
      if IsZeroCopy(Meta(c, side, s)) {
        ZeroCopyStructIsPacked(c, side, s);
      }
    }
  }

  /** Every field starts where the previous one ends, skipped fields take no memory, and nothing
      follows the last. */
  predicate WithoutPadding(s: Schema)
    requires s.StructS? && s.fields != []
  {
    var ls := FieldLayouts(s.fields);
    && (forall i | 0 <= i < |ls| :: Offset(ls, i) == if i == 0 then 0 else Offset(ls, i - 1) + ls[i - 1].size)
    && (forall i | 0 <= i < |ls| && s.fields[i].skip.Some? :: ls[i].size == 0)
    && LayoutOf(s).size == Offset(ls, |ls| - 1) + ls[|ls| - 1].size < USIZE
  }

  lemma {:induction false} Chained(ls: seq<Layout>, i: nat)
    requires i <= |ls|
    requires forall j | 0 <= j < i :: Offset(ls, j) == if j == 0 then 0 else Offset(ls, j - 1) + ls[j - 1].size
    ensures EndBefore(ls, i) == TotalSize(ls[..i])
  {
    if i > 0 {
      Chained(ls, i - 1);
      assert ls[..i] == ls[..i - 1] + [ls[i - 1]];
      EndAppends(ls[..i - 1], ls[i - 1], 0);
    }
  }

  lemma {:induction false} SkippedTakeNothing(fs: seq<Field>)
    requires forall i | 0 <= i < |fs| && fs[i].skip.Some? :: FieldLayouts(fs)[i].size == 0
    ensures UnskippedSize(fs) == TotalSize(FieldLayouts(fs))
    decreases fs
  {
    if fs != [] {
      assert FieldLayouts(fs)[1..] == FieldLayouts(fs[1..]);
      forall i | 0 <= i < |fs[1..]| && fs[1..][i].skip.Some?
        ensures FieldLayouts(fs[1..])[i].size == 0
      {
        assert fs[1..][i] == fs[i + 1] && FieldLayouts(fs)[i + 1].size == 0;
      }
      SkippedTakeNothing(fs[1..]);
      assert fs[0].skip.Some? ==> FieldLayouts(fs)[0].size == 0;
    }
  }

  lemma NoGapAt(c: Config, side: Side, s: Schema, i: nat)
    requires s.StructS? && s.repr.C? && i < |s.fields| && Wf(c, s) && IsZeroCopy(Meta(c, side, s))
    ensures var ls := FieldLayouts(s.fields);
            && (Offset(ls, i) == if i == 0 then 0 else Offset(ls, i - 1) + ls[i - 1].size)
            && (s.fields[i].skip.Some? ==> ls[i].size == 0)
  {
    hide LayoutOf, Meta, Offset, Wf;
    var ls := FieldLayouts(s.fields);
    ZeroCopyOffsets(c, side, s, i);
    if i > 0 {
      ZeroCopyOffsets(c, side, s, i - 1);
      assert ls[..i] == ls[..i - 1] + [ls[i - 1]];
      EndAppends(ls[..i - 1], ls[i - 1], 0);
    }
  }

  lemma NoGaps(c: Config, side: Side, s: Schema, ls: seq<Layout>)
    requires s.StructS? && s.repr.C? && Wf(c, s) && IsZeroCopy(Meta(c, side, s)) && ls == FieldLayouts(s.fields)
    ensures forall i | 0 <= i < |ls| :: Offset(ls, i) == if i == 0 then 0 else Offset(ls, i - 1) + ls[i - 1].size
    ensures forall i | 0 <= i < |ls| && s.fields[i].skip.Some? :: ls[i].size == 0
  {
    hide LayoutOf, Meta, Offset, Wf, FieldLayouts, IsZeroCopy;
    forall i | 0 <= i < |ls|
      ensures Offset(ls, i) == if i == 0 then 0 else Offset(ls, i - 1) + ls[i - 1].size
      ensures s.fields[i].skip.Some? ==> ls[i].size == 0
    {
      NoGapAt(c, side, s, i);
    }
  }

  lemma ZeroCopyIsWithoutPadding(c: Config, side: Side, s: Schema)
    requires s.StructS? && s.repr.C? && s.fields != [] && Wf(c, s) && IsZeroCopy(Meta(c, side, s))
    ensures WithoutPadding(s)
  {
    hide LayoutOf, Meta, Offset, Wf, FieldMetas, ZeroCopyFields;
    var ls := FieldLayouts(s.fields);
    NoGaps(c, side, s, ls);
    Chained(ls, |ls|);
    assert ls[..|ls|] == ls;
    ZeroCopyStructIsPacked(c, side, s);
    ZeroCopyBySize(c, side, s);
  }

  lemma WithoutPaddingIsZeroCopy(c: Config, side: Side, s: Schema)
    requires s.StructS? && s.repr.C? && s.fields != [] && Wf(c, s) && ZeroCopyFields(c, side, s.fields) && WithoutPadding(s)
    ensures IsZeroCopy(Meta(c, side, s))
  {
    hide LayoutOf, Meta, Offset, Wf, ZeroCopyFields;
    var ls := FieldLayouts(s.fields);
    Chained(ls, |ls|);
    assert ls[..|ls|] == ls;
    SkippedTakeNothing(s.fields);
    ZeroCopyBySize(c, side, s);
  }

  /** For a C struct of zero-copy fields the judgement is exactly that there is no padding. */
  lemma ZeroCopyByOffsets(c: Config, side: Side, s: Schema)
    requires s.StructS? && s.repr.C? && s.fields != [] && Wf(c, s) && ZeroCopyFields(c, side, s.fields)
    ensures IsZeroCopy(Meta(c, side, s)) <==>
              var ls := FieldLayouts(s.fields);
              && (forall i | 0 <= i < |ls| :: Offset(ls, i) == if i == 0 then 0 else Offset(ls, i - 1) + ls[i - 1].size)
              && (forall i | 0 <= i < |ls| && s.fields[i].skip.Some? :: ls[i].size == 0)
              && LayoutOf(s).size == Offset(ls, |ls| - 1) + ls[|ls| - 1].size < USIZE
  {
    hide LayoutOf, Meta, Offset, Wf, ZeroCopyFields;
    if IsZeroCopy(Meta(c, side, s)) {
      ZeroCopyIsWithoutPadding(c, side, s);
    }
    if WithoutPadding(s) {
      WithoutPaddingIsZeroCopy(c, side, s);
    }
  }

  // The same, by example: fixed-width integers in the platform's byte order

  function Int(width: nat): Field { Field(IntS(IntKind(width, false)), None) }

  lemma PairLayout(align: nat, f: Field, g: Field)
    requires LayoutOf(f.schema).align > 0
    ensures var a, b := LayoutOf(f.schema), LayoutOf(g.schema);
            var lay := LayoutOf(StructS(C(align), [f, g]));
            && lay.align == Max(Max(a.align, Max(b.align, 1)), align)
            && lay.size == RoundUp(RoundUp(a.size, b.align) + b.size, lay.align)
  {
    hide RoundUp;
    var fs, a, b := [f, g], LayoutOf(f.schema), LayoutOf(g.schema);
    var ls := FieldLayouts(fs);
    FieldLayoutAt(fs, 0);
    FieldLayoutAt(fs, 1);
    assert ls == [a, b] && ls[1..] == [b] && [b][1..] == [];
    RoundsUp(0, a.align);
    DivUnique(0, a.align, 0, 0);
    assert EndOf(ls, 0) == EndOf([b], a.size);
    assert EndOf([b], a.size) == EndOf([], RoundUp(a.size, b.align) + b.size);
    assert MaxAlign([b]) == Max(b.align, 1);
  }

  lemma PairJoin(c: Config, side: Side, f: Field, g: Field)
    requires f.skip.None? && g.skip.None?
    ensures var m, m' := Meta(c, side, f.schema), Meta(c, side, g.schema);
            m.Static? && m'.Static? && m.size + m'.size < USIZE ==>
              Join(FieldMetas(c, side, [f, g])) == Static(m.size + m'.size, m.zeroCopy && m'.zeroCopy)
  {
    hide Meta;
    var fs, m, m' := [f, g], Meta(c, side, f.schema), Meta(c, side, g.schema);
    assert fs[1..] == [g] && [g][1..] == [];
    assert FieldMetas(c, side, [g]) == [m'] + FieldMetas(c, side, []);
    assert FieldMetas(c, side, fs) == [m, m'];
    assert [m, m'][1..] == [m'] && [m'][1..] == [];
    assert m'.Static? && m'.size < USIZE ==> Join([m']) == m';
  }

  lemma IntParts(c: Config, side: Side, width: nat)
    requires !c.ints.varint && c.ints.order == c.platform && width in {1, 2, 4, 8, 16}
    ensures var f := Int(width);
            Wf(c, f.schema) && LayoutOf(f.schema) == Layout(width, width) && Meta(c, side, f.schema) == Static(width, true)
  {}

  lemma PairIsWf(c: Config, f: Field, g: Field)
    requires f.skip.None? && g.skip.None? && Wf(c, f.schema) && Wf(c, g.schema)
    ensures Wf(c, StructS(C(1), [f, g]))
  {
    hide RoundUp, Meta;
    var fs := [f, g];
    assert fs[1..] == [g] && [g][1..] == [];
    assert WfFields(c, []) && WfFields(c, [g]) && WfFields(c, fs);
    StructIsModerate(c, Reading, C(1), fs);
    StructIsModerate(c, Writing, C(1), fs);
  }

  lemma StructIsModerate(c: Config, side: Side, repr: Repr, fs: seq<Field>)
    ensures Moderate(Meta(c, side, StructS(repr, fs)))
  {
    hide LayoutOf, FieldMetas;
  }

  /** `{ u8, u32 }` has three bytes of padding and is not zero-copy; `{ u32, u32 }` is. */
  lemma PaddedPair(c: Config, side: Side)
    requires !c.ints.varint && c.ints.order == c.platform
    ensures var s := StructS(C(1), [Int(1), Int(4)]);
            Wf(c, s) && LayoutOf(s) == Layout(8, 4) && Meta(c, side, s) == Static(5, false)
    ensures var s := StructS(C(1), [Int(4), Int(4)]);
            Wf(c, s) && LayoutOf(s) == Layout(8, 4) && Meta(c, side, s) == Static(8, true)
  {
    PairOfInts(c, side, 1, 4);
    PairOfInts(c, side, 4, 4);
  }

  lemma PairOfInts(c: Config, side: Side, a: nat, b: nat)
    requires !c.ints.varint && c.ints.order == c.platform && a in {1, 2, 4, 8, 16} && b in {1, 2, 4, 8, 16}
    ensures var s := StructS(C(1), [Int(a), Int(b)]);
            && Wf(c, s)
            && LayoutOf(s) == Layout(RoundUp(RoundUp(a, b) + b, Max(a, b)), Max(a, b))
            && Meta(c, side, s) == Static(a + b, LayoutOf(s).size == a + b)
  {
    hide RoundUp, LayoutOf, FieldMetas, Wf, Join;
    IntParts(c, side, a);
    IntParts(c, side, b);
    PairIsWf(c, Int(a), Int(b));
    PairLayout(1, Int(a), Int(b));
    PairJoin(c, side, Int(a), Int(b));
  }
}
