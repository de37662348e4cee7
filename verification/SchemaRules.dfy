/** What the compile-time judgements say in plain terms: which types are static or zero-copy, which
    are let through, and which have windows that hold. */
module SchemaRules {
  import opened Prim
  import opened IntEncoding
  import opened TypeMetas
  import opened Schemas
  import opened Lens
  import opened Codec
  import opened StaticSize
  import opened ZeroCopy
  import opened DropGuards

  // Which types are static

  lemma {:induction false} JoinedStatic(c: Config, side: Side, fs: seq<Field>)
    ensures Join(FieldMetas(c, side, fs)).Static? <==> forall i | 0 <= i < |fs| && fs[i].skip.None? :: Meta(c, side, fs[i].schema).Static?
    decreases fs
  {
    hide Meta;
    if fs != [] {
      assert fs[0].schema < fs[0];
      JoinedStatic(c, side, fs[1..]);
      assert forall i | 1 <= i < |fs| :: fs[i] == fs[1..][i - 1];
      assert forall i | 0 <= i < |fs[1..]| :: fs[1..][i] == fs[i + 1];
      if fs[0].skip.None? {
        JoinCons(Meta(c, side, fs[0].schema), FieldMetas(c, side, fs[1..]));
      }
    }
  }

  /** A struct is static exactly when every field that is not skipped is. */
  lemma StaticStructs(c: Config, side: Side, repr: Repr, fs: seq<Field>)
    ensures Meta(c, side, StructS(repr, fs)).Static? <==> forall i | 0 <= i < |fs| && fs[i].skip.None? :: Meta(c, side, fs[i].schema).Static?
  {
    JoinedStatic(c, side, fs);
  }

  /** The fields of variant `k`, one after the other. */
  function Fields(c: Config, side: Side, vs: seq<Variant>, k: nat): TypeMeta
    requires k < |vs|
  {
    Join(FieldMetas(c, side, vs[k].fields))
  }

  lemma SameSizeAsFirst(c: Config, side: Side, tag: TypeMeta, vs: seq<Variant>, k: nat)
    requires k < |vs|
    ensures var ms := VariantMetas(c, side, tag, vs);
            (ms[0].Static? && ms[k].Static? && ms[k].size == ms[0].size) <==>
              && tag.Static? && Fields(c, side, vs, k).Static? && Fields(c, side, vs, 0).Static?
              && Fields(c, side, vs, k).size == Fields(c, side, vs, 0).size
  {
    hide FieldMetas, WrappingAdd, Join;
    VariantMeta(c, side, tag, vs, k);
    VariantMeta(c, side, tag, vs, 0);
    JoinCons(tag, FieldMetas(c, side, vs[k].fields));
    JoinCons(tag, FieldMetas(c, side, vs[0].fields));
    if tag.Static? && Fields(c, side, vs, k).Static? && Fields(c, side, vs, 0).Static? {
      WrappedApart(tag.size, Fields(c, side, vs, k).size, Fields(c, side, vs, 0).size);
    }
  }

  /** An enum is static exactly when it has variants, its tag takes a fixed number of bytes, and the
      fields of all variants are static and add up to the same size. */
  lemma StaticEnums(c: Config, side: Side, s: Schema)
    requires s.EnumS?
    ensures Meta(c, side, s).Static? <==>
              && s.variants != []
              && (!c.ints.varint || (if s.tag.Some? then s.tag.value else c.tag).width == 1)
              && Fields(c, side, s.variants, 0).Static?
              && forall k | 0 <= k < |s.variants| :: Fields(c, side, s.variants, k).Static? && Fields(c, side, s.variants, k).size == Fields(c, side, s.variants, 0).size
  {
    hide FieldMetas, WrappingAdd, VariantMetas, Join, Fields;
    var vs, tag := s.variants, IntMeta(c, TagKind(c, s.tag));
    if vs != [] {
      var ms := VariantMetas(c, side, tag, vs);
      assert Meta(c, side, s) == Choice(ms);
      SameSizeAsFirst(c, side, tag, vs, 0);
      forall k | 0 <= k < |vs|
        ensures (ms[0].Static? && ms[k].Static? && ms[k].size == ms[0].size) <==>
                  && tag.Static? && Fields(c, side, vs, k).Static? && Fields(c, side, vs, 0).Static?
                  && Fields(c, side, vs, k).size == Fields(c, side, vs, 0).size
      {
        SameSizeAsFirst(c, side, tag, vs, k);
      }
    }
  }

  /** Every other type: integers when they take a fixed number of bytes, booleans, arrays and boxes of
      static types; a default only for writing; never what starts with a length, nor characters. */
  lemma StaticOthers(c: Config, side: Side, s: Schema)
    requires !s.StructS? && !s.EnumS?
    ensures Meta(c, side, s).Static? <==>
              || (s.IntS? && (s.kind.width == 1 || !c.ints.varint))
              || s.BoolS?
              || (s.ArrS? && Meta(c, side, s.elem).Static?)
              || ((s.BoxS? || s.DiscardS?) && Meta(c, side, s.inner).Static?)
              || (s.DefaultOnEmptyS? && side == Writing && Meta(c, side, s.inner).Static?)
  {}

  /** Which of them are zero-copy: integers of one byte, or of fixed width in the byte order of the
      platform, booleans for writing, and arrays of zero-copy elements. Enums and boxes never are. */
  lemma ZeroCopyOthers(c: Config, side: Side, s: Schema)
    requires !s.StructS?
    ensures IsZeroCopy(Meta(c, side, s)) <==>
              || (s.IntS? && (s.kind.width == 1 || (!c.ints.varint && c.ints.order == c.platform)))
              || (s.BoolS? && side == Writing)
              || (s.ArrS? && IsZeroCopy(Meta(c, side, s.elem)))
              || (s.DefaultOnEmptyS? && side == Writing && IsZeroCopy(Meta(c, side, s.inner)))
  {
    if s.EnumS? {
      EnumNeverZeroCopy(c, side, s);
    }
  }

  /** On reading, what is zero-copy holds nothing but integers, in arrays and structs. */
  lemma {:induction false} ZeroCopyIsCopyable(c: Config, s: Schema)
    requires IsZeroCopy(Meta(c, Reading, s))
    ensures Copyable(s)
    decreases s
  {
    match s
    case ArrS(_, e) => ZeroCopyIsCopyable(c, e);
    case StructS(_, fs) => ZeroCopyAreCopyable(c, fs);
    case EnumS(_, _, _) => EnumNeverZeroCopy(c, Reading, s);
    case _ =>
  }

  lemma {:induction false} ZeroCopyAreCopyable(c: Config, fs: seq<Field>)
    requires IsZeroCopy(Join(FieldMetas(c, Reading, fs)))
    ensures CopyableFields(fs)
    decreases fs
  {
    if fs != [] {
      assert fs[0].schema < fs[0];
      if fs[0].skip.None? {
        JoinCons(Meta(c, Reading, fs[0].schema), FieldMetas(c, Reading, fs[1..]));
        JoinParts(FieldMetas(c, Reading, fs), 0);
        ZeroCopyIsCopyable(c, fs[0].schema);
      }
      ZeroCopyAreCopyable(c, fs[1..]);
    }
  }

  // Which types are let through

  predicate LetThrough(c: Config, f: Field) {
    Wf(c, f.schema) && (f.skip.Some? ==> WellTyped(f.schema, f.skip.value))
  }

  lemma {:induction false} WfFieldsByParts(c: Config, fs: seq<Field>)
    ensures WfFields(c, fs) <==> forall i | 0 <= i < |fs| :: LetThrough(c, fs[i])
    decreases fs
  {
    hide Wf, WellTyped;
    if fs != [] {
      assert fs[0].schema < fs[0];
      WfFieldsByParts(c, fs[1..]);
      assert forall i | 1 <= i < |fs| :: fs[i] == fs[1..][i - 1];
      assert forall i | 0 <= i < |fs[1..]| :: fs[1..][i] == fs[i + 1];
    }
  }

  /** The literal a variant is matched against fits the tag encoding, or `u32` without an override. */
  predicate TagFits(tag: Option<IntKind>, v: Variant, k: nat) {
    var t := if v.tag.Some? then v.tag.value else k;
    if tag.Some? then tag.value.InRange(t) else t < 0x1_0000_0000
  }

  lemma {:induction false} WfVariantsByParts(c: Config, tag: Option<IntKind>, vs: seq<Variant>, from: nat)
    ensures WfVariants(c, tag, vs, from) <==> forall k | 0 <= k < |vs| :: WfFields(c, vs[k].fields) && TagFits(tag, vs[k], from + k)
    decreases vs
  {
    hide WfFields;
    if vs != [] {
      WfVariantsByParts(c, tag, vs[1..], from + 1);
      assert forall k | 1 <= k < |vs| :: vs[k] == vs[1..][k - 1];
      assert forall k | 0 <= k < |vs[1..]| :: vs[1..][k] == vs[k + 1];
      if WfVariants(c, tag, vs, from) {
        forall k | 0 <= k < |vs|
          ensures WfFields(c, vs[k].fields) && TagFits(tag, vs[k], from + k)
        {
          if k > 0 {
            assert TagFits(tag, vs[1..][k - 1], from + 1 + (k - 1));
          }
        }
      }
      if forall k | 0 <= k < |vs| :: WfFields(c, vs[k].fields) && TagFits(tag, vs[k], from + k) {
        forall k | 0 <= k < |vs[1..]|
          ensures WfFields(c, vs[1..][k].fields) && TagFits(tag, vs[1..][k], from + 1 + k)
        {
          assert TagFits(tag, vs[k + 1], from + (k + 1));
        }
      }
    }
  }

  /** A struct of types that are let through is let through; only `()` must take no memory. */
  lemma WfStructs(c: Config, repr: Repr, fs: seq<Field>)
    ensures Wf(c, StructS(repr, fs)) <==>
              && (forall i | 0 <= i < |fs| :: LetThrough(c, fs[i]))
              && (fs == [] ==> LayoutOf(StructS(repr, fs)).size == 0)
  {
    hide LayoutOf, FieldMetas;
    WfFieldsByParts(c, fs);
  }

  /** An enum is let through exactly when its parts are, no tag occurs twice, and every tag fits. */
  lemma WfEnums(c: Config, s: Schema)
    requires s.EnumS?
    ensures Wf(c, s) <==>
              && (if s.tag.Some? then s.tag.value else c.tag).width in {1, 2, 4, 8, 16}
              && NoTagTwice(s.variants)
              && forall k | 0 <= k < |s.variants| :: WfFields(c, s.variants[k].fields) && TagFits(s.tag, s.variants[k], k)
  {
    hide WfFields, FieldMetas, DistinctTags, NoTagTwice, TagFits, WfVariants;
    DistinctMeansNoTagTwice(s.variants);
    WfVariantsByParts(c, s.tag, s.variants, 0);
    if (Meta(c, Reading, s).Static?) { EnumIsModerate(c, Reading, s); }
    if (Meta(c, Writing, s).Static?) { EnumIsModerate(c, Writing, s); }
  }

  lemma EnumIsModerate(c: Config, side: Side, s: Schema)
    requires s.EnumS? && Meta(c, side, s).Static?
    ensures Meta(c, side, s).size < USIZE
  {
    StaticEnum(c, side, s, 0);
  }

  /** Every other type: integers of a known width, lengths of a known width, and parts that are let
      through; arrays whose static size, a product, is below the address space. */
  lemma WfOthers(c: Config, s: Schema)
    requires !s.StructS? && !s.EnumS?
    ensures Wf(c, s) <==>
              && (s.IntS? ==> s.kind.width in {1, 2, 4, 8, 16})
              && (s.StrS? || s.SeqS? || s.MapS? || s.DiscardSeqS? ==> s.len.kind.width in {1, 2, 4, 8, 16})
              && (s.ArrS? || s.SeqS? || s.DiscardSeqS? ==> Wf(c, s.elem))
              && (s.OptS? || s.BoxS? || s.DefaultOnEmptyS? || s.DiscardS? ==> Wf(c, s.inner))
              && (s.MapS? ==> Wf(c, s.entry.key) && Wf(c, s.entry.val))
              && (s.DefaultOnEmptyS? || s.DiscardS? ==> WellTyped(s.inner, s.dflt))
              && (s.ArrS? ==> (Meta(c, Reading, s.elem).Static? ==> s.count * Meta(c, Reading, s.elem).size < USIZE)
                              && (Meta(c, Writing, s.elem).Static? ==> s.count * Meta(c, Writing, s.elem).size < USIZE))
  {
    hide WellTyped, LayoutOf;
  }

  // Which types have windows that hold

  /** A bound on what static parts of the type take on the wire, whatever the configuration. */
  function Weight(s: Schema): nat
    decreases s
  {
    match s
    case IntS(k) => k.width
    case BoolS => 1
    case OptS(e, _) => Weight(e)
    case ArrS(n, e) => Weight(e) + Times(n, Weight(e))
    case SeqS(e, _, _, _) => Weight(e)
    case MapS(p, _, _, _) => Weight(p.key) + Weight(p.val)
    case StructS(_, fs) => WeightOf(fs)
    case EnumS(_, vs, _) => 16 + WeightOfAll(vs)
    case BoxS(e) => Weight(e)
    case DefaultOnEmptyS(e, _) => Weight(e)
    case DiscardS(e, _) => Weight(e)
    case DiscardSeqS(e, _) => Weight(e)
    case _ => 0
  }

  function WeightOf(fs: seq<Field>): nat
    decreases fs
  {
    if fs == [] then 0 else assert fs[0].schema < fs[0]; Weight(fs[0].schema) + WeightOf(fs[1..])
  }

  function WeightOfAll(vs: seq<Variant>): nat
    decreases vs
  {
    if vs == [] then 0 else WeightOf(vs[0].fields) + WeightOfAll(vs[1..])
  }

  lemma TimesMonotone(n: nat, a: nat, b: nat)
    requires a <= b
    ensures Times(n, a) <= Times(n, b)
  {
    assert n * b == n * a + n * (b - a);
  }

  lemma {:induction false} StaticWithinWeight(c: Config, side: Side, s: Schema)
    requires Wf(c, s) && Meta(c, side, s).Static?
    ensures Meta(c, side, s).size <= Weight(s)
    decreases s
  {
    hide LayoutOf;
    match s
    case ArrS(n, e) =>
      StaticWithinWeight(c, side, e);
      TimesMonotone(n, Meta(c, side, e).size, Weight(e));
    case StructS(_, fs) =>
      if fs != [] {
        TotalWithinWeight(c, side, fs);
        JoinAtMostTotal(FieldMetas(c, side, fs));
      }
    case EnumS(tag, vs, _) =>
      StaticEnum(c, side, s, 0);
      WfVariant(c, tag, vs, 0, 0);
      TotalWithinWeight(c, side, vs[0].fields);
      JoinAtMostTotal(FieldMetas(c, side, vs[0].fields));
      WrapsOrNot(IntMeta(c, TagKind(c, tag)).size + Join(FieldMetas(c, side, vs[0].fields)).size);
    case BoxS(e) => StaticWithinWeight(c, side, e);
    case DefaultOnEmptyS(e, _) => StaticWithinWeight(c, side, e);
    case DiscardS(e, _) => StaticWithinWeight(c, side, e);
    case _ =>
  }

  lemma JoinAtMostTotal(ms: seq<TypeMeta>)
    requires Join(ms).Static?
    ensures Join(ms).size <= Total(ms)
  {
    JoinCovers(ms);
    WrapsOrNot(Total(ms));
    SameSmall(Join(ms).size, Total(ms) % USIZE);
  }

  lemma {:induction false} TotalWithinWeight(c: Config, side: Side, fs: seq<Field>)
    requires WfFields(c, fs)
    ensures Total(FieldMetas(c, side, fs)) <= WeightOf(fs)
    decreases fs
  {
    hide Meta, Wf, Weight;
    if fs != [] {
      assert fs[0].schema < fs[0];
      TotalWithinWeight(c, side, fs[1..]);
      if fs[0].skip.None? {
        var m := Meta(c, side, fs[0].schema);
        assert ([m] + FieldMetas(c, side, fs[1..]))[1..] == FieldMetas(c, side, fs[1..]);
        if m.Static? {
          StaticWithinWeight(c, side, fs[0].schema);
        }
      }
    }
  }

  /** A type that weighs less than the address space has windows that hold. */
  lemma {:induction false} LightIsRoomy(c: Config, s: Schema)
    requires Wf(c, s) && Weight(s) < USIZE
    ensures Roomy(c, s)
    decreases s
  {
    hide LayoutOf, Meta;
    match s
    case OptS(e, _) => LightIsRoomy(c, e);
    case ArrS(n, e) => LightIsRoomy(c, e);
    case SeqS(e, _, _, _) => LightIsRoomy(c, e);
    case MapS(p, _, _, _) =>
      LightIsRoomy(c, p.key);
      LightIsRoomy(c, p.val);
      if Meta(c, Reading, p.key).Static? && Meta(c, Reading, p.val).Static? {
        StaticWithinWeight(c, Reading, p.key);
        StaticWithinWeight(c, Reading, p.val);
      }
    case StructS(_, fs) =>
      TotalWithinWeight(c, Reading, fs);
      LightFields(c, fs);
    case EnumS(tag, vs, _) =>
      LightVariants(c, tag, if Meta(c, Reading, s).Static? then [IntMeta(c, TagKind(c, tag))] else [], vs, 0);
    case BoxS(e) => LightIsRoomy(c, e);
    case DefaultOnEmptyS(e, _) => LightIsRoomy(c, e);
    case DiscardS(e, _) => LightIsRoomy(c, e);
    case DiscardSeqS(e, _) => LightIsRoomy(c, e);
    case _ =>
  }

  lemma {:induction false} LightFields(c: Config, fs: seq<Field>)
    requires WfFields(c, fs) && WeightOf(fs) < USIZE
    ensures RoomyFields(c, fs)
    decreases fs
  {
    if fs != [] {
      assert fs[0].schema < fs[0];
      LightIsRoomy(c, fs[0].schema);
      LightFields(c, fs[1..]);
    }
  }

  lemma {:induction false} LightVariants(c: Config, kind: Option<IntKind>, tag: seq<TypeMeta>, vs: seq<Variant>, from: nat)
    requires WfVariants(c, kind, vs, from) && 16 + WeightOfAll(vs) < USIZE
    requires tag == [] || (|tag| == 1 && (tag[0].Static? ==> tag[0].size <= 16))
    ensures RoomyVariants(c, tag, vs)
    decreases vs
  {
    if vs != [] {
      var ms := FieldMetas(c, Reading, vs[0].fields);
      TotalWithinWeight(c, Reading, vs[0].fields);
      LightFields(c, vs[0].fields);
      LightVariants(c, kind, tag, vs[1..], from + 1);
      if tag == [] {
        assert tag + ms == ms;
      } else {
        assert (tag + ms)[1..] == ms;
      }
    }
  }
}
