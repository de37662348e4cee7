/** A static size is the number of bytes written for every value and consumed by every read. */
module StaticSize {
  import opened Prim
  import opened IntEncoding
  import opened TypeMetas
  import opened Schemas
  import opened Lens
  import opened Codec

  /** `d` was read from `b`: a success consumed exactly `n` bytes, and `n` bytes are enough not
      to run out of input. */
  ghost predicate Exact<T>(d: Parsed<T>, b: bytes, n: nat) {
    match d
    case Ok(_, rest) => |b| == |rest| + n
    case Fail(e, _) => |b| >= n ==> !e.ReadSizeLimit?
  }

  lemma IntExact(c: Config, k: IntKind, b: bytes)
    requires k.Valid() && IntMeta(c, k).Static?
    ensures Exact(DecodeInt(c.ints, k, b), b, IntMeta(c, k).size)
  {}

  lemma TagExact(c: Config, tag: Option<IntKind>, b: bytes)
    requires TagKind(c, tag).Valid() && IntMeta(c, TagKind(c, tag)).Static?
    ensures Exact(DecodeTag(c, tag, b), b, IntMeta(c, TagKind(c, tag)).size)
  {
    IntExact(c, TagKind(c, tag), b);
  }

  /** Variants are never zero-copy, and share the size of a static enum. */
  lemma {:induction false} VariantMeta(c: Config, side: Side, tag: TypeMeta, vs: seq<Variant>, k: nat)
    requires k < |vs|
    ensures VariantMetas(c, side, tag, vs)[k] == Join([tag] + FieldMetas(c, side, vs[k].fields)).KeepZeroCopy(false)
    decreases k
  {
    if k > 0 {
      VariantMeta(c, side, tag, vs[1..], k - 1);
    }
  }

  lemma StaticEnum(c: Config, side: Side, s: Schema, k: nat)
    requires s.EnumS? && k < |s.variants| && Meta(c, side, s).Static?
    ensures var tag := IntMeta(c, TagKind(c, s.tag));
            var fields := Join(FieldMetas(c, side, s.variants[k].fields));
            && tag.Static? && fields.Static?
            && Meta(c, side, s) == Static(WrappingAdd(tag.size, fields.size), false)
  {
    var tag := IntMeta(c, TagKind(c, s.tag));
    var ms := VariantMetas(c, side, tag, s.variants);
    VariantMeta(c, side, tag, s.variants, k);
    VariantMeta(c, side, tag, s.variants, 0);
    assert ms[k].Static? && ms[k].size == ms[0].size;
    JoinCons(tag, FieldMetas(c, side, s.variants[k].fields));
  }

  /** The metadata of a `Result`, computed from its own three parts in a constant, where overflow is
      an error. */
  function ResultMeta(ok: TypeMeta, err: TypeMeta, tag: TypeMeta): Option<TypeMeta> {
    match (ok, err, tag)
    case (Static(n, _), Static(m, _), Static(d, _)) =>
      if n != m then Some(Dynamic) else if d + n < USIZE then Some(Static(d + n, false)) else None
    case _ => Some(Dynamic)
  }

  /** Where it compiles, it is the metadata of the enum with the two variants; it does not where the
      sum of the enum would wrap. */
  lemma ResultIsEnum(c: Config, side: Side, ok: Schema, err: Schema, lay: Layout)
    requires Wf(c, ok) && Wf(c, err) && c.tag.Valid()
    ensures var tag, m, m' := IntMeta(c, c.tag), Meta(c, side, ok), Meta(c, side, err);
            match ResultMeta(m, m', tag)
            case Some(r) => Meta(c, side, EnumS(None, [Variant(None, [Field(ok, None)]), Variant(None, [Field(err, None)])], lay)) == r
            case None => tag.Static? && m.Static? && m'.Static? && m.size == m'.size && tag.size + m.size >= USIZE
  {
    hide WrappingAdd, Wf, IntMeta;
    var tag := IntMeta(c, c.tag);
    var fs, gs := [Field(ok, None)], [Field(err, None)];
    var vs := [Variant(None, fs), Variant(None, gs)];
    StaticIsModerate(c, side, ok);
    StaticIsModerate(c, side, err);
    TagAndField(c, side, tag, Field(ok, None));
    TagAndField(c, side, tag, Field(err, None));
    VariantMeta(c, side, tag, vs, 0);
    VariantMeta(c, side, tag, vs, 1);
    if tag.Static? && Meta(c, side, ok).Static? && Meta(c, side, err).Static? {
      WrappedApart(tag.size, Meta(c, side, ok).size, Meta(c, side, err).size);
    }
  }

  lemma StaticIsModerate(c: Config, side: Side, s: Schema)
    requires Wf(c, s)
    ensures Meta(c, side, s).Static? ==> Meta(c, side, s).size < USIZE
  {}

  lemma WrappedApart(d: nat, n: nat, m: nat)
    requires n < USIZE && m < USIZE
    ensures WrappingAdd(d, n) == WrappingAdd(d, m) <==> n == m
    ensures d + n < USIZE ==> WrappingAdd(d, n) == d + n
  {}

  lemma TagAndField(c: Config, side: Side, tag: TypeMeta, f: Field)
    requires f.skip.None? && Wf(c, f.schema)
    ensures Join([tag] + FieldMetas(c, side, [f])) == match (tag, Meta(c, side, f.schema))
                                                      case (Static(d, z), Static(n, y)) => Static(WrappingAdd(d, n), z && y)
                                                      case _ => Dynamic
  {
    var m := Meta(c, side, f.schema);
    assert [f][1..] == [] && FieldMetas(c, side, [f]) == [m] + FieldMetas(c, side, []) == [m];
    assert [tag] + [m] == [tag, m] && [tag, m][1..] == [m] && [m][1..] == [];
    assert Join([m]) == match m case Static(n, z) => Static(n, z) case Dynamic => Dynamic;
  }

  /** A zero-copy type is as large in memory as it is on the wire. */
  lemma {:induction false} ZeroCopySize(c: Config, side: Side, s: Schema)
    requires Wf(c, s) && Meta(c, side, s).Static? && Meta(c, side, s).zeroCopy
    ensures LayoutOf(s).size == Meta(c, side, s).size
    decreases s
  {
    match s
    case ArrS(_, e) => ZeroCopySize(c, side, e);
    case EnumS(_, _, _) => EnumNeverZeroCopy(c, side, s);
    case DefaultOnEmptyS(e, _) => ZeroCopySize(c, side, e);
    case _ =>
  }

  lemma EnumNeverZeroCopy(c: Config, side: Side, s: Schema)
    ensures s.EnumS? && Meta(c, side, s).Static? ==> !Meta(c, side, s).zeroCopy
  {
    if s.EnumS? && Meta(c, side, s).Static? {
      StaticEnum(c, side, s, 0);
    }
  }

  lemma TimesStep(n: nat, m: nat)
    requires n > 0
    ensures Times(n, m) == m + Times(n - 1, m)
  {
    assert n * m == m + (n - 1) * m;
  }

  lemma TimesCommutes(n: nat, m: nat)
    ensures Times(n, m) == Times(m, n)
  {}

  /** Every read of a static schema, windowed or not, consumes exactly its static size, if no sum of
      sizes in it wraps. */
  lemma {:induction false} StaticRead(c: Config, w: Mode, s: Schema, b: bytes)
    requires Wf(c, s) && Roomy(c, s) && Meta(c, Reading, s).Static?
    ensures Exact(Decode(c, w, s, b), b, Meta(c, Reading, s).size)
    decreases s, 0, 0
  {
    match s
    case IntS(k) => IntExact(c, k, b);
    case BoolS =>
    case ArrS(n, e) => StaticSlice(c, w, e, n, b);
    case StructS(_, fs) => StaticStruct(c, w, s, b);
    case EnumS(_, _, _) => StaticReadEnum(c, w, s, b);
    case BoxS(e) => StaticRead(c, w, e, b);
    case DiscardS(e, _) => StaticRead(c, w, e, b);
  }

  lemma {:induction false} StaticStruct(c: Config, w: Mode, s: Schema, b: bytes)
    requires s.StructS? && Wf(c, s) && Roomy(c, s) && Meta(c, Reading, s).Static?
    ensures Exact(Decode(c, w, s, b), b, Meta(c, Reading, s).size)
    decreases s.fields, 2, 0
  {
    JoinCovers(FieldMetas(c, Reading, s.fields));
    if w.Plain? {
      StaticFields(c, w, s.fields, b);
    } else {
      StaticFieldsIn(c, Meta(c, Reading, s).size, s.fields, b);
    }
  }

  /** A static enum and what its variants add up to, with and without the tag. */
  lemma RoomyStatic(c: Config, s: Schema, k: nat)
    requires s.EnumS? && k < |s.variants| && Roomy(c, s) && Meta(c, Reading, s).Static?
    ensures var tag, ms := IntMeta(c, TagKind(c, s.tag)), FieldMetas(c, Reading, s.variants[k].fields);
            && RoomyFields(c, s.variants[k].fields)
            && tag.Static? && Join(ms).Static? && Holds(ms)
            && Meta(c, Reading, s).size == tag.size + Join(ms).size
  {
    var tag, ms := IntMeta(c, TagKind(c, s.tag)), FieldMetas(c, Reading, s.variants[k].fields);
    StaticEnum(c, Reading, s, k);
    RoomyVariant(c, [tag], s.variants, k);
    JoinCons(tag, ms);
    JoinCovers(ms);
    JoinCovers([tag] + ms);
  }

  /** In any enum, static or not, the fields of a variant fit their window. */
  lemma RoomyChoice(c: Config, s: Schema, k: nat)
    requires s.EnumS? && k < |s.variants| && Roomy(c, s)
    ensures RoomyFields(c, s.variants[k].fields) && Holds(FieldMetas(c, Reading, s.variants[k].fields))
  {
    var ms := FieldMetas(c, Reading, s.variants[k].fields);
    if Meta(c, Reading, s).Static? {
      RoomyStatic(c, s, k);
    } else {
      RoomyVariant(c, [], s.variants, k);
      assert [] + ms == ms;
    }
  }

  lemma {:induction false} StaticReadEnum(c: Config, w: Mode, s: Schema, b: bytes)
    requires s.EnumS? && Wf(c, s) && Roomy(c, s) && Meta(c, Reading, s).Static?
    ensures Exact(Decode(c, w, s, b), b, Meta(c, Reading, s).size)
    decreases s.variants, 5, 0
  {
    RoomyStatic(c, s, 0);
    TagExact(c, s.tag, b);
    var d := DecodeTag(c, s.tag, b);
    if d.Ok? && FindVariant(s.variants, d.value, 0).Some? {
      var k := FindVariant(s.variants, d.value, 0).value;
      RoomyStatic(c, s, k);
      WfVariant(c, s.tag, s.variants, 0, k);
      var fs := s.variants[k].fields;
      JoinCovers(FieldMetas(c, Reading, fs));
      if w.Windowed? {
        StaticFieldsIn(c, Join(FieldMetas(c, Reading, fs)).size, fs, d.rest);
      } else {
        StaticFields(c, w, fs, d.rest);
      }
    }
  }

  /** Static fields consume the sum of their sizes, however large. */
  lemma {:induction false} StaticFields(c: Config, w: Mode, fs: seq<Field>, b: bytes)
    requires WfFields(c, fs) && RoomyFields(c, fs) && Join(FieldMetas(c, Reading, fs)).Static?
    ensures Exact(DecodeFields(c, w, fs, b), b, Total(FieldMetas(c, Reading, fs)))
    decreases fs, 0, 0
  {
    if fs != [] {
      if fs[0].skip.Some? {
        StaticFields(c, w, fs[1..], b);
      } else {
        assert fs[0].schema < fs[0];
        assert FieldMetas(c, Reading, fs)[1..] == FieldMetas(c, Reading, fs[1..]);
        StaticRead(c, w, fs[0].schema, b);
        var d := Decode(c, w, fs[0].schema, b);
        if d.Ok? {
          StaticFields(c, w, fs[1..], d.rest);
        }
      }
    }
  }

  lemma {:induction false} StaticFieldsIn(c: Config, n: nat, fs: seq<Field>, b: bytes)
    requires WfFields(c, fs) && RoomyFields(c, fs) && Join(FieldMetas(c, Reading, fs)).Static?
    requires n == Total(FieldMetas(c, Reading, fs))
    ensures Exact(DecodeFieldsIn(c, n, fs, b), b, n)
    ensures n <= |b| ==> Exact(DecodeFields(c, Windowed, fs, b[..n]), b[..n], n)
    decreases fs, 1, 0
  {
    if n <= |b| {
      StaticFields(c, Windowed, fs, b[..n]);
    }
  }

  lemma {:induction false} StaticMany(c: Config, w: Mode, e: Schema, n: nat, b: bytes)
    requires Wf(c, e) && Roomy(c, e) && Meta(c, Reading, e).Static?
    ensures Exact(DecodeMany(c, w, e, n, b), b, Times(n, Meta(c, Reading, e).size))
    decreases e, 1, n
  {
    hide Decode, Meta, Wf;
    if n > 0 {
      TimesStep(n, Meta(c, Reading, e).size);
      StaticRead(c, w, e, b);
      var d := Decode(c, w, e, b);
      if d.Ok? {
        StaticMany(c, w, e, n - 1, d.rest);
      }
    }
  }

  lemma {:induction false} StaticManyIn(c: Config, e: Schema, n: nat, b: bytes)
    requires Wf(c, e) && Roomy(c, e) && Meta(c, Reading, e).Static?
    ensures Exact(DecodeManyIn(c, e, n, Meta(c, Reading, e).size, b), b, Times(n, Meta(c, Reading, e).size))
    ensures var m := Times(n, Meta(c, Reading, e).size);
            m <= |b| ==> Exact(DecodeMany(c, Windowed, e, n, b[..m]), b[..m], m)
    decreases e, 2, n
  {
    var m := Times(n, Meta(c, Reading, e).size);
    if m <= |b| {
      StaticMany(c, Windowed, e, n, b[..m]);
    }
  }

  lemma {:induction false} StaticSlice(c: Config, w: Mode, e: Schema, n: nat, b: bytes)
    requires Wf(c, e) && Roomy(c, e) && Meta(c, Reading, e).Static?
    ensures Exact(DecodeSlice(c, w, e, n, b), b, Times(n, Meta(c, Reading, e).size))
    decreases e, 3, n
  {
    if w.Plain? {
      StaticMany(c, w, e, n, b);
    } else if Meta(c, Reading, e).zeroCopy {
      ZeroCopySize(c, Reading, e);
    } else {
      StaticManyIn(c, e, n, b);
    }
  }

  lemma StaticEntry(c: Config, w: Mode, p: EntrySchema, b: bytes)
    requires Wf(c, p.key) && Wf(c, p.val) && Roomy(c, p.key) && Roomy(c, p.val)
    requires Meta(c, Reading, p.key).Static? && Meta(c, Reading, p.val).Static?
    ensures Exact(DecodeEntry(c, w, p, b), b, Meta(c, Reading, p.key).size + Meta(c, Reading, p.val).size)
  {
    StaticRead(c, w, p.key, b);
    var k := Decode(c, w, p.key, b);
    if k.Ok? {
      StaticRead(c, w, p.val, k.rest);
    }
  }

  lemma {:induction false} StaticEntries(c: Config, w: Mode, p: EntrySchema, n: nat, b: bytes)
    requires Wf(c, p.key) && Wf(c, p.val) && Roomy(c, p.key) && Roomy(c, p.val)
    requires Meta(c, Reading, p.key).Static? && Meta(c, Reading, p.val).Static?
    ensures Exact(DecodeEntries(c, w, p, n, b), b, Times(n, Meta(c, Reading, p.key).size + Meta(c, Reading, p.val).size))
    decreases n
  {
    hide Decode, DecodeEntry, Meta;
    if n > 0 {
      TimesStep(n, Meta(c, Reading, p.key).size + Meta(c, Reading, p.val).size);
      StaticEntry(c, w, p, b);
      var d := DecodeEntry(c, w, p, b);
      if d.Ok? {
        StaticEntries(c, w, p, n - 1, d.rest);
      }
    }
  }

  /** Every write of a static schema that succeeds writes its static size, as far as a `usize` can
      tell; so exactly that if it writes less than the address space. */
  lemma {:induction false} StaticWrite(c: Config, side: Side, s: Schema, v: Value)
    requires Wf(c, s) && WellTyped(s, v) && Meta(c, side, s).Static? && Encode(c, s, v).Wrote?
    ensures SameAddress(|Encode(c, s, v).value|, Meta(c, side, s).size)
    ensures |Encode(c, s, v).value| < USIZE ==> |Encode(c, s, v).value| == Meta(c, side, s).size
    decreases s, v
  {
    hide SameAddress, EncodeInt, EncodeAll, EncodeFields, Times, Join;
    match s {
      case IntS(_) => StaticWriteScalar(c, side, s, v);
      case BoolS => StaticWriteScalar(c, side, s, v);
      case ArrS(_, e) => StaticWriteAll(c, side, e, v.vs);
      case StructS(_, fs) => StaticWriteStruct(c, side, s, v);
      case EnumS(_, _, _) => StaticWriteEnum(c, side, s, v);
      case BoxS(e) => StaticWrite(c, side, e, v);
      case DefaultOnEmptyS(e, _) => StaticWrite(c, side, e, v);
      case DiscardS(e, d) => StaticWrite(c, side, e, d);
    }
    StaticIsModerate(c, side, s);
    if |Encode(c, s, v).value| < USIZE {
      SameSmall(|Encode(c, s, v).value|, Meta(c, side, s).size);
    }
  }

  lemma StaticWriteScalar(c: Config, side: Side, s: Schema, v: Value)
    requires (s.IntS? || s.BoolS?) && Wf(c, s) && WellTyped(s, v) && Meta(c, side, s).Static? && Encode(c, s, v).Wrote?
    ensures SameAddress(|Encode(c, s, v).value|, Meta(c, side, s).size)
  {}

  lemma {:induction false} StaticWriteStruct(c: Config, side: Side, s: Schema, v: Value)
    requires s.StructS? && Wf(c, s) && WellTyped(s, v) && Meta(c, side, s).Static? && Encode(c, s, v).Wrote?
    ensures SameAddress(|Encode(c, s, v).value|, Meta(c, side, s).size)
    decreases s.fields, v.vs, 5
  {
    hide SameAddress, EncodeFields;
    StaticWriteFields(c, side, s.fields, v.vs);
  }

  lemma {:induction false} StaticWriteEnum(c: Config, side: Side, s: Schema, v: Value)
    requires s.EnumS? && Wf(c, s) && WellTyped(s, v) && Meta(c, side, s).Static? && Encode(c, s, v).Wrote?
    ensures SameAddress(|Encode(c, s, v).value|, Meta(c, side, s).size)
    decreases s.variants, v
  {
    hide EncodeTag, EncodeFields, SameAddress, WrappingAdd;
    var fs, t := s.variants[v.variant].fields, Discriminant(s.variants[v.variant], v.variant);
    WfVariant(c, s.tag, s.variants, 0, v.variant);
    StaticEnum(c, side, s, v.variant);
    StaticTag(c, s.tag, t);
    StaticWriteFields(c, side, fs, v.vs);
    var n, m := |EncodeTag(c, s.tag, t).value|, Join(FieldMetas(c, side, fs)).size;
    SameSelf(n);
    SameSum(n, n, |EncodeFields(c, fs, v.vs).value|, m);
    SameJoined(n + |EncodeFields(c, fs, v.vs).value|, n, m);
  }

  lemma StaticTag(c: Config, tag: Option<IntKind>, t: nat)
    requires TagKind(c, tag).Valid() && EncodeTag(c, tag, t).Wrote? && IntMeta(c, TagKind(c, tag)).Static?
    ensures |EncodeTag(c, tag, t).value| == IntMeta(c, TagKind(c, tag)).size
  {}

  lemma {:induction false} StaticWriteAll(c: Config, side: Side, e: Schema, vs: seq<Value>)
    requires Wf(c, e) && AllTyped(e, vs) && Meta(c, side, e).Static? && EncodeAll(c, e, vs).Wrote?
    ensures SameAddress(|EncodeAll(c, e, vs).value|, Times(|vs|, Meta(c, side, e).size))
    decreases e, vs
  {
    hide Encode, Wf, WellTyped, Meta, SameAddress, Times;
    var size := Meta(c, side, e).size;
    if vs == [] {
      SameNothing(size);
    } else {
      TimesStep(|vs|, size);
      StaticWrite(c, side, e, vs[0]);
      StaticWriteAll(c, side, e, vs[1..]);
      SameSum(|Encode(c, e, vs[0]).value|, size, |EncodeAll(c, e, vs[1..]).value|, Times(|vs| - 1, size));
    }
  }

  lemma SameNothing(size: nat)
    ensures SameAddress(0, Times(0, size))
  {}

  lemma {:induction false} StaticWriteEntries(c: Config, p: EntrySchema, es: seq<Entry>)
    requires Wf(c, p.key) && Wf(c, p.val) && EntriesTyped(p, es)
    requires Meta(c, Writing, p.key).Static? && Meta(c, Writing, p.val).Static? && EncodeEntries(c, p, es).Wrote?
    ensures SameAddress(|EncodeEntries(c, p, es).value|, Times(|es|, Meta(c, Writing, p.key).size + Meta(c, Writing, p.val).size))
    decreases es
  {
    hide Encode, Wf, WellTyped, Meta, SameAddress, Times;
    var size := Meta(c, Writing, p.key).size + Meta(c, Writing, p.val).size;
    if es == [] {
      SameNothing(size);
    } else {
      var k, v := |Encode(c, p.key, es[0].key).value|, |Encode(c, p.val, es[0].val).value|;
      TimesStep(|es|, size);
      StaticWrite(c, Writing, p.key, es[0].key);
      StaticWrite(c, Writing, p.val, es[0].val);
      StaticWriteEntries(c, p, es[1..]);
      SameSum(k, Meta(c, Writing, p.key).size, v, Meta(c, Writing, p.val).size);
      SameSum(k + v, size, |EncodeEntries(c, p, es[1..]).value|, Times(|es| - 1, size));
    }
  }

  lemma {:induction false} StaticWriteFields(c: Config, side: Side, fs: seq<Field>, vs: seq<Value>)
    requires WfFields(c, fs) && FieldsTyped(fs, vs)
    requires Join(FieldMetas(c, side, fs)).Static? && EncodeFields(c, fs, vs).Wrote?
    ensures SameAddress(|EncodeFields(c, fs, vs).value|, Join(FieldMetas(c, side, fs)).size)
    decreases fs, vs, 0
  {
    if fs != [] {
      if fs[0].skip.Some? {
        StaticWriteFields(c, side, fs[1..], vs[1..]);
      } else {
        assert fs[0].schema < fs[0];
        StaticWrite(c, side, fs[0].schema, vs[0]);
        StaticWriteFields(c, side, fs[1..], vs[1..]);
        StaticWriteStep(c, side, fs, vs);
      }
    }
  }

  lemma {:induction false} StaticWriteStep(c: Config, side: Side, fs: seq<Field>, vs: seq<Value>)
    requires fs != [] && fs[0].skip.None? && WfFields(c, fs) && FieldsTyped(fs, vs)
    requires Join(FieldMetas(c, side, fs)).Static? && EncodeFields(c, fs, vs).Wrote?
    requires var m, ms := Meta(c, side, fs[0].schema), FieldMetas(c, side, fs[1..]);
             && (m.Static? ==> SameAddress(|Encode(c, fs[0].schema, vs[0]).value|, m.size))
             && (Join(ms).Static? ==> SameAddress(|EncodeFields(c, fs[1..], vs[1..]).value|, Join(ms).size))
    ensures SameAddress(|EncodeFields(c, fs, vs).value|, Join(FieldMetas(c, side, fs)).size)
  {
    hide Encode, Meta, Wf, WellTyped, SameAddress, Join;
    var m, ms := Meta(c, side, fs[0].schema), FieldMetas(c, side, fs[1..]);
    assert FieldMetas(c, side, fs) == [m] + ms;
    JoinCons(m, ms);
    SameSum(|Encode(c, fs[0].schema, vs[0]).value|, m.size, |EncodeFields(c, fs[1..], vs[1..]).value|, Join(ms).size);
    SameJoined(|EncodeFields(c, fs, vs).value|, m.size, Join(ms).size);
  }

  lemma SameJoined(n: nat, a: nat, b: nat)
    requires SameAddress(n, a + b)
    ensures SameAddress(n, WrappingAdd(a, b))
  {
    SameWrapped(a + b);
  }

  // Announced sizes

  /** An announcement of `n` bytes, as far as a `usize` can hold it. */
  ghost predicate Announces(size: Written<nat>, n: nat)
    ensures Announces(size, n) ==> size.Wrote?
  {
    size == Wrote(n % USIZE)
  }

  lemma AnnouncedSmall(n: nat)
    requires n < USIZE
    ensures Announces(Wrote(n), n)
  {}

  lemma AnnouncedPlus(k: nat, size: Written<nat>, n: nat)
    requires k < USIZE && Announces(size, n)
    ensures Announces(Wrote(WrappingAdd(k, size.value)), k + n)
  {
    AnnouncedSum(k, n);
  }

  lemma AnnouncedSum(n: nat, m: nat)
    ensures Announces(Wrote(WrappingAdd(n % USIZE, m % USIZE)), n + m)
    ensures n < USIZE ==> Announces(Wrote(WrappingAdd(n, m % USIZE)), n + m)
  {
    WrappedSum(n, m);
  }

  /** Whenever a value is written, the announced size is the number of bytes written, modulo the
      address space: it is exact exactly if the encoding is shorter than that. */
  lemma SizeExact(c: Config, s: Schema, v: Value)
    requires Wf(c, s) && WellTyped(s, v) && Encode(c, s, v).Wrote?
    ensures SizeOf(c, s, v) == Wrote(|Encode(c, s, v).value| % USIZE)
    ensures SizeOf(c, s, v) == Wrote(|Encode(c, s, v).value|) <==> |Encode(c, s, v).value| < USIZE
  {
    hide SizeOf, Encode;
    SizeAnnounced(c, s, v);
  }

  lemma SizeOfScalarAnnounced(c: Config, s: Schema, v: Value)
    requires s.IntS? || s.CharS? || s.StrS?
    requires Wf(c, s) && WellTyped(s, v) && Encode(c, s, v).Wrote?
    ensures Announces(SizeOf(c, s, v), |Encode(c, s, v).value|)
  {
    hide EncodeInt, SizeInt, EncodeLen, LenBytesNeeded, Announces, WrappingAdd;
    match s
    case IntS(k) =>
      IntRoundTrip(c.ints, k, v.i, []);
      IntIsSmall(c.ints, k, v.i);
      AnnouncedSmall(SizeInt(c.ints, k, v.i));
    case CharS =>
      AnnouncedSmall(|Encode(c, s, v).value|);
    case StrS(len, _, _, _) =>
      LenSizeExact(c, len, |v.s|);
      LenIsSmall(c, len, |v.s|);
      AnnouncedString(LenBytesNeeded(c, len, |v.s|).value, |v.s|);
  }

  lemma AnnouncedString(k: nat, n: nat)
    requires k < USIZE
    ensures Announces(Wrote(WrappingAdd(k, n)), k + n)
  {}

  lemma StaticAnnounced(c: Config, s: Schema, v: Value)
    requires Wf(c, s) && WellTyped(s, v) && Meta(c, Writing, s).Static? && Encode(c, s, v).Wrote?
    ensures Announces(Wrote(Meta(c, Writing, s).size), |Encode(c, s, v).value|)
  {
    hide SameAddress, Announces, Meta, Encode, Wf, WellTyped;
    StaticWrite(c, Writing, s, v);
    StaticIsModerate(c, Writing, s);
    SameAnnounced(Meta(c, Writing, s).size, |Encode(c, s, v).value|);
  }

  lemma SameAnnounced(size: nat, n: nat)
    requires SameAddress(n, size) && size < USIZE
    ensures Announces(Wrote(size), n)
  {}

  lemma {:induction false} SizeAnnounced(c: Config, s: Schema, v: Value)
    requires Wf(c, s) && WellTyped(s, v) && Encode(c, s, v).Wrote?
    ensures Announces(SizeOf(c, s, v), |Encode(c, s, v).value|)
    decreases s, v, 0
  {
    hide Announces, WrappingAdd, EncodeInt, SizeInt, EncodeLen, LenBytesNeeded, EncodeAll, EncodeFields, EncodeEntries, SizeOfAll, SizeOfFields, SizeOfSeq, SizeOfMap;
    match s
    case IntS(_) => SizeOfScalarAnnounced(c, s, v);
    case BoolS => AnnouncedSmall(1);
    case CharS => SizeOfScalarAnnounced(c, s, v);
    case StrS(_, _, _, _) => SizeOfScalarAnnounced(c, s, v);
    case OptS(e, _) =>
      if v.NoneV? {
        AnnouncedSmall(1);
      } else {
        SizeAnnounced(c, e, v.v);
        AnnouncedPlus(1, SizeOf(c, e, v.v), |Encode(c, e, v.v).value|);
      }
    case ArrS(_, e) =>
      if Meta(c, Writing, s).Static? { StaticAnnounced(c, s, v); } else { SizeOfAllAnnounced(c, e, v.vs); }
    case SeqS(_, _, _, _) => SizeOfSeqAnnounced(c, s, v);
    case MapS(_, _, _, _) => SizeOfMapAnnounced(c, s, v);
    case StructS(_, fs) =>
      if Meta(c, Writing, s).Static? { StaticAnnounced(c, s, v); } else { SizeOfFieldsAnnounced(c, fs, v.vs); }
    case EnumS(_, _, _) => SizeOfEnumAnnounced(c, s, v);
    case BoxS(e) => SizeAnnounced(c, e, v);
    case DefaultOnEmptyS(e, _) => SizeAnnounced(c, e, v);
    case DiscardS(e, d) =>
      if Meta(c, Writing, e).Static? { StaticAnnounced(c, e, d); } else { SizeAnnounced(c, e, d); }
    case DiscardSeqS(_, len) =>
      LenSizeExact(c, len, 0);
      LenIsSmall(c, len, 0);
      AnnouncedSmall(LenBytesNeeded(c, len, 0).value);
  }

  lemma {:induction false} SizeOfSeqAnnounced(c: Config, s: Schema, v: Value)
    requires s.SeqS? && Wf(c, s) && WellTyped(s, v) && Encode(c, s, v).Wrote?
    ensures Announces(SizeOf(c, s, v), |Encode(c, s, v).value|)
    decreases s.elem, v.vs, 5
  {
    hide SizeOfSeq;
    LenSizeExact(c, s.len, |v.vs|);
    SizeOfElemsAnnounced(c, s.elem, s.len, v.vs);
  }

  lemma {:induction false} SizeOfElemsAnnounced(c: Config, e: Schema, len: SeqLen, vs: seq<Value>)
    requires len.kind.Valid() && Wf(c, e) && AllTyped(e, vs)
    requires LenBytesNeeded(c, len, |vs|).Wrote? && EncodeAll(c, e, vs).Wrote?
    ensures Announces(SizeOfSeq(c, e, len, vs), LenBytesNeeded(c, len, |vs|).value + |EncodeAll(c, e, vs).value|)
    decreases e, vs, 4
  {
    hide LenBytesNeeded, EncodeAll, SizeOfAll, Wf;
    var n, m := LenBytesNeeded(c, len, |vs|).value, |EncodeAll(c, e, vs).value|;
    LenIsSmall(c, len, |vs|);
    AnnouncedSum(n, m);
    if Meta(c, Writing, e).Static? {
      StaticWriteAll(c, Writing, e, vs);
      TimesCommutes(Meta(c, Writing, e).size, |vs|);
    } else {
      SizeOfAllAnnounced(c, e, vs);
    }
  }

  lemma {:induction false} SizeOfMapAnnounced(c: Config, s: Schema, v: Value)
    requires s.MapS? && Wf(c, s) && WellTyped(s, v) && Encode(c, s, v).Wrote?
    ensures Announces(SizeOf(c, s, v), |Encode(c, s, v).value|)
    decreases s.entry, v.entries, 5
  {
    hide SizeOfMap;
    LenSizeExact(c, s.len, |v.entries|);
    SizeOfBodyAnnounced(c, s.entry, s.len, v.entries);
  }

  lemma {:induction false} SizeOfBodyAnnounced(c: Config, p: EntrySchema, len: SeqLen, es: seq<Entry>)
    requires len.kind.Valid() && Wf(c, p.key) && Wf(c, p.val) && EntriesTyped(p, es)
    requires LenBytesNeeded(c, len, |es|).Wrote? && EncodeEntries(c, p, es).Wrote?
    ensures Announces(SizeOfMap(c, p, len, es), LenBytesNeeded(c, len, |es|).value + |EncodeEntries(c, p, es).value|)
    decreases p, es, 4
  {
    hide LenBytesNeeded, EncodeEntries, SizeOfEntries, Wf;
    var mk, mv := Meta(c, Writing, p.key), Meta(c, Writing, p.val);
    var n, m := LenBytesNeeded(c, len, |es|).value, |EncodeEntries(c, p, es).value|;
    LenIsSmall(c, len, |es|);
    AnnouncedSum(n, m);
    if mk.Static? && mv.Static? {
      StaticWriteEntries(c, p, es);
      TimesCommutes(mk.size + mv.size, |es|);
      WrappedProduct(mk.size + mv.size, |es|);
    } else {
      SizeOfEntriesAnnounced(c, p, es);
    }
  }

  lemma {:induction false} SizeOfEnumAnnounced(c: Config, s: Schema, v: Value)
    requires s.EnumS? && Wf(c, s) && WellTyped(s, v) && Encode(c, s, v).Wrote?
    ensures Announces(SizeOf(c, s, v), |Encode(c, s, v).value|)
    decreases s.variants, v, 5
  {
    hide SizeOfVariant, EncodeTag;
    WfVariant(c, s.tag, s.variants, 0, v.variant);
    SizeOfVariantAnnounced(c, s.tag, Discriminant(s.variants[v.variant], v.variant), s.variants[v.variant].fields, v.vs);
  }

  lemma {:induction false} SizeOfVariantAnnounced(c: Config, tag: Option<IntKind>, t: nat, fs: seq<Field>, vs: seq<Value>)
    requires TagKind(c, tag).Valid() && WfFields(c, fs) && FieldsTyped(fs, vs)
    requires EncodeTag(c, tag, t).Wrote? && EncodeFields(c, fs, vs).Wrote?
    ensures Announces(SizeOfVariant(c, tag, t, fs, vs), |EncodeTag(c, tag, t).value| + |EncodeFields(c, fs, vs).value|)
    decreases fs, vs, 4
  {
    hide EncodeTag, EncodeFields, SizeOfFields, Wf, FieldMetas, Join, IntMeta, TagSize, TagKind;
    TagSizeExact(c, tag, t);
    TagIsSmall(c, tag, t);
    AnnouncedSum(|EncodeTag(c, tag, t).value|, |EncodeFields(c, fs, vs).value|);
    var m := IntMeta(c, TagKind(c, tag));
    JoinCons(m, FieldMetas(c, Writing, fs));
    if m.Static? && Join(FieldMetas(c, Writing, fs)).Static? {
      StaticWriteFields(c, Writing, fs, vs);
      StaticTag(c, tag, t);
      SameSum(m.size, m.size, |EncodeFields(c, fs, vs).value|, Join(FieldMetas(c, Writing, fs)).size);
    } else {
      SizeOfFieldsAnnounced(c, fs, vs);
    }
  }

  lemma {:induction false} SizeOfAllAnnounced(c: Config, e: Schema, vs: seq<Value>)
    requires Wf(c, e) && AllTyped(e, vs) && EncodeAll(c, e, vs).Wrote?
    ensures Announces(SizeOfAll(c, e, vs), |EncodeAll(c, e, vs).value|)
    decreases e, vs, 1
  {
    hide SizeOf, Encode;
    if vs != [] {
      SizeAnnounced(c, e, vs[0]);
      SizeOfAllAnnounced(c, e, vs[1..]);
      AnnouncedSum(|Encode(c, e, vs[0]).value|, |EncodeAll(c, e, vs[1..]).value|);
    }
  }

  lemma {:induction false} SizeOfEntriesAnnounced(c: Config, p: EntrySchema, es: seq<Entry>)
    requires Wf(c, p.key) && Wf(c, p.val) && EntriesTyped(p, es) && EncodeEntries(c, p, es).Wrote?
    ensures Announces(SizeOfEntries(c, p, es), |EncodeEntries(c, p, es).value|)
    decreases p, es, 1
  {
    hide SizeOf, Encode;
    if es != [] {
      var k, v := |Encode(c, p.key, es[0].key).value|, |Encode(c, p.val, es[0].val).value|;
      SizeAnnounced(c, p.key, es[0].key);
      SizeAnnounced(c, p.val, es[0].val);
      SizeOfEntriesAnnounced(c, p, es[1..]);
      AnnouncedSum(k, v);
      AnnouncedSum(k + v, |EncodeEntries(c, p, es[1..]).value|);
    }
  }

  lemma {:induction false} SizeOfFieldsAnnounced(c: Config, fs: seq<Field>, vs: seq<Value>)
    requires WfFields(c, fs) && FieldsTyped(fs, vs) && EncodeFields(c, fs, vs).Wrote?
    ensures Announces(SizeOfFields(c, fs, vs), |EncodeFields(c, fs, vs).value|)
    decreases fs, vs, 1
  {
    hide SizeOf, Encode;
    if fs != [] {
      if fs[0].skip.Some? {
        SizeOfFieldsAnnounced(c, fs[1..], vs[1..]);
      } else {
        assert fs[0].schema < fs[0];
        SizeAnnounced(c, fs[0].schema, vs[0]);
        SizeOfFieldsAnnounced(c, fs[1..], vs[1..]);
        AnnouncedSum(|Encode(c, fs[0].schema, vs[0]).value|, |EncodeFields(c, fs[1..], vs[1..]).value|);
      }
    }
  }
}
