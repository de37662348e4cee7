/** The schema universe: which types there are, their values, their metadata and their layout. */
module Schemas {
  import opened Prim
  import opened IntEncoding
  import opened Utf8
  import opened TypeMetas

  /** The compile-time configuration, with the byte order of the target platform. */
  datatype Config = Config(ints: IntConfig, platform: Endian, tag: IntKind, prealloc: Option<nat>)

  datatype LimitOverride = UseConfig | NoLimit | Override(limit: nat)

  /** A length encoding: `UseIntLen`, or `FixIntLen` when `fixed`. */
  datatype SeqLen = SeqLen(kind: IntKind, fixed: bool, limit: LimitOverride)

  /** Size and alignment of a type in memory. */
  datatype Layout = Layout(size: nat, align: nat)

  /** `C` carries the alignment demanded by `align(N)`, or 1. */
  datatype Repr = RustRepr(lay: Layout) | Transparent | C(align: nat)

  /** Constructors whose layout Rust leaves open carry the layout the compiler chose. Tuples and
      `()` are structs with the Rust representation, `Result` is a two-variant enum, a set is a
      map to `()`, and the smart pointers are boxes. */
  datatype Schema =
    | IntS(kind: IntKind)
    | BoolS
    | CharS
    | StrS(len: SeqLen, readCheck: bool, writeCheck: bool, lay: Layout)
    | OptS(inner: Schema, lay: Layout)
    | ArrS(count: nat, elem: Schema)
    | SeqS(elem: Schema, len: SeqLen, writeCheck: bool, lay: Layout)
    | MapS(entry: EntrySchema, len: SeqLen, entrySize: nat, lay: Layout)
    | StructS(repr: Repr, fields: seq<Field>)
    | EnumS(tag: Option<IntKind>, variants: seq<Variant>, lay: Layout)
    | BoxS(inner: Schema)
    | DefaultOnEmptyS(inner: Schema, dflt: Value)
    | DiscardS(inner: Schema, dflt: Value)
    | DiscardSeqS(elem: Schema, len: SeqLen)

  datatype EntrySchema = EntrySchema(key: Schema, val: Schema)

  /** A field, and the value it takes on reading when it is skipped. */
  datatype Field = Field(schema: Schema, skip: Option<Value>)

  /** A variant with its explicit tag, if any. A unit variant has no fields. */
  datatype Variant = Variant(tag: Option<nat>, fields: seq<Field>)

  /** A map value lists its entries in the order they are iterated. */
  datatype Value =
    | IntV(i: int)
    | BoolV(b: bool)
    | CharV(c: int)
    | StrV(s: bytes)
    | NoneV
    | SomeV(v: Value)
    | ListV(vs: seq<Value>)
    | MapV(entries: seq<Entry>)
    | EnumV(variant: nat, vs: seq<Value>)

  datatype Entry = Entry(key: Value, val: Value)

  // The value a program can observe: maps without their iteration order

  datatype Meaning =
    | IntM(i: int)
    | BoolM(b: bool)
    | CharM(c: int)
    | StrM(s: bytes)
    | NoneM
    | SomeM(v: Meaning)
    | ListM(vs: seq<Meaning>)
    | MapM(m: map<Meaning, Meaning>)
    | EnumM(variant: nat, vs: seq<Meaning>)

  function MeaningOf(v: Value): Meaning
    decreases v
  {
    match v
    case IntV(i) => IntM(i)
    case BoolV(b) => BoolM(b)
    case CharV(c) => CharM(c)
    case StrV(s) => StrM(s)
    case NoneV => NoneM
    case SomeV(u) => SomeM(MeaningOf(u))
    case ListV(vs) => ListM(MeaningOfAll(vs))
    case MapV(es) => MapM(MapOf(es))
    case EnumV(k, vs) => EnumM(k, MeaningOfAll(vs))
  }

  function MeaningOfAll(vs: seq<Value>): seq<Meaning>
    decreases vs
  {
    if vs == [] then [] else [MeaningOf(vs[0])] + MeaningOfAll(vs[1..])
  }

  /** The finite map a list of entries denotes; a later entry replaces an earlier one. */
  function MapOf(es: seq<Entry>): map<Meaning, Meaning>
    decreases es
  {
    if es == [] then map[]
    else
      assert es[0].key < es[0];
      map[MeaningOf(es[0].key) := MeaningOf(es[0].val)] + MapOf(es[1..])
  }

  predicate DistinctKeys(es: seq<Entry>) {
    forall i, j | 0 <= i < j < |es| :: MeaningOf(es[i].key) != MeaningOf(es[j].key)
  }

  // Metadata

  datatype Side = Reading | Writing

  function IntMeta(c: Config, k: IntKind): TypeMeta {
    if k.width == 1 then Static(1, true)
    else if c.ints.varint then Dynamic
    else Static(k.width, c.ints.order == c.platform)
  }

  function TagKind(c: Config, tag: Option<IntKind>): IntKind {
    match tag
    case Some(k) => k
    case None => c.tag
  }

  function Meta(c: Config, side: Side, s: Schema): TypeMeta
    decreases s
  {
    match s
    case IntS(k) => IntMeta(c, k)
    case BoolS => Static(1, side.Writing?)
    case ArrS(n, e) =>
      (match Meta(c, side, e)
       case Static(m, z) => Static(Times(n, m), z)
       case Dynamic => Dynamic)
    case StructS(repr, fs) =>
      if fs == [] then Static(0, true)
      else
        (match Join(FieldMetas(c, side, fs))
         case Static(n, z) => Static(n, n == LayoutOf(s).size && !repr.RustRepr? && z)
         case Dynamic => Dynamic)
    case EnumS(tag, vs, _) =>
      if vs == [] then Dynamic else Choice(VariantMetas(c, side, IntMeta(c, TagKind(c, tag)), vs))
    case BoxS(e) => Meta(c, side, e).KeepZeroCopy(false)
    case DefaultOnEmptyS(e, _) => if side.Reading? then Dynamic else Meta(c, side, e)
    case DiscardS(e, _) => Meta(c, side, e).KeepZeroCopy(false)
    case _ => Dynamic
  }

  /** The metadata of the fields that are not skipped. */
  function FieldMetas(c: Config, side: Side, fs: seq<Field>): seq<TypeMeta>
    decreases fs
  {
    if fs == [] then []
    else if fs[0].skip.Some? then FieldMetas(c, side, fs[1..])
    else assert fs[0].schema < fs[0]; [Meta(c, side, fs[0].schema)] + FieldMetas(c, side, fs[1..])
  }

  function VariantMetas(c: Config, side: Side, tag: TypeMeta, vs: seq<Variant>): (ms: seq<TypeMeta>)
    ensures |ms| == |vs|
    decreases vs
  {
    if vs == [] then []
    else
      [Join([tag] + FieldMetas(c, side, vs[0].fields)).KeepZeroCopy(false)]
      + VariantMetas(c, side, tag, vs[1..])
  }

  // Layout

  function RoundUp(n: nat, align: nat): nat {
    if align == 0 then n else (n + align - 1) / align * align
  }

  function Max(a: nat, b: nat): nat { if a < b then b else a }

  function MaxAlign(ls: seq<Layout>): nat {
    if ls == [] then 1 else Max(ls[0].align, MaxAlign(ls[1..]))
  }

  /** Where the last field ends when fields are placed in declaration order from `at` on, each
      at the next multiple of its alignment. */
  function EndOf(ls: seq<Layout>, at: nat): nat {
    if ls == [] then at else EndOf(ls[1..], RoundUp(at, ls[0].align) + ls[0].size)
  }

  function TotalSize(ls: seq<Layout>): nat {
    if ls == [] then 0 else ls[0].size + TotalSize(ls[1..])
  }

  function LayoutOf(s: Schema): Layout
    decreases s
  {
    match s
    case IntS(k) => Layout(k.width, k.width)
    case BoolS => Layout(1, 1)
    case CharS => Layout(4, 4)
    case StrS(_, _, _, lay) => lay
    case OptS(_, lay) => lay
    case ArrS(n, e) => Layout(Times(n, LayoutOf(e).size), LayoutOf(e).align)
    case SeqS(_, _, _, lay) => lay
    case MapS(_, _, _, lay) => lay
    case StructS(repr, fs) =>
      (var ls := FieldLayouts(fs);
       match repr
       case RustRepr(lay) => lay
       case Transparent => Layout(TotalSize(ls), MaxAlign(ls))
       case C(align) => Layout(RoundUp(EndOf(ls, 0), Max(MaxAlign(ls), align)), Max(MaxAlign(ls), align)))
    case EnumS(_, _, lay) => lay
    case BoxS(_) => Layout(8, 8)
    case DefaultOnEmptyS(e, _) => LayoutOf(e)
    case DiscardS(e, _) => LayoutOf(e)
    case DiscardSeqS(_, _) => Layout(24, 8)
  }

  function FieldLayouts(fs: seq<Field>): (ls: seq<Layout>)
    ensures |ls| == |fs|
    decreases fs
  {
    if fs == [] then []
    else assert fs[0].schema < fs[0]; [LayoutOf(fs[0].schema)] + FieldLayouts(fs[1..])
  }

  // Well-typed values

  predicate WellTyped(s: Schema, v: Value)
    decreases s, v
  {
    match s
    case IntS(k) => v.IntV? && k.InRange(v.i)
    case BoolS => v.BoolV?
    case CharS => v.CharV? && Scalar(v.c)
    case StrS(_, _, _, _) => v.StrV? && ValidUtf8(v.s) && |v.s| < USIZE
    case OptS(e, _) => v.NoneV? || (v.SomeV? && WellTyped(e, v.v))
    case ArrS(n, e) => v.ListV? && |v.vs| == n && AllTyped(e, v.vs)
    case SeqS(e, _, _, _) => v.ListV? && |v.vs| < USIZE && AllTyped(e, v.vs)
    case MapS(p, _, _, _) => v.MapV? && |v.entries| < USIZE && EntriesTyped(p, v.entries) && DistinctKeys(v.entries)
    case StructS(_, fs) => v.ListV? && FieldsTyped(fs, v.vs)
    case EnumS(_, vs, _) => v.EnumV? && v.variant < |vs| && FieldsTyped(vs[v.variant].fields, v.vs)
    case BoxS(e) => WellTyped(e, v)
    case DefaultOnEmptyS(e, _) => WellTyped(e, v)
    case DiscardS(e, _) => WellTyped(e, v)
    case DiscardSeqS(e, _) => v.ListV? && |v.vs| < USIZE && AllTyped(e, v.vs)
  }

  predicate AllTyped(e: Schema, vs: seq<Value>)
    decreases e, vs
  {
    vs == [] || (WellTyped(e, vs[0]) && AllTyped(e, vs[1..]))
  }

  predicate EntriesTyped(p: EntrySchema, es: seq<Entry>)
    decreases p, es
  {
    es == [] || (WellTyped(p.key, es[0].key) && WellTyped(p.val, es[0].val) && EntriesTyped(p, es[1..]))
  }

  predicate FieldsTyped(fs: seq<Field>, vs: seq<Value>)
    decreases fs, vs
  {
    if fs == [] then vs == []
    else assert fs[0].schema < fs[0]; vs != [] && WellTyped(fs[0].schema, vs[0]) && FieldsTyped(fs[1..], vs[1..])
  }
}
