/** Writing, sizing and reading every schema. Reading comes in two forms: field by field, and
    with the trusted windows and bulk copies of the code. */
module Codec {
  import opened Prim
  import opened IntEncoding
  import opened Utf8
  import opened TypeMetas
  import opened Schemas
  import opened Lens
  import opened Memory

  // Which schemas the compiler lets through

  /** The size of an array is a product computed in a constant, where overflow is an error. Every
      other static size is a `usize` as it is. */
  predicate Moderate(m: TypeMeta) { m.Static? ==> m.size < USIZE }

  predicate Wf(c: Config, s: Schema)
    decreases s
  {
    && Moderate(Meta(c, Reading, s))
    && Moderate(Meta(c, Writing, s))
    && match s
       case IntS(k) => k.Valid()
       case StrS(len, _, _, _) => len.kind.Valid()
       case OptS(e, _) => Wf(c, e)
       case ArrS(_, e) => Wf(c, e)
       case SeqS(e, len, _, _) => len.kind.Valid() && Wf(c, e)
       case MapS(p, len, _, _) => len.kind.Valid() && Wf(c, p.key) && Wf(c, p.val)
       case StructS(repr, fs) => WfFields(c, fs) && (fs == [] ==> LayoutOf(s).size == 0)
       case EnumS(tag, vs, _) => TagKind(c, tag).Valid() && DistinctTags(vs) && WfVariants(c, tag, vs, 0)
       case BoxS(e) => Wf(c, e)
       case DefaultOnEmptyS(e, d) => Wf(c, e) && WellTyped(e, d)
       case DiscardS(e, d) => Wf(c, e) && WellTyped(e, d)
       case DiscardSeqS(e, len) => len.kind.Valid() && Wf(c, e)
       case _ => true
  }

  predicate WfFields(c: Config, fs: seq<Field>)
    decreases fs
  {
    fs == [] ||
    (assert fs[0].schema < fs[0];
     Wf(c, fs[0].schema) && (fs[0].skip.Some? ==> WellTyped(fs[0].schema, fs[0].skip.value)) && WfFields(c, fs[1..]))
  }

  /** Tag literals fit the type they are matched against. */
  predicate WfVariants(c: Config, tag: Option<IntKind>, vs: seq<Variant>, from: nat)
    decreases vs
  {
    vs == [] ||
    (&& WfFields(c, vs[0].fields)
     && (if tag.Some? then tag.value.InRange(Discriminant(vs[0], from)) else Discriminant(vs[0], from) < U32_LIMIT)
     && WfVariants(c, tag, vs[1..], from + 1))
  }

  // Which schemas have windows that hold what is read inside them

  /** Key and value of static sizes are together shorter than the address space. */
  predicate ModerateEntry(c: Config, p: EntrySchema) {
    match (Meta(c, Reading, p.key), Meta(c, Reading, p.val))
    case (Static(k, _), Static(v, _)) => k + v < USIZE
    case _ => true
  }

  /** Wherever the sizes of fields are added up, for a window or for the size of a static enum with
      its tag, the sum is smaller than the address space. The compiler does not see to it. */
  predicate Roomy(c: Config, s: Schema)
    decreases s
  {
    match s
    case OptS(e, _) => Roomy(c, e)
    case ArrS(_, e) => Roomy(c, e)
    case SeqS(e, _, _, _) => Roomy(c, e)
    case MapS(p, _, _, _) => Roomy(c, p.key) && Roomy(c, p.val) && ModerateEntry(c, p)
    case StructS(_, fs) => Holds(FieldMetas(c, Reading, fs)) && RoomyFields(c, fs)
    case EnumS(tag, vs, _) => RoomyVariants(c, if Meta(c, Reading, s).Static? then [IntMeta(c, TagKind(c, tag))] else [], vs)
    case BoxS(e) => Roomy(c, e)
    case DefaultOnEmptyS(e, _) => Roomy(c, e)
    case DiscardS(e, _) => Roomy(c, e)
    case DiscardSeqS(e, _) => Roomy(c, e)
    case _ => true
  }

  predicate RoomyFields(c: Config, fs: seq<Field>)
    decreases fs
  {
    fs == [] ||
    (assert fs[0].schema < fs[0]; (fs[0].skip.None? ==> Roomy(c, fs[0].schema)) && RoomyFields(c, fs[1..]))
  }

  predicate RoomyVariants(c: Config, tag: seq<TypeMeta>, vs: seq<Variant>)
    decreases vs
  {
    vs == [] ||
    (&& Holds(tag + FieldMetas(c, Reading, vs[0].fields))
     && RoomyFields(c, vs[0].fields)
     && RoomyVariants(c, tag, vs[1..]))
  }

  lemma {:induction false} RoomyVariant(c: Config, tag: seq<TypeMeta>, vs: seq<Variant>, k: nat)
    requires RoomyVariants(c, tag, vs) && k < |vs|
    ensures Holds(tag + FieldMetas(c, Reading, vs[k].fields)) && RoomyFields(c, vs[k].fields)
    decreases k
  {
    if k > 0 {
      RoomyVariant(c, tag, vs[1..], k - 1);
    }
  }

  // Writing

  function Encode(c: Config, s: Schema, v: Value): Written<bytes>
    requires Wf(c, s) && WellTyped(s, v)
    decreases s, v
  {
    match s
    case IntS(k) => Wrote(EncodeInt(c.ints, k, v.i))
    case BoolS => Wrote(if v.b then [1] else [0])
    case CharS => Wrote(EncodeScalar(v.c))
    case StrS(len, _, check, _) =>
      var _ :- if check then WriteCheck(c, len, 1, |v.s|) else Wrote(());
      var n :- EncodeLen(c, len, |v.s|);
      Wrote(n + v.s)
    case OptS(e, _) =>
      if v.NoneV? then Wrote([0])
      else
        var b :- Encode(c, e, v.v);
        Wrote([1] + b)
    case ArrS(_, e) => EncodeAll(c, e, v.vs)
    case SeqS(e, len, check, _) =>
      var _ :- if check then WriteCheck(c, len, LayoutOf(e).size, |v.vs|) else Wrote(());
      var n :- EncodeLen(c, len, |v.vs|);
      var b :- EncodeAll(c, e, v.vs);
      Wrote(n + b)
    case MapS(p, len, size, _) =>
      var _ :- WriteCheck(c, len, size, |v.entries|);
      var n :- EncodeLen(c, len, |v.entries|);
      var b :- EncodeEntries(c, p, v.entries);
      Wrote(n + b)
    case StructS(_, fs) => EncodeFields(c, fs, v.vs)
    case EnumS(tag, vs, _) =>
      WfVariant(c, tag, vs, 0, v.variant);
      var t :- EncodeTag(c, tag, Discriminant(vs[v.variant], v.variant));
      var b :- EncodeFields(c, vs[v.variant].fields, v.vs);
      Wrote(t + b)
    case BoxS(e) => Encode(c, e, v)
    case DefaultOnEmptyS(e, _) => Encode(c, e, v)
    case DiscardS(e, d) => Encode(c, e, d)
    case DiscardSeqS(_, len) => EncodeLen(c, len, 0)
  }

  function EncodeAll(c: Config, e: Schema, vs: seq<Value>): Written<bytes>
    requires Wf(c, e) && AllTyped(e, vs)
    decreases e, vs
  {
    if vs == [] then Wrote([])
    else
      var b :- Encode(c, e, vs[0]);
      var r :- EncodeAll(c, e, vs[1..]);
      Wrote(b + r)
  }

  function EncodeEntries(c: Config, p: EntrySchema, es: seq<Entry>): Written<bytes>
    requires Wf(c, p.key) && Wf(c, p.val) && EntriesTyped(p, es)
    decreases p, es
  {
    if es == [] then Wrote([])
    else
      var k :- Encode(c, p.key, es[0].key);
      var b :- Encode(c, p.val, es[0].val);
      var r :- EncodeEntries(c, p, es[1..]);
      Wrote(k + b + r)
  }

  function EncodeFields(c: Config, fs: seq<Field>, vs: seq<Value>): Written<bytes>
    requires WfFields(c, fs) && FieldsTyped(fs, vs)
    decreases fs, vs
  {
    if fs == [] then Wrote([])
    else if fs[0].skip.Some? then EncodeFields(c, fs[1..], vs[1..])
    else
      assert fs[0].schema < fs[0];
      var b :- Encode(c, fs[0].schema, vs[0]);
      var r :- EncodeFields(c, fs[1..], vs[1..]);
      Wrote(b + r)
  }

  lemma WfVariant(c: Config, tag: Option<IntKind>, vs: seq<Variant>, from: nat, k: nat)
    requires WfVariants(c, tag, vs, from) && k < |vs|
    ensures WfFields(c, vs[k].fields)
    ensures if tag.Some? then tag.value.InRange(Discriminant(vs[k], from + k)) else Discriminant(vs[k], from + k) < U32_LIMIT
    decreases k
  {
    if k > 0 {
      WfVariant(c, tag, vs[1..], from + 1, k - 1);
    }
  }

  // Sizing, with the static shortcuts and the unchecked arithmetic of the code

  function SizeOf(c: Config, s: Schema, v: Value): Written<nat>
    requires Wf(c, s) && WellTyped(s, v)
    decreases s, v, 0
  {
    match s
    case IntS(k) => Wrote(SizeInt(c.ints, k, v.i))
    case BoolS => Wrote(1)
    case CharS => Wrote(|EncodeScalar(v.c)|)
    case StrS(len, _, _, _) =>
      var n :- LenBytesNeeded(c, len, |v.s|);
      Wrote(WrappingAdd(n, |v.s|))
    case OptS(e, _) =>
      if v.NoneV? then Wrote(1)
      else
        var n :- SizeOf(c, e, v.v);
        Wrote(WrappingAdd(1, n))
    case ArrS(_, e) =>
      if Meta(c, Writing, s).Static? then Wrote(Meta(c, Writing, s).size) else SizeOfAll(c, e, v.vs)
    case SeqS(e, len, _, _) => SizeOfSeq(c, e, len, v.vs)
    case MapS(p, len, _, _) => SizeOfMap(c, p, len, v.entries)
    case StructS(_, fs) =>
      if Meta(c, Writing, s).Static? then Wrote(Meta(c, Writing, s).size) else SizeOfFields(c, fs, v.vs)
    case EnumS(tag, vs, _) =>
      WfVariant(c, tag, vs, 0, v.variant);
      SizeOfVariant(c, tag, Discriminant(vs[v.variant], v.variant), vs[v.variant].fields, v.vs)
    case BoxS(e) => SizeOf(c, e, v)
    case DefaultOnEmptyS(e, _) => SizeOf(c, e, v)
    case DiscardS(e, d) =>
      if Meta(c, Writing, e).Static? then Wrote(Meta(c, Writing, e).size) else SizeOf(c, e, d)
    case DiscardSeqS(_, len) => LenBytesNeeded(c, len, 0)
  }

  function SizeOfAll(c: Config, e: Schema, vs: seq<Value>): Written<nat>
    requires Wf(c, e) && AllTyped(e, vs)
    decreases e, vs, 0
  {
    if vs == [] then Wrote(0)
    else
      var n :- SizeOf(c, e, vs[0]);
      var m :- SizeOfAll(c, e, vs[1..]);
      Wrote(WrappingAdd(n, m))
  }

  function SizeOfSeq(c: Config, e: Schema, len: SeqLen, vs: seq<Value>): Written<nat>
    requires len.kind.Valid() && Wf(c, e) && AllTyped(e, vs)
    decreases e, vs, 1
  {
    var n :- LenBytesNeeded(c, len, |vs|);
    if Meta(c, Writing, e).Static? then Wrote(WrappingAdd(n, WrappingMul(Meta(c, Writing, e).size, |vs|)))
    else
      var m :- SizeOfAll(c, e, vs);
      Wrote(WrappingAdd(n, m))
  }

  function SizeOfMap(c: Config, p: EntrySchema, len: SeqLen, es: seq<Entry>): Written<nat>
    requires len.kind.Valid() && Wf(c, p.key) && Wf(c, p.val) && EntriesTyped(p, es)
    decreases p, es, 1
  {
    var n :- LenBytesNeeded(c, len, |es|);
    match (Meta(c, Writing, p.key), Meta(c, Writing, p.val))
    case (Static(k, _), Static(v, _)) => Wrote(WrappingAdd(n, WrappingMul(WrappingAdd(k, v), |es|)))
    case _ =>
      var m :- SizeOfEntries(c, p, es);
      Wrote(WrappingAdd(n, m))
  }

  function SizeOfEntries(c: Config, p: EntrySchema, es: seq<Entry>): Written<nat>
    requires Wf(c, p.key) && Wf(c, p.val) && EntriesTyped(p, es)
    decreases p, es, 0
  {
    if es == [] then Wrote(0)
    else
      var k :- SizeOf(c, p.key, es[0].key);
      var n :- SizeOf(c, p.val, es[0].val);
      var m :- SizeOfEntries(c, p, es[1..]);
      Wrote(WrappingAdd(WrappingAdd(k, n), m))
  }

  /** The tag is checked before the static shortcut answers. */
  function SizeOfVariant(c: Config, tag: Option<IntKind>, t: nat, fs: seq<Field>, vs: seq<Value>): Written<nat>
    requires TagKind(c, tag).Valid() && WfFields(c, fs) && FieldsTyped(fs, vs)
    decreases fs, vs, 1
  {
    var n :- TagSize(c, tag, t);
    match Join([IntMeta(c, TagKind(c, tag))] + FieldMetas(c, Writing, fs))
    case Static(size, _) => Wrote(size)
    case Dynamic =>
      var m :- SizeOfFields(c, fs, vs);
      Wrote(WrappingAdd(n, m))
  }

  function SizeOfFields(c: Config, fs: seq<Field>, vs: seq<Value>): Written<nat>
    requires WfFields(c, fs) && FieldsTyped(fs, vs)
    decreases fs, vs, 0
  {
    if fs == [] then Wrote(0)
    else if fs[0].skip.Some? then SizeOfFields(c, fs[1..], vs[1..])
    else
      assert fs[0].schema < fs[0];
      var n :- SizeOf(c, fs[0].schema, vs[0]);
      var m :- SizeOfFields(c, fs[1..], vs[1..]);
      Wrote(WrappingAdd(n, m))
  }

  // Reading. `Plain` decodes field by field. `Windowed` is the code: it reserves the whole of a
  // static value up front, reads it inside the window, and copies zero-copy elements in bulk.

  datatype Mode = Plain | Windowed

  function Decode(c: Config, w: Mode, s: Schema, b: bytes): Parsed<Value>
    requires Wf(c, s)
    decreases s, 0, 0
  {
    match s
    case IntS(k) =>
      var (i, r) :- DecodeInt(c.ints, k, b);
      Ok(IntV(i), r)
    case BoolS => DecodeBool(b)
    case CharS =>
      var (x, r) :- DecodeChar(b);
      Ok(CharV(x), r)
    case StrS(len, check, _, _) => DecodeStr(c, len, check, b)
    case OptS(e, _) =>
      var (t, r) :- TakeByte(b);
      if t == 0 then Ok(NoneV, r)
      else if t == 1 then
        var (v, r') :- Decode(c, w, e, r);
        Ok(SomeV(v), r')
      else Fail(InvalidTagEncoding(t), r)
    case ArrS(n, e) =>
      var (vs, r) :- DecodeSlice(c, w, e, n, b);
      Ok(ListV(vs), r)
    case SeqS(e, len, _, _) =>
      var (n, r) :- DecodeLenChecked(c, len, LayoutOf(e).size, b);
      var (vs, r') :- DecodeSlice(c, w, e, n, r);
      Ok(ListV(vs), r')
    case MapS(p, len, size, _) =>
      var (n, r) :- DecodeLenChecked(c, len, size, b);
      var (es, r') :- DecodeMap(c, w, p, n, r);
      Ok(MapV(Collect(es)), r')
    case StructS(_, fs) =>
      var (vs, r) :-
        if w.Windowed? && Meta(c, Reading, s).Static? then DecodeFieldsIn(c, Meta(c, Reading, s).size, fs, b)
        else DecodeFields(c, w, fs, b);
      Ok(ListV(vs), r)
    case EnumS(tag, vs, _) =>
      if vs == [] then Fail(InvalidValue, b)
      else
        var (t, r) :- DecodeTag(c, tag, b);
        (match FindVariant(vs, t, 0)
         case None => Fail(InvalidTagEncoding(t % USIZE), r)
         case Some(k) =>
           WfVariant(c, tag, vs, 0, k);
           var (fields, r') :- DecodeVariant(c, w, vs[k].fields, r);
           Ok(EnumV(k, fields), r'))
    case BoxS(e) => Decode(c, w, e, b)
    case DefaultOnEmptyS(e, d) =>
      (match Decode(c, w, e, b)
       case Ok(v, r) => Ok(v, r)
       case Fail(ReadSizeLimit(_), at) => Ok(d, at)
       case Fail(x, at) => Fail(x, at))
    case DiscardS(e, d) =>
      var (_, r) :- Decode(c, w, e, b);
      Ok(d, r)
    case DiscardSeqS(e, len) =>
      var (n, r) :- DecodeLenChecked(c, len, LayoutOf(e).size, b);
      var (_, r') :-
        if w.Windowed? && Meta(c, Reading, e).Static? then DecodeManyIn(c, e, n, Meta(c, Reading, e).size, r)
        else DecodeMany(c, w, e, n, r);
      Ok(ListV([]), r')
  }

  function DecodeBool(b: bytes): Parsed<Value> {
    var (x, r) :- TakeByte(b);
    if x == 0 then Ok(BoolV(false), r)
    else if x == 1 then Ok(BoolV(true), r)
    else Fail(InvalidBoolEncoding(x), r)
  }

  function DecodeStr(c: Config, len: SeqLen, check: bool, b: bytes): Parsed<Value>
    requires len.kind.Valid()
  {
    var (n, r) :- if check then DecodeLenChecked(c, len, 1, b) else DecodeLen(c, len, b);
    var (s, r') :- Take(r, n);
    if ValidUtf8(s) then Ok(StrV(s), r') else Fail(InvalidUtf8Encoding, r')
  }

  /** `n` elements, one after the other. */
  function DecodeMany(c: Config, w: Mode, e: Schema, n: nat, b: bytes): Parsed<seq<Value>>
    requires Wf(c, e)
    decreases e, 1, n
  {
    if n == 0 then Ok([], b)
    else
      var (v, r) :- Decode(c, w, e, b);
      var (vs, r') :- DecodeMany(c, w, e, n - 1, r);
      Ok([v] + vs, r')
  }

  /** `n` elements of `size` bytes inside one trusted window. */
  function DecodeManyIn(c: Config, e: Schema, n: nat, size: nat, b: bytes): Parsed<seq<Value>>
    requires Wf(c, e)
    decreases e, 2, n
  {
    if Times(n, size) >= USIZE then Fail(LengthEncodingOverflow, b)
    else
      var (window, r) :- Take(b, Times(n, size));
      DecodeMany(c, Windowed, e, n, window).After(r)
  }

  /** `decode_into_slice_t`: bulk copy, window, or element by element. */
  function DecodeSlice(c: Config, w: Mode, e: Schema, n: nat, b: bytes): Parsed<seq<Value>>
    requires Wf(c, e)
    decreases e, 3, n
  {
    if w.Plain? then DecodeMany(c, w, e, n, b)
    else
      match Meta(c, Reading, e)
      case Static(_, true) =>
        var (img, r) :- Take(b, Times(n, LayoutOf(e).size));
        Ok(ReinterpretAll(c, e, n, img), r)
      case Static(size, false) => DecodeManyIn(c, e, n, size, b)
      case Dynamic => DecodeMany(c, w, e, n, b)
  }

  function DecodeEntry(c: Config, w: Mode, p: EntrySchema, b: bytes): Parsed<Entry>
    requires Wf(c, p.key) && Wf(c, p.val)
    decreases p, 0, 0
  {
    var (k, r) :- Decode(c, w, p.key, b);
    var (v, r') :- Decode(c, w, p.val, r);
    Ok(Entry(k, v), r')
  }

  function DecodeEntries(c: Config, w: Mode, p: EntrySchema, n: nat, b: bytes): Parsed<seq<Entry>>
    requires Wf(c, p.key) && Wf(c, p.val)
    decreases p, 1, n
  {
    if n == 0 then Ok([], b)
    else
      var (e, r) :- DecodeEntry(c, w, p, b);
      var (es, r') :- DecodeEntries(c, w, p, n - 1, r);
      Ok([e] + es, r')
  }

  function DecodeMap(c: Config, w: Mode, p: EntrySchema, n: nat, b: bytes): Parsed<seq<Entry>>
    requires Wf(c, p.key) && Wf(c, p.val)
    decreases p, 2, n
  {
    match (Meta(c, Reading, p.key), Meta(c, Reading, p.val))
    case (Static(k, _), Static(v, _)) =>
      if w.Plain? then DecodeEntries(c, w, p, n, b)
      else if k + v >= USIZE || Times(n, k + v) >= USIZE then Fail(LengthEncodingOverflow, b)
      else
        var (window, r) :- Take(b, Times(n, k + v));
        DecodeEntries(c, w, p, n, window).After(r)
    case _ => DecodeEntries(c, w, p, n, b)
  }

  /** Insert into a map: an equal key keeps its place and its value is replaced. */
  function Insert(es: seq<Entry>, e: Entry): seq<Entry> {
    if es == [] then [e]
    else if MeaningOf(es[0].key) == MeaningOf(e.key) then [Entry(es[0].key, e.val)] + es[1..]
    else [es[0]] + Insert(es[1..], e)
  }

  function Collect(es: seq<Entry>): seq<Entry> {
    if es == [] then [] else Insert(Collect(es[..|es| - 1]), es[|es| - 1])
  }

  function DecodeFields(c: Config, w: Mode, fs: seq<Field>, b: bytes): Parsed<seq<Value>>
    requires WfFields(c, fs)
    decreases fs, 0, 0
  {
    if fs == [] then Ok([], b)
    else
      assert fs[0].schema < fs[0];
      var (v, r) :-
        match fs[0].skip
        case Some(d) => Ok(d, b)
        case None => Decode(c, w, fs[0].schema, b);
      var (vs, r') :- DecodeFields(c, w, fs[1..], r);
      Ok([v] + vs, r')
  }

  /** All fields inside one trusted window of `size` bytes. */
  function DecodeFieldsIn(c: Config, size: nat, fs: seq<Field>, b: bytes): Parsed<seq<Value>>
    requires WfFields(c, fs)
    decreases fs, 1, 0
  {
    var (window, r) :- Take(b, size);
    DecodeFields(c, Windowed, fs, window).After(r)
  }

  function DecodeVariant(c: Config, w: Mode, fs: seq<Field>, b: bytes): Parsed<seq<Value>>
    requires WfFields(c, fs)
    decreases fs, 2, 0
  {
    var m := Join(FieldMetas(c, Reading, fs));
    if w.Windowed? && m.Static? then DecodeFieldsIn(c, m.size, fs, b) else DecodeFields(c, w, fs, b)
  }
}
