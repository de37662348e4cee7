/** Reading undoes writing. */
module RoundTrip {
  import opened Prim
  import opened IntEncoding
  import opened Utf8
  import opened TypeMetas
  import opened Schemas
  import opened Lens
  import opened Codec
  import opened Extension
  import opened StaticSize
  import opened Windows

  /** What a written value is read back as: skipped fields take their defaults, discarded parts
      are reset, and a map is rebuilt by inserting its entries. */
  function Settled(s: Schema, v: Value): Value
    requires WellTyped(s, v)
    decreases s, v
  {
    match s
    case OptS(e, _) => if v.SomeV? then SomeV(Settled(e, v.v)) else v
    case ArrS(_, e) => ListV(SettledAll(e, v.vs))
    case SeqS(e, _, _, _) => ListV(SettledAll(e, v.vs))
    case MapS(p, _, _, _) => MapV(Collect(SettledEntries(p, v.entries)))
    case StructS(_, fs) => ListV(SettledFields(fs, v.vs))
    case EnumS(_, vs, _) => EnumV(v.variant, SettledFields(vs[v.variant].fields, v.vs))
    case BoxS(e) => Settled(e, v)
    case DefaultOnEmptyS(e, _) => Settled(e, v)
    case DiscardS(_, d) => d
    case DiscardSeqS(_, _) => ListV([])
    case _ => v
  }

  function SettledAll(e: Schema, vs: seq<Value>): (r: seq<Value>)
    requires AllTyped(e, vs)
    ensures |r| == |vs|
    decreases e, vs
  {
    if vs == [] then [] else [Settled(e, vs[0])] + SettledAll(e, vs[1..])
  }

  function SettledEntries(p: EntrySchema, es: seq<Entry>): (r: seq<Entry>)
    requires EntriesTyped(p, es)
    ensures |r| == |es|
    decreases p, es
  {
    if es == [] then []
    else [Entry(Settled(p.key, es[0].key), Settled(p.val, es[0].val))] + SettledEntries(p, es[1..])
  }

  function SettledFields(fs: seq<Field>, vs: seq<Value>): (r: seq<Value>)
    requires FieldsTyped(fs, vs)
    ensures |r| == |vs|
    decreases fs, vs
  {
    if fs == [] then []
    else
      assert fs[0].schema < fs[0];
      var v :=
        match fs[0].skip
        case Some(d) => d
        case None => Settled(fs[0].schema, vs[0]);
      [v] + SettledFields(fs[1..], vs[1..])
  }

  /** Every length in the value passes the preallocation check of the reader. Writers that check
      guarantee it; `str` and `[T]` writers do not check. */
  predicate Readable(c: Config, s: Schema, v: Value)
    requires WellTyped(s, v)
    decreases s, v
  {
    match s
    case StrS(len, check, _, _) => check ==> PreallocCheck(c, len, 1, |v.s|).Fits?
    case OptS(e, _) => v.SomeV? ==> Readable(c, e, v.v)
    case ArrS(_, e) => ReadableAll(c, e, v.vs)
    case SeqS(e, len, _, _) => PreallocCheck(c, len, LayoutOf(e).size, |v.vs|).Fits? && ReadableAll(c, e, v.vs)
    case MapS(p, len, size, _) => PreallocCheck(c, len, size, |v.entries|).Fits? && ReadableEntries(c, p, v.entries)
    case StructS(_, fs) => ReadableFields(c, fs, v.vs)
    case EnumS(_, vs, _) => ReadableFields(c, vs[v.variant].fields, v.vs)
    case BoxS(e) => Readable(c, e, v)
    case DefaultOnEmptyS(e, _) => Readable(c, e, v)
    case DiscardS(e, d) => WellTyped(e, d) ==> Readable(c, e, d)
    case _ => true
  }

  predicate ReadableAll(c: Config, e: Schema, vs: seq<Value>)
    requires AllTyped(e, vs)
    decreases e, vs
  {
    vs == [] || (Readable(c, e, vs[0]) && ReadableAll(c, e, vs[1..]))
  }

  predicate ReadableEntries(c: Config, p: EntrySchema, es: seq<Entry>)
    requires EntriesTyped(p, es)
    decreases p, es
  {
    es == [] || (Readable(c, p.key, es[0].key) && Readable(c, p.val, es[0].val) && ReadableEntries(c, p, es[1..]))
  }

  predicate ReadableFields(c: Config, fs: seq<Field>, vs: seq<Value>)
    requires FieldsTyped(fs, vs)
    decreases fs, vs
  {
    fs == [] ||
    (assert fs[0].schema < fs[0];
     (fs[0].skip.None? ==> Readable(c, fs[0].schema, vs[0])) && ReadableFields(c, fs[1..], vs[1..]))
  }

  /** The value came back and only `rest` is left; or, if it holds a length over the limit, the
      reader refused that length. */
  ghost predicate ReadsBack<T>(d: Parsed<T>, readable: bool, v: T, rest: bytes) {
    if readable then d == Ok(v, rest) else d.Fail? && d.error.PreallocationSizeLimit?
  }

  /** No input is longer than the address space; the code relies on it for its windows only. */
  predicate Addressable(w: Mode, b: bytes) { w.Windowed? ==> |b| < USIZE }

  /** The code's windows hold what is read inside them. */
  predicate Trusted(c: Config, w: Mode, s: Schema) { w.Windowed? ==> Roomy(c, s) }

  // A schema that is static holds no lengths and no defaults

  lemma {:induction false} StaticNoDefault(c: Config, s: Schema)
    requires Meta(c, Reading, s).Static?
    ensures NoDefault(s)
    decreases s
  {
    match s
    case ArrS(_, e) => StaticNoDefault(c, e);
    case StructS(_, fs) => StaticNoDefaultFields(c, fs);
    case EnumS(_, vs, _) => StaticNoDefaultVariants(c, s, 0);
    case BoxS(e) => StaticNoDefault(c, e);
    case DiscardS(e, _) => StaticNoDefault(c, e);
    case _ =>
  }

  lemma {:induction false} StaticNoDefaultFields(c: Config, fs: seq<Field>)
    requires Join(FieldMetas(c, Reading, fs)).Static?
    ensures NoDefaultFields(fs)
    decreases fs
  {
    if fs != [] {
      if fs[0].skip.None? {
        assert fs[0].schema < fs[0];
        assert FieldMetas(c, Reading, fs)[1..] == FieldMetas(c, Reading, fs[1..]);
        StaticNoDefault(c, fs[0].schema);
      }
      StaticNoDefaultFields(c, fs[1..]);
    }
  }

  lemma {:induction false} StaticNoDefaultVariants(c: Config, s: Schema, from: nat)
    requires s.EnumS? && Meta(c, Reading, s).Static? && from <= |s.variants|
    ensures NoDefaultVariants(s.variants[from..])
    decreases s.variants, |s.variants| - from
  {
    if from < |s.variants| {
      StaticEnum(c, Reading, s, from);
      StaticNoDefaultFields(c, s.variants[from].fields);
      StaticNoDefaultVariants(c, s, from + 1);
      assert s.variants[from..][1..] == s.variants[from + 1..];
    } else {
      assert s.variants[from..] == [];
    }
  }

  lemma {:induction false} StaticReadable(c: Config, s: Schema, v: Value)
    requires Wf(c, s) && WellTyped(s, v) && Meta(c, Reading, s).Static?
    ensures Readable(c, s, v)
    decreases s, v
  {
    match s
    case ArrS(_, e) => StaticReadableAll(c, e, v.vs);
    case StructS(_, fs) => StaticReadableFields(c, fs, v.vs);
    case EnumS(tag, vs, _) =>
      StaticEnum(c, Reading, s, v.variant);
      WfVariant(c, tag, vs, 0, v.variant);
      StaticReadableFields(c, vs[v.variant].fields, v.vs);
    case BoxS(e) => StaticReadable(c, e, v);
    case DiscardS(e, d) => StaticReadable(c, e, d);
    case _ =>
  }

  lemma {:induction false} StaticReadableAll(c: Config, e: Schema, vs: seq<Value>)
    requires Wf(c, e) && AllTyped(e, vs) && Meta(c, Reading, e).Static?
    ensures ReadableAll(c, e, vs)
    decreases e, vs
  {
    if vs != [] {
      StaticReadable(c, e, vs[0]);
      StaticReadableAll(c, e, vs[1..]);
    }
  }

  lemma {:induction false} StaticReadableEntries(c: Config, p: EntrySchema, es: seq<Entry>)
    requires Wf(c, p.key) && Wf(c, p.val) && EntriesTyped(p, es)
    requires Meta(c, Reading, p.key).Static? && Meta(c, Reading, p.val).Static?
    ensures ReadableEntries(c, p, es)
    decreases es
  {
    if es != [] {
      StaticReadable(c, p.key, es[0].key);
      StaticReadable(c, p.val, es[0].val);
      StaticReadableEntries(c, p, es[1..]);
    }
  }

  lemma {:induction false} StaticReadableFields(c: Config, fs: seq<Field>, vs: seq<Value>)
    requires WfFields(c, fs) && FieldsTyped(fs, vs) && Join(FieldMetas(c, Reading, fs)).Static?
    ensures ReadableFields(c, fs, vs)
    decreases fs, vs
  {
    if fs != [] {
      assert fs[0].schema < fs[0];
      if fs[0].skip.None? {
        assert FieldMetas(c, Reading, fs)[1..] == FieldMetas(c, Reading, fs[1..]);
        StaticReadable(c, fs[0].schema, vs[0]);
      }
      StaticReadableFields(c, fs[1..], vs[1..]);
    }
  }

  /** Whatever a checked write emits is read back, by the plain read and by the code alike, as
      the settled value with exactly the rest left over; a preallocation error is possible only
      for a length its writer did not check. */
  lemma {:induction false} ReadBack(c: Config, w: Mode, s: Schema, v: Value, rest: bytes)
    requires Wf(c, s) && WellTyped(s, v) && Encode(c, s, v).Wrote?
    requires Trusted(c, w, s) && Addressable(w, Encode(c, s, v).value + rest)
    ensures ReadsBack(Decode(c, w, s, Encode(c, s, v).value + rest), Readable(c, s, v), Settled(s, v), rest)
    decreases s, v, 0
  {
    hide DecodeInt, EncodeInt, DecodeChar, DecodeStr, DecodeSlice, DecodeMap, DecodeFields, EncodeAll, EncodeFields, EncodeEntries, LayoutOf, Meta, DecodeTag, EncodeTag, EncodeLen, Collect;
    match s
    case IntS(_) => ScalarBack(c, w, s, v, rest);
    case BoolS => ScalarBack(c, w, s, v, rest);
    case CharS => ScalarBack(c, w, s, v, rest);
    case StrS(_, _, _, _) => StrBack(c, s, v, rest);
    case OptS(_, _) => OptBack(c, w, s, v, rest);
    case ArrS(_, e) => SliceBack(c, w, e, v.vs, rest);
    case SeqS(_, _, _, _) => SeqBack(c, w, s, v, rest);
    case MapS(_, _, _, _) => MapBack(c, w, s, v, rest);
    case StructS(_, fs) => StructBack(c, w, s, v, rest);
    case EnumS(_, _, _) => EnumBack(c, w, s, v, rest);
    case BoxS(e) => ReadBack(c, w, e, v, rest);
    case DefaultOnEmptyS(e, _) => ReadBack(c, w, e, v, rest);
    case DiscardS(e, d) => ReadBack(c, w, e, d, rest);
    case DiscardSeqS(_, _) => DiscardSeqBack(c, w, s, v, rest);
  }

  lemma ScalarBack(c: Config, w: Mode, s: Schema, v: Value, rest: bytes)
    requires (s.IntS? || s.BoolS? || s.CharS?) && Wf(c, s) && WellTyped(s, v) && Encode(c, s, v).Wrote?
    ensures Decode(c, w, s, Encode(c, s, v).value + rest) == Ok(v, rest)
  {
    match s
    case IntS(k) => IntRoundTrip(c.ints, k, v.i, rest);
    case BoolS => assert ([if v.b then 1 else 0] + rest)[1..] == rest;
    case CharS => CharRoundTrip(v.c, rest);
  }

  lemma {:induction false} OptBack(c: Config, w: Mode, s: Schema, v: Value, rest: bytes)
    requires s.OptS? && Wf(c, s) && WellTyped(s, v) && Encode(c, s, v).Wrote?
    requires Trusted(c, w, s) && Addressable(w, Encode(c, s, v).value + rest)
    ensures ReadsBack(Decode(c, w, s, Encode(c, s, v).value + rest), Readable(c, s, v), Settled(s, v), rest)
    decreases s.inner, v, 5
  {
    var b := Encode(c, s, v).value + rest;
    if v.SomeV? {
      var body := Encode(c, s.inner, v.v).value;
      assert TakeByte(b) == Ok(1, body + rest) by {
        assert b == [1] + (body + rest);
      }
      ReadBack(c, w, s.inner, v.v, rest);
    } else {
      assert TakeByte(b) == Ok(0, rest) by {
        assert b == [0] + rest;
      }
    }
  }

  lemma DiscardSeqBack(c: Config, w: Mode, s: Schema, v: Value, rest: bytes)
    requires s.DiscardSeqS? && Wf(c, s) && WellTyped(s, v) && Encode(c, s, v).Wrote?
    ensures Decode(c, w, s, Encode(c, s, v).value + rest) == Ok(ListV([]), rest)
  {
    LenRoundTrip(c, s.len, 0, rest);
    assert Times(0, Max(LayoutOf(s.elem).size, 1)) == 0;
    if Meta(c, Reading, s.elem).Static? {
      NothingIn(c, s.elem, rest);
    }
  }

  lemma NothingIn(c: Config, e: Schema, b: bytes)
    requires Wf(c, e) && Meta(c, Reading, e).Static?
    ensures DecodeManyIn(c, e, 0, Meta(c, Reading, e).size, b) == Ok([], b)
  {
    assert Times(0, Meta(c, Reading, e).size) == 0;
    assert Take(b, 0) == Ok([], b);
  }

  lemma StrBack(c: Config, s: Schema, v: Value, rest: bytes)
    requires s.StrS? && Wf(c, s) && WellTyped(s, v) && Encode(c, s, v).Wrote?
    ensures ReadsBack(DecodeStr(c, s.len, s.readCheck, Encode(c, s, v).value + rest), Readable(c, s, v), v, rest)
  {
    var n := EncodeLen(c, s.len, |v.s|).value;
    assert n + v.s + rest == n + (v.s + rest);
    LenRoundTrip(c, s.len, |v.s|, v.s + rest);
    assert (v.s + rest)[..|v.s|] == v.s && (v.s + rest)[|v.s|..] == rest;
  }

  lemma {:induction false} SeqBack(c: Config, w: Mode, s: Schema, v: Value, rest: bytes)
    requires s.SeqS? && Wf(c, s) && WellTyped(s, v) && Encode(c, s, v).Wrote?
    requires Trusted(c, w, s) && Addressable(w, Encode(c, s, v).value + rest)
    ensures ReadsBack(Decode(c, w, s, Encode(c, s, v).value + rest), Readable(c, s, v), Settled(s, v), rest)
    decreases s.elem, v.vs, 5
  {
    var n := EncodeLen(c, s.len, |v.vs|).value;
    var body := EncodeAll(c, s.elem, v.vs).value;
    assert n + body + rest == n + (body + rest);
    LenRoundTrip(c, s.len, |v.vs|, body + rest);
    SliceBack(c, w, s.elem, v.vs, rest);
  }

  lemma {:induction false} MapBack(c: Config, w: Mode, s: Schema, v: Value, rest: bytes)
    requires s.MapS? && Wf(c, s) && WellTyped(s, v) && Encode(c, s, v).Wrote?
    requires Trusted(c, w, s) && Addressable(w, Encode(c, s, v).value + rest)
    ensures ReadsBack(Decode(c, w, s, Encode(c, s, v).value + rest), Readable(c, s, v), Settled(s, v), rest)
    decreases s.entry, v.entries, 5
  {
    var n := EncodeLen(c, s.len, |v.entries|).value;
    var body := EncodeEntries(c, s.entry, v.entries).value;
    assert n + body + rest == n + (body + rest);
    LenRoundTrip(c, s.len, |v.entries|, body + rest);
    EntriesInBack(c, w, s.entry, v.entries, rest);
  }

  lemma {:induction false} StructBack(c: Config, w: Mode, s: Schema, v: Value, rest: bytes)
    requires s.StructS? && Wf(c, s) && WellTyped(s, v) && Encode(c, s, v).Wrote?
    requires Trusted(c, w, s) && Addressable(w, Encode(c, s, v).value + rest)
    ensures ReadsBack(Decode(c, w, s, Encode(c, s, v).value + rest), Readable(c, s, v), Settled(s, v), rest)
    decreases s.fields, v.vs, 5
  {
    if w.Windowed? && Meta(c, Reading, s).Static? {
      FieldsInBack(c, s.fields, v.vs, rest);
    } else {
      FieldsBack(c, w, s.fields, v.vs, rest);
    }
  }

  lemma {:induction false} EnumBack(c: Config, w: Mode, s: Schema, v: Value, rest: bytes)
    requires s.EnumS? && Wf(c, s) && WellTyped(s, v) && Encode(c, s, v).Wrote?
    requires Trusted(c, w, s) && Addressable(w, Encode(c, s, v).value + rest)
    ensures ReadsBack(Decode(c, w, s, Encode(c, s, v).value + rest), Readable(c, s, v), Settled(s, v), rest)
    decreases s.variants, v, 5
  {
    var k := v.variant;
    var fs := s.variants[k].fields;
    WfVariant(c, s.tag, s.variants, 0, k);
    var t := EncodeTag(c, s.tag, Discriminant(s.variants[k], k)).value;
    var body := EncodeFields(c, fs, v.vs).value;
    assert t + body + rest == t + (body + rest);
    TagRoundTrip(c, s.tag, s.variants, k, body + rest);
    if w.Windowed? {
      RoomyChoice(c, s, k);
    }
    if w.Windowed? && Join(FieldMetas(c, Reading, fs)).Static? {
      FieldsInBack(c, fs, v.vs, rest);
    } else {
      FieldsBack(c, w, fs, v.vs, rest);
    }
  }

  lemma {:induction false} SliceBack(c: Config, w: Mode, e: Schema, vs: seq<Value>, rest: bytes)
    requires Wf(c, e) && AllTyped(e, vs) && EncodeAll(c, e, vs).Wrote?
    requires Trusted(c, w, e) && Addressable(w, EncodeAll(c, e, vs).value + rest)
    ensures ReadsBack(DecodeSlice(c, w, e, |vs|, EncodeAll(c, e, vs).value + rest), ReadableAll(c, e, vs), SettledAll(e, vs), rest)
    decreases e, vs, 3
  {
    if w.Plain? || Meta(c, Reading, e).Dynamic? {
      ManyBack(c, w, e, vs, rest);
    } else {
      ManyBack(c, Plain, e, vs, rest);
      StaticReadableAll(c, e, vs);
      StaticNoDefault(c, e);
      SliceAgrees(c, e, |vs|, EncodeAll(c, e, vs).value + rest);
    }
  }

  lemma {:induction false} ManyBack(c: Config, w: Mode, e: Schema, vs: seq<Value>, rest: bytes)
    requires Wf(c, e) && AllTyped(e, vs) && EncodeAll(c, e, vs).Wrote?
    requires Trusted(c, w, e) && Addressable(w, EncodeAll(c, e, vs).value + rest)
    ensures ReadsBack(DecodeMany(c, w, e, |vs|, EncodeAll(c, e, vs).value + rest), ReadableAll(c, e, vs), SettledAll(e, vs), rest)
    decreases e, vs, 2
  {
    hide Decode, Encode, Wf, WellTyped;
    if vs == [] {
      assert [] + rest == rest;
    } else {
      var first := Encode(c, e, vs[0]).value;
      var more := EncodeAll(c, e, vs[1..]).value;
      assert first + more + rest == first + (more + rest);
      ReadBack(c, w, e, vs[0], more + rest);
      ManyBack(c, w, e, vs[1..], rest);
    }
  }

  lemma {:induction false} EntriesInBack(c: Config, w: Mode, p: EntrySchema, es: seq<Entry>, rest: bytes)
    requires Wf(c, p.key) && Wf(c, p.val) && (w.Windowed? ==> ModerateEntry(c, p)) && EntriesTyped(p, es) && EncodeEntries(c, p, es).Wrote?
    requires Trusted(c, w, p.key) && Trusted(c, w, p.val) && Addressable(w, EncodeEntries(c, p, es).value + rest)
    ensures ReadsBack(DecodeMap(c, w, p, |es|, EncodeEntries(c, p, es).value + rest), ReadableEntries(c, p, es), SettledEntries(p, es), rest)
    decreases p, es, 3
  {
    if w.Windowed? && Meta(c, Reading, p.key).Static? && Meta(c, Reading, p.val).Static? {
      EntriesBack(c, Plain, p, es, rest);
      StaticReadableEntries(c, p, es);
      StaticNoDefault(c, p.key);
      StaticNoDefault(c, p.val);
      MapAgrees(c, p, |es|, EncodeEntries(c, p, es).value + rest);
    } else {
      EntriesBack(c, w, p, es, rest);
    }
  }

  lemma {:induction false} EntriesBack(c: Config, w: Mode, p: EntrySchema, es: seq<Entry>, rest: bytes)
    requires Wf(c, p.key) && Wf(c, p.val) && EntriesTyped(p, es) && EncodeEntries(c, p, es).Wrote?
    requires Trusted(c, w, p.key) && Trusted(c, w, p.val) && Addressable(w, EncodeEntries(c, p, es).value + rest)
    ensures ReadsBack(DecodeEntries(c, w, p, |es|, EncodeEntries(c, p, es).value + rest), ReadableEntries(c, p, es), SettledEntries(p, es), rest)
    decreases p, es, 2
  {
    if es == [] {
      assert [] + rest == rest;
    } else {
      var key := Encode(c, p.key, es[0].key).value;
      var val := Encode(c, p.val, es[0].val).value;
      var more := EncodeEntries(c, p, es[1..]).value;
      assert key + val + more + rest == key + (val + (more + rest));
      ReadBack(c, w, p.key, es[0].key, val + (more + rest));
      ReadBack(c, w, p.val, es[0].val, more + rest);
      EntriesBack(c, w, p, es[1..], rest);
    }
  }

  lemma {:induction false} FieldsBack(c: Config, w: Mode, fs: seq<Field>, vs: seq<Value>, rest: bytes)
    requires WfFields(c, fs) && FieldsTyped(fs, vs) && EncodeFields(c, fs, vs).Wrote?
    requires (w.Windowed? ==> RoomyFields(c, fs)) && Addressable(w, EncodeFields(c, fs, vs).value + rest)
    ensures ReadsBack(DecodeFields(c, w, fs, EncodeFields(c, fs, vs).value + rest), ReadableFields(c, fs, vs), SettledFields(fs, vs), rest)
    decreases fs, vs, 1
  {
    if fs == [] {
      assert [] + rest == rest;
    } else if fs[0].skip.Some? {
      FieldsBack(c, w, fs[1..], vs[1..], rest);
    } else {
      assert fs[0].schema < fs[0];
      var first := Encode(c, fs[0].schema, vs[0]).value;
      var more := EncodeFields(c, fs[1..], vs[1..]).value;
      assert first + more + rest == first + (more + rest);
      ReadBack(c, w, fs[0].schema, vs[0], more + rest);
      FieldsBack(c, w, fs[1..], vs[1..], rest);
    }
  }

  lemma {:induction false} FieldsInBack(c: Config, fs: seq<Field>, vs: seq<Value>, rest: bytes)
    requires WfFields(c, fs) && FieldsTyped(fs, vs) && EncodeFields(c, fs, vs).Wrote?
    requires RoomyFields(c, fs) && Holds(FieldMetas(c, Reading, fs))
    requires Join(FieldMetas(c, Reading, fs)).Static? && |EncodeFields(c, fs, vs).value + rest| < USIZE
    ensures ReadsBack(DecodeFieldsIn(c, Join(FieldMetas(c, Reading, fs)).size, fs, EncodeFields(c, fs, vs).value + rest),
                      ReadableFields(c, fs, vs), SettledFields(fs, vs), rest)
    decreases fs, vs, 2
  {
    FieldsBack(c, Plain, fs, vs, rest);
    StaticReadableFields(c, fs, vs);
    StaticNoDefaultFields(c, fs);
    FieldsInAgrees(c, Join(FieldMetas(c, Reading, fs)).size, fs, EncodeFields(c, fs, vs).value + rest);
  }
}
