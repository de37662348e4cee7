/** What the codec promises its users, for every schema, value and input. */
module Guarantees {
  import opened Prim
  import opened IntEncoding
  import opened Utf8
  import opened TypeMetas
  import opened Schemas
  import opened Lens
  import opened Codec
  import opened Extension
  import opened Windows
  import opened Maps
  import opened RoundTrip

  // Round trip

  /** Nothing is skipped or discarded. */
  predicate Lossless(s: Schema)
    decreases s
  {
    match s
    case OptS(e, _) => Lossless(e)
    case ArrS(_, e) => Lossless(e)
    case SeqS(e, _, _, _) => Lossless(e)
    case MapS(p, _, _, _) => Lossless(p.key) && Lossless(p.val)
    case StructS(_, fs) => LosslessFields(fs)
    case EnumS(_, vs, _) => LosslessVariants(vs)
    case BoxS(e) => Lossless(e)
    case DefaultOnEmptyS(e, _) => Lossless(e)
    case DiscardS(_, _) => false
    case DiscardSeqS(_, _) => false
    case _ => true
  }

  predicate LosslessFields(fs: seq<Field>)
    decreases fs
  {
    fs == [] || (assert fs[0].schema < fs[0]; fs[0].skip.None? && Lossless(fs[0].schema) && LosslessFields(fs[1..]))
  }

  predicate LosslessVariants(vs: seq<Variant>)
    decreases vs
  {
    vs == [] || (LosslessFields(vs[0].fields) && LosslessVariants(vs[1..]))
  }

  lemma {:induction false} LosslessVariant(vs: seq<Variant>, k: nat)
    requires LosslessVariants(vs) && k < |vs|
    ensures LosslessFields(vs[k].fields)
    decreases k
  {
    if k > 0 {
      LosslessVariant(vs[1..], k - 1);
    }
  }

  /** Where nothing is skipped or discarded, settling changes nothing. */
  lemma {:induction false} SettledIsSame(s: Schema, v: Value)
    requires WellTyped(s, v) && Lossless(s)
    ensures Settled(s, v) == v
    decreases s, v
  {
    match s
    case OptS(e, _) => if v.SomeV? { SettledIsSame(e, v.v); }
    case ArrS(_, e) => SettledAllIsSame(e, v.vs);
    case SeqS(e, _, _, _) => SettledAllIsSame(e, v.vs);
    case MapS(p, _, _, _) =>
      SettledEntriesIsSame(p, v.entries);
      CollectDistinct(v.entries);
    case StructS(_, fs) => SettledFieldsIsSame(fs, v.vs);
    case EnumS(_, vs, _) =>
      LosslessVariant(vs, v.variant);
      SettledFieldsIsSame(vs[v.variant].fields, v.vs);
    case BoxS(e) => SettledIsSame(e, v);
    case DefaultOnEmptyS(e, _) => SettledIsSame(e, v);
    case _ =>
  }

  lemma {:induction false} SettledAllIsSame(e: Schema, vs: seq<Value>)
    requires AllTyped(e, vs) && Lossless(e)
    ensures SettledAll(e, vs) == vs
    decreases e, vs
  {
    if vs != [] {
      SettledIsSame(e, vs[0]);
      SettledAllIsSame(e, vs[1..]);
    }
  }

  lemma {:induction false} SettledEntriesIsSame(p: EntrySchema, es: seq<Entry>)
    requires EntriesTyped(p, es) && Lossless(p.key) && Lossless(p.val)
    ensures SettledEntries(p, es) == es
    decreases p, es
  {
    if es != [] {
      SettledIsSame(p.key, es[0].key);
      SettledIsSame(p.val, es[0].val);
      SettledEntriesIsSame(p, es[1..]);
    }
  }

  lemma {:induction false} SettledFieldsIsSame(fs: seq<Field>, vs: seq<Value>)
    requires FieldsTyped(fs, vs) && LosslessFields(fs)
    ensures SettledFields(fs, vs) == vs
    decreases fs, vs
  {
    if fs != [] {
      assert fs[0].schema < fs[0];
      SettledIsSame(fs[0].schema, vs[0]);
      SettledFieldsIsSame(fs[1..], vs[1..]);
    }
  }

  /** Every writer of a length checks it against the preallocation limit, as all owned
      collections do. */
  predicate Checked(s: Schema)
    decreases s
  {
    match s
    case StrS(_, readCheck, writeCheck, _) => readCheck ==> writeCheck
    case OptS(e, _) => Checked(e)
    case ArrS(_, e) => Checked(e)
    case SeqS(e, _, writeCheck, _) => writeCheck && Checked(e)
    case MapS(p, _, _, _) => Checked(p.key) && Checked(p.val)
    case StructS(_, fs) => CheckedFields(fs)
    case EnumS(_, vs, _) => CheckedVariants(vs)
    case BoxS(e) => Checked(e)
    case DefaultOnEmptyS(e, _) => Checked(e)
    case DiscardS(e, _) => Checked(e)
    case _ => true
  }

  predicate CheckedFields(fs: seq<Field>)
    decreases fs
  {
    fs == [] || (assert fs[0].schema < fs[0]; (fs[0].skip.None? ==> Checked(fs[0].schema)) && CheckedFields(fs[1..]))
  }

  predicate CheckedVariants(vs: seq<Variant>)
    decreases vs
  {
    vs == [] || (CheckedFields(vs[0].fields) && CheckedVariants(vs[1..]))
  }

  lemma {:induction false} CheckedVariant(vs: seq<Variant>, k: nat)
    requires CheckedVariants(vs) && k < |vs|
    ensures CheckedFields(vs[k].fields)
    decreases k
  {
    if k > 0 {
      CheckedVariant(vs[1..], k - 1);
    }
  }

  /** What a checking writer let through never meets the reader's preallocation limit. */
  lemma {:induction false} CheckedIsReadable(c: Config, s: Schema, v: Value)
    requires Wf(c, s) && WellTyped(s, v) && Checked(s) && Encode(c, s, v).Wrote?
    ensures Readable(c, s, v)
    decreases s, v
  {
    match s
    case OptS(e, _) => if v.SomeV? { CheckedIsReadable(c, e, v.v); }
    case ArrS(_, e) => CheckedAllReadable(c, e, v.vs);
    case SeqS(e, _, _, _) => CheckedAllReadable(c, e, v.vs);
    case MapS(p, _, _, _) => CheckedEntriesReadable(c, p, v.entries);
    case StructS(_, fs) => CheckedFieldsReadable(c, fs, v.vs);
    case EnumS(tag, vs, _) =>
      WfVariant(c, tag, vs, 0, v.variant);
      CheckedVariant(vs, v.variant);
      CheckedFieldsReadable(c, vs[v.variant].fields, v.vs);
    case BoxS(e) => CheckedIsReadable(c, e, v);
    case DefaultOnEmptyS(e, _) => CheckedIsReadable(c, e, v);
    case DiscardS(e, d) => CheckedIsReadable(c, e, d);
    case _ =>
  }

  lemma {:induction false} CheckedAllReadable(c: Config, e: Schema, vs: seq<Value>)
    requires Wf(c, e) && AllTyped(e, vs) && Checked(e) && EncodeAll(c, e, vs).Wrote?
    ensures ReadableAll(c, e, vs)
    decreases e, vs
  {
    if vs != [] {
      CheckedIsReadable(c, e, vs[0]);
      CheckedAllReadable(c, e, vs[1..]);
    }
  }

  lemma {:induction false} CheckedEntriesReadable(c: Config, p: EntrySchema, es: seq<Entry>)
    requires Wf(c, p.key) && Wf(c, p.val) && EntriesTyped(p, es)
    requires Checked(p.key) && Checked(p.val) && EncodeEntries(c, p, es).Wrote?
    ensures ReadableEntries(c, p, es)
    decreases p, es
  {
    if es != [] {
      CheckedIsReadable(c, p.key, es[0].key);
      CheckedIsReadable(c, p.val, es[0].val);
      CheckedEntriesReadable(c, p, es[1..]);
    }
  }

  lemma {:induction false} CheckedFieldsReadable(c: Config, fs: seq<Field>, vs: seq<Value>)
    requires WfFields(c, fs) && FieldsTyped(fs, vs) && CheckedFields(fs) && EncodeFields(c, fs, vs).Wrote?
    ensures ReadableFields(c, fs, vs)
    decreases fs, vs
  {
    if fs != [] {
      assert fs[0].schema < fs[0];
      if fs[0].skip.None? {
        CheckedIsReadable(c, fs[0].schema, vs[0]);
      }
      CheckedFieldsReadable(c, fs[1..], vs[1..]);
    }
  }

  /** Under one configuration, whatever a checked write emits is read back, windowed or not, with
      exactly the bytes behind it left over: the same value if nothing is skipped or discarded,
      and never a preallocation error. */
  lemma CheckedRoundTrip(c: Config, w: Mode, s: Schema, v: Value, rest: bytes)
    requires Wf(c, s) && WellTyped(s, v) && Checked(s) && Encode(c, s, v).Wrote?
    requires Trusted(c, w, s) && Addressable(w, Encode(c, s, v).value + rest)
    ensures Decode(c, w, s, Encode(c, s, v).value + rest) == Ok(Settled(s, v), rest)
    ensures Lossless(s) ==> Settled(s, v) == v
  {
    hide Decode, Encode, Wf, WellTyped, Readable;
    CheckedIsReadable(c, s, v);
    ReadBack(c, w, s, v, rest);
    if Lossless(s) {
      SettledIsSame(s, v);
    }
  }

  /** An unchecked writer's output is read back exactly when each length in it passes the check
      the reader makes. */
  lemma UncheckedRoundTrip(c: Config, w: Mode, s: Schema, v: Value, rest: bytes)
    requires Wf(c, s) && WellTyped(s, v) && Encode(c, s, v).Wrote?
    requires Trusted(c, w, s) && Addressable(w, Encode(c, s, v).value + rest)
    ensures Decode(c, w, s, Encode(c, s, v).value + rest).Ok? <==> Readable(c, s, v)
    ensures !Readable(c, s, v) ==> Decode(c, w, s, Encode(c, s, v).value + rest).error.PreallocationSizeLimit?
  {
    hide Decode, Encode, Wf, WellTyped, Readable;
    ReadBack(c, w, s, v, rest);
  }

  /** A borrowed string is written without the check its reader makes: one character, under a limit
      of no bytes, is written and then rejected. */
  lemma UncheckedCanFail(platform: Endian)
    ensures var c := Config(IntConfig(false, Little), platform, IntKind(4, false), Some(0));
            var s := StrS(SeqLen(IntKind(1, false), false, UseConfig), true, false, Layout(16, 8));
            && Wf(c, s) && WellTyped(s, StrV([97])) && Encode(c, s, StrV([97])) == Wrote([1, 97])
            && Decode(c, Plain, s, [1, 97]) == Fail(PreallocationSizeLimit(1, 0), [97])
  {
    hide EncodeVar, DecodeVar, Zigzag, Unzigzag, BigBytes, DecodeInt, SizeInt;
    var c := Config(IntConfig(false, Little), platform, IntKind(4, false), Some(0));
    var k := IntKind(1, false);
    var len := SeqLen(k, false, UseConfig);
    PowValues();
    assert k.Cast(1) == 1 && LittleBytes(1, 1) == [1 % 256] + LittleBytes(1 / 256, 0) == [1];
    assert EncodeInt(LenInts(c, len), k, 1) == [1];
    assert [97][..1] == [97] && [97][1..] == [] && WellFormed([97][..1]) && ValidUtf8([97][1..]);
    LenRoundTrip(c, len, 1, [97]);
    assert [1] + [97] == [1, 97];
  }

  /** Two iteration orders of one map are written differently and read back as equal maps. */
  lemma MapOrderIrrelevant(c: Config, w: Mode, s: Schema, es: seq<Entry>, es': seq<Entry>, rest: bytes)
    requires s.MapS? && Wf(c, s) && Lossless(s) && Checked(s)
    requires WellTyped(s, MapV(es)) && WellTyped(s, MapV(es')) && MapOf(es) == MapOf(es')
    requires Encode(c, s, MapV(es)).Wrote? && Encode(c, s, MapV(es')).Wrote?
    requires Trusted(c, w, s)
    requires Addressable(w, Encode(c, s, MapV(es)).value + rest) && Addressable(w, Encode(c, s, MapV(es')).value + rest)
    ensures var d := Decode(c, w, s, Encode(c, s, MapV(es)).value + rest);
            var d' := Decode(c, w, s, Encode(c, s, MapV(es')).value + rest);
            d.Ok? && d'.Ok? && MeaningOf(d.value) == MeaningOf(d'.value) == MapM(MapOf(es)) && d.rest == d'.rest == rest
  {
    CheckedRoundTrip(c, w, s, MapV(es), rest);
    CheckedRoundTrip(c, w, s, MapV(es'), rest);
  }

  // Truncated input

  /** Every proper prefix of an encoding runs out of bytes: it never decodes to a value, and never
      fails for any other reason. */
  lemma PrefixRunsOut(c: Config, w: Mode, s: Schema, v: Value, p: bytes, q: bytes)
    requires Wf(c, s) && WellTyped(s, v) && NoDefault(s) && Readable(c, s, v)
    requires Encode(c, s, v) == Wrote(p + q) && q != [] && Trusted(c, w, s) && Addressable(w, p + q)
    ensures Decode(c, w, s, p).Fail? && Decode(c, w, s, p).error.ReadSizeLimit?
  {
    hide Decode, Encode, Wf, WellTyped, Readable;
    assert p + q + [] == p + q;
    ReadBack(c, w, s, v, []);
    Extend(c, w, s, p, q);
  }

  /** Encodings are prefix-free. */
  lemma PrefixFree(c: Config, s: Schema, v: Value, v': Value, q: bytes)
    requires Wf(c, s) && NoDefault(s) && WellTyped(s, v) && WellTyped(s, v')
    requires Readable(c, s, v) && Readable(c, s, v')
    requires Encode(c, s, v).Wrote? && Encode(c, s, v') == Wrote(Encode(c, s, v).value + q)
    ensures q == []
  {
    hide Decode, Encode, Wf, WellTyped, Readable;
    var p := Encode(c, s, v).value;
    if q != [] {
      PrefixRunsOut(c, Plain, s, v', p, q);
      assert p + [] == p;
      ReadBack(c, Plain, s, v, []);
    }
  }

  // Trailing fields with defaults

  predicate OptionalTail(fs: seq<Field>) {
    forall i | 0 <= i < |fs| ::
      fs[i].skip.None? && fs[i].schema.DefaultOnEmptyS? && NoDefault(fs[i].schema.inner)
  }

  /** Each field of a full record encodes to at least one byte. */
  predicate NonEmptyEncodings(c: Config, fs: seq<Field>, vs: seq<Value>)
    requires WfFields(c, fs) && FieldsTyped(fs, vs)
    decreases fs
  {
    fs == [] ||
    (&& Readable(c, fs[0].schema, vs[0])
     && Encode(c, fs[0].schema, vs[0]).Wrote?
     && 0 < |Encode(c, fs[0].schema, vs[0]).value| < USIZE
     && NonEmptyEncodings(c, fs[1..], vs[1..]))
  }

  function Defaults(fs: seq<Field>): seq<Value>
    requires OptionalTail(fs)
  {
    if fs == [] then [] else [fs[0].schema.dflt] + Defaults(fs[1..])
  }

  lemma DefaultAtEnd(c: Config, w: Mode, s: Schema, v: Value)
    requires s.DefaultOnEmptyS? && Wf(c, s) && Trusted(c, w, s) && NoDefault(s.inner) && WellTyped(s, v)
    requires Readable(c, s, v) && Encode(c, s, v).Wrote? && 0 < |Encode(c, s, v).value| < USIZE
    ensures Decode(c, w, s, []) == Ok(s.dflt, [])
  {
    var b := Encode(c, s.inner, v).value;
    assert [] + b == b;
    PrefixRunsOut(c, w, s.inner, v, [], b);
    Extend(c, w, s.inner, [], []);
  }

  lemma {:induction false} AllDefaults(c: Config, w: Mode, fs: seq<Field>, vs: seq<Value>)
    requires WfFields(c, fs) && FieldsTyped(fs, vs) && OptionalTail(fs) && NonEmptyEncodings(c, fs, vs)
    requires w.Windowed? ==> RoomyFields(c, fs)
    ensures DecodeFields(c, w, fs, []) == Ok(Defaults(fs), [])
    decreases fs
  {
    hide Decode, Encode, Readable, WellTyped, NoDefault;
    if fs != [] {
      DefaultAtEnd(c, w, fs[0].schema, vs[0]);
      AllDefaults(c, w, fs[1..], vs[1..]);
    }
  }

  lemma {:induction false} WfAppend(c: Config, hs: seq<Field>, ts: seq<Field>)
    requires WfFields(c, hs) && WfFields(c, ts)
    ensures WfFields(c, hs + ts)
  {
    if hs == [] {
      assert hs + ts == ts;
    } else {
      assert (hs + ts)[1..] == hs[1..] + ts;
      WfAppend(c, hs[1..], ts);
    }
  }

  /** The first field of a run, read or skipped. */
  function FirstField(c: Config, w: Mode, f: Field, b: bytes): Parsed<Value>
    requires WfFields(c, [f])
  {
    match f.skip
    case Some(d) => Ok(d, b)
    case None => Decode(c, w, f.schema, b)
  }

  lemma FieldsStep(c: Config, w: Mode, fs: seq<Field>, b: bytes)
    requires fs != [] && WfFields(c, fs)
    ensures WfFields(c, [fs[0]])
    ensures var d := FirstField(c, w, fs[0], b);
            DecodeFields(c, w, fs, b) == match d
                                         case Fail(e, at) => Fail(e, at)
                                         case Ok(v, r) =>
                                           match DecodeFields(c, w, fs[1..], r)
                                           case Fail(e, at) => Fail(e, at)
                                           case Ok(vs, r') => Ok([v] + vs, r')
  {
    assert [fs[0]][1..] == [];
  }

  /** Reading two runs of fields one after the other. */
  lemma {:induction false} DecodeAppend(c: Config, w: Mode, hs: seq<Field>, ts: seq<Field>, b: bytes)
    requires WfFields(c, hs) && WfFields(c, ts) && WfFields(c, hs + ts)
    requires DecodeFields(c, w, hs, b).Ok? && DecodeFields(c, w, ts, DecodeFields(c, w, hs, b).rest).Ok?
    ensures var d := DecodeFields(c, w, hs, b);
            var d' := DecodeFields(c, w, ts, d.rest);
            DecodeFields(c, w, hs + ts, b) == Ok(d.value + d'.value, d'.rest)
    decreases hs
  {
    if hs == [] {
      assert hs + ts == ts;
      var more := DecodeFields(c, w, ts, b).value;
      assert [] + more == more;
    } else {
      AppendStep(c, w, hs, ts, b);
    }
  }

  lemma {:induction false} AppendStep(c: Config, w: Mode, hs: seq<Field>, ts: seq<Field>, b: bytes)
    requires hs != [] && WfFields(c, hs) && WfFields(c, ts) && WfFields(c, hs + ts)
    requires DecodeFields(c, w, hs, b).Ok? && DecodeFields(c, w, ts, DecodeFields(c, w, hs, b).rest).Ok?
    ensures var d := DecodeFields(c, w, hs, b);
            var d' := DecodeFields(c, w, ts, d.rest);
            DecodeFields(c, w, hs + ts, b) == Ok(d.value + d'.value, d'.rest)
    decreases hs, 0
  {
    hide DecodeFields, FirstField;
    assert (hs + ts)[1..] == hs[1..] + ts && (hs + ts)[0] == hs[0];
    FieldsStep(c, w, hs, b);
    FieldsStep(c, w, hs + ts, b);
    var head := FirstField(c, w, hs[0], b);
    DecodeAppend(c, w, hs[1..], ts, head.rest);
    var more := DecodeFields(c, w, hs[1..], head.rest);
    var last := DecodeFields(c, w, ts, more.rest);
    assert [head.value] + (more.value + last.value) == [head.value] + more.value + last.value;
  }

  /** Fields `hs` before the cut are read as written, the optional fields `ts` behind it take
      their defaults. */
  lemma CutFields(c: Config, w: Mode, hs: seq<Field>, hv: seq<Value>, ts: seq<Field>, tv: seq<Value>)
    requires WfFields(c, hs) && FieldsTyped(hs, hv) && ReadableFields(c, hs, hv) && EncodeFields(c, hs, hv).Wrote?
    requires (w.Windowed? ==> RoomyFields(c, hs) && RoomyFields(c, ts)) && Addressable(w, EncodeFields(c, hs, hv).value)
    requires WfFields(c, ts) && FieldsTyped(ts, tv) && OptionalTail(ts) && NonEmptyEncodings(c, ts, tv)
    ensures WfFields(c, hs + ts)
    ensures DecodeFields(c, w, hs + ts, EncodeFields(c, hs, hv).value) == Ok(SettledFields(hs, hv) + Defaults(ts), [])
  {
    var b := EncodeFields(c, hs, hv).value;
    assert b + [] == b;
    FieldsBack(c, w, hs, hv, []);
    AllDefaults(c, w, ts, tv);
    WfAppend(c, hs, ts);
    DecodeAppend(c, w, hs, ts, b);
  }

  lemma {:induction false} TailIsDynamic(c: Config, hs: seq<Field>, ts: seq<Field>)
    requires OptionalTail(ts) && ts != []
    ensures Join(FieldMetas(c, Reading, hs + ts)).Dynamic?
    decreases hs
  {
    if hs == [] {
      assert hs + ts == ts;
    } else {
      assert (hs + ts)[1..] == hs[1..] + ts;
      TailIsDynamic(c, hs[1..], ts);
      if hs[0].skip.None? {
        assert FieldMetas(c, Reading, hs + ts)[1..] == FieldMetas(c, Reading, hs[1..] + ts);
      }
    }
  }

  /** An older, shorter record: a struct whose last fields fall back to defaults, cut right before
      any of them, decodes the fields before the cut as written and the others as defaults. */
  lemma OldRecord(c: Config, w: Mode, repr: Repr, hs: seq<Field>, hv: seq<Value>, ts: seq<Field>, tv: seq<Value>)
    requires WfFields(c, hs) && FieldsTyped(hs, hv) && ReadableFields(c, hs, hv) && EncodeFields(c, hs, hv).Wrote?
    requires (w.Windowed? ==> RoomyFields(c, hs) && RoomyFields(c, ts)) && Addressable(w, EncodeFields(c, hs, hv).value)
    requires WfFields(c, ts) && FieldsTyped(ts, tv) && OptionalTail(ts) && NonEmptyEncodings(c, ts, tv) && ts != []
    requires Wf(c, StructS(repr, hs + ts))
    ensures Decode(c, w, StructS(repr, hs + ts), EncodeFields(c, hs, hv).value)
            == Ok(ListV(SettledFields(hs, hv) + Defaults(ts)), [])
  {
    CutFields(c, w, hs, hv, ts, tv);
    TailIsDynamic(c, hs, ts);
  }

  // Discarding a sequence

  /** Same outcome up to the value. */
  ghost predicate SameConsumption<T, U>(d: Parsed<T>, d': Parsed<U>) {
    && (d.Ok? <==> d'.Ok?)
    && (d.Ok? ==> d.rest == d'.rest)
  }

  /** The elements of a discarded sequence. */
  function Skipped(c: Config, w: Mode, e: Schema, n: nat, b: bytes): Parsed<seq<Value>>
    requires Wf(c, e)
  {
    if w.Windowed? && Meta(c, Reading, e).Static? then DecodeManyIn(c, e, n, Meta(c, Reading, e).size, b)
    else DecodeMany(c, w, e, n, b)
  }

  lemma SkippedMatchSlice(c: Config, w: Mode, e: Schema, n: nat, b: bytes)
    requires Wf(c, e) && Trusted(c, w, e) && |b| < USIZE
    ensures SameConsumption(Skipped(c, w, e, n, b), DecodeSlice(c, w, e, n, b))
  {
    hide DecodeMany, DecodeManyIn, Meta, Wf, Roomy, NoDefault;
    if w.Windowed? && Meta(c, Reading, e).Static? {
      StaticNoDefault(c, e);
      ManyInAgrees(c, e, n, b);
      SliceAgrees(c, e, n, b);
    }
  }

  lemma DiscardDecoded(c: Config, w: Mode, e: Schema, len: SeqLen, b: bytes)
    requires Wf(c, e) && len.kind.Valid()
    ensures Wf(c, DiscardSeqS(e, len))
    ensures var d := DecodeLenChecked(c, len, LayoutOf(e).size, b);
            Decode(c, w, DiscardSeqS(e, len), b)
            == if d.Fail? then Fail(d.error, d.at)
               else
                 var m := Skipped(c, w, e, d.value, d.rest);
                 if m.Fail? then Fail(m.error, m.at) else Ok(ListV([]), m.rest)
  {
    hide DecodeLenChecked, DecodeMany, DecodeManyIn;
  }

  lemma VecDecoded(c: Config, w: Mode, s: Schema, b: bytes)
    requires s.SeqS? && Wf(c, s)
    ensures var d := DecodeLenChecked(c, s.len, LayoutOf(s.elem).size, b);
            Decode(c, w, s, b)
            == if d.Fail? then Fail(d.error, d.at)
               else
                 var m := DecodeSlice(c, w, s.elem, d.value, d.rest);
                 if m.Fail? then Fail(m.error, m.at) else Ok(ListV(m.value), m.rest)
  {
    hide DecodeLenChecked, DecodeSlice;
  }

  /** Stepping over a sequence accepts and consumes exactly what reading it into a `Vec` does. */
  lemma DiscardSeqMatchesVec(c: Config, w: Mode, e: Schema, len: SeqLen, check: bool, lay: Layout, b: bytes)
    requires Wf(c, SeqS(e, len, check, lay)) && Trusted(c, w, e) && |b| < USIZE
    ensures Wf(c, DiscardSeqS(e, len))
    ensures SameConsumption(Decode(c, w, DiscardSeqS(e, len), b), Decode(c, w, SeqS(e, len, check, lay), b))
  {
    hide Decode, DecodeLenChecked, Skipped, DecodeSlice, LayoutOf, Roomy;
    DiscardDecoded(c, w, e, len, b);
    VecDecoded(c, w, SeqS(e, len, check, lay), b);
    LenExtend(c, len, LayoutOf(e).size, b, []);
    var d := DecodeLenChecked(c, len, LayoutOf(e).size, b);
    if d.Ok? {
      SkippedMatchSlice(c, w, e, d.value, d.rest);
    }
  }

  /** The schema that discards a sequence, and the sequences it is made of. */
  function DiscardOf(s: Schema): Schema {
    match s
    case SeqS(e, len, _, _) => DiscardSeqS(DiscardOf(e), len)
    case _ => s
  }

  /** Sequences inside the sequence are vectors, of three words. */
  predicate OfVectors(s: Schema)
    requires s.SeqS?
  {
    s.elem.SeqS? ==> s.elem.lay.size == 24 && OfVectors(s.elem)
  }

  /** Discarding works at any depth of nesting: it accepts and consumes exactly what reading the
      vectors does. */
  lemma {:induction false} NestedDiscardMatches(c: Config, w: Mode, s: Schema, b: bytes)
    requires s.SeqS? && OfVectors(s) && Wf(c, s) && Trusted(c, w, s) && NoDefault(s) && |b| < USIZE
    ensures Wf(c, DiscardOf(s))
    ensures DiscardOf(s) == DiscardSeqS(DiscardOf(s.elem), s.len) && (!s.elem.SeqS? ==> DiscardOf(s.elem) == s.elem)
    ensures SameConsumption(Decode(c, w, DiscardOf(s), b), Decode(c, w, s, b))
    decreases s, 0
  {
    var e, e' := s.elem, DiscardOf(s.elem);
    if e.SeqS? {
      NestedDiscardMatches(c, w, e, b);
      var d := DecodeLenChecked(c, s.len, 24, b);
      LenExtend(c, s.len, 24, b, []);
      if d.Ok? {
        NestedManyMatch(c, w, e, d.value, d.rest);
      }
    } else {
      DiscardSeqMatchesVec(c, w, e, s.len, s.writeCheck, s.lay, b);
    }
  }

  lemma {:induction false} NestedManyMatch(c: Config, w: Mode, e: Schema, n: nat, b: bytes)
    requires e.SeqS? && OfVectors(e) && Wf(c, e) && Trusted(c, w, e) && NoDefault(e) && |b| < USIZE && Wf(c, DiscardOf(e))
    ensures SameConsumption(DecodeMany(c, w, DiscardOf(e), n, b), DecodeMany(c, w, e, n, b))
    decreases e, 1, n
  {
    if n > 0 {
      NestedDiscardMatches(c, w, e, b);
      Extend(c, w, e, b, []);
      var d := Decode(c, w, e, b);
      if d.Ok? {
        NestedManyMatch(c, w, e, n - 1, d.rest);
      }
    }
  }

  const U8 := IntKind(1, false)

  lemma {:induction false} SkipBytes(c: Config, n: nat, b: bytes)
    ensures var d := DecodeMany(c, Plain, IntS(U8), n, b);
            if n <= |b| then d.Ok? && d.rest == b[n..] else d.Fail?
  {
    if n > 0 && b != [] {
      SkipBytes(c, n - 1, b[1..]);
      assert n <= |b| ==> b[1..][n - 1..] == b[n..];
    }
  }

  /** A string discarded as bytes: the same lengths are accepted and the same bytes consumed, but
      the bytes need not be UTF-8. */
  lemma DiscardSeqMatchesString(c: Config, len: SeqLen, writeCheck: bool, lay: Layout, b: bytes)
    requires len.kind.Valid() && |b| < USIZE
    ensures var s, t := StrS(len, true, writeCheck, lay), DiscardSeqS(IntS(U8), len);
            && Wf(c, s) && Wf(c, t)
            && var d, d' := Decode(c, Windowed, s, b), Decode(c, Windowed, t, b);
            && (d'.Ok? <==> d.Ok? || d.error.InvalidUtf8Encoding?)
            && (d.Ok? ==> d'.rest == d.rest)
  {
    hide DecodeLenChecked, DecodeMany;
    var d := DecodeLenChecked(c, len, 1, b);
    LenExtend(c, len, 1, b, []);
    LenNotUtf8(c, len, b);
    if d.Ok? {
      SkipBytes(c, d.value, d.rest);
      ManyInAgrees(c, IntS(U8), d.value, d.rest);
    }
  }

  lemma LenNotUtf8(c: Config, len: SeqLen, b: bytes)
    requires len.kind.Valid()
    ensures var d := DecodeLenChecked(c, len, 1, b);
            d.Fail? ==> !d.error.InvalidUtf8Encoding?
  {}

  /** The two-field tuple in which the entries of a map are discarded. */
  function PairOf(p: EntrySchema, lay: Layout): Schema {
    StructS(RustRepr(lay), [Field(p.key, None), Field(p.val, None)])
  }

  lemma PairMetas(c: Config, p: EntrySchema)
    ensures FieldMetas(c, Reading, [Field(p.key, None), Field(p.val, None)]) == [Meta(c, Reading, p.key), Meta(c, Reading, p.val)]
  {
    var fs := [Field(p.key, None), Field(p.val, None)];
    assert fs[1..] == [Field(p.val, None)] && fs[1..][1..] == [];
    assert FieldMetas(c, Reading, fs[1..]) == [Meta(c, Reading, p.val)] + FieldMetas(c, Reading, []);
  }

  /** The tuple is static exactly when key and value are, with the sum of their sizes. */
  lemma PairMeta(c: Config, p: EntrySchema, lay: Layout)
    ensures var m := Meta(c, Reading, PairOf(p, lay));
            var k, v := Meta(c, Reading, p.key), Meta(c, Reading, p.val);
            && (m.Static? <==> k.Static? && v.Static?)
            && (m.Static? && Holds([k, v]) ==> m.size == k.size + v.size)
  {
    PairMetas(c, p);
    var k, v := Meta(c, Reading, p.key), Meta(c, Reading, p.val);
    assert [k, v] == [k] + [v] && [v] == [v] + [];
    JoinCons(k, [v]);
    JoinCons(v, []);
    if k.Static? && v.Static? {
      JoinCovers([k, v]);
    }
  }

  lemma PairIsRoomy(c: Config, p: EntrySchema, lay: Layout)
    requires Roomy(c, p.key) && Roomy(c, p.val) && ModerateEntry(c, p)
    ensures Roomy(c, PairOf(p, lay)) && Holds([Meta(c, Reading, p.key), Meta(c, Reading, p.val)])
  {
    PairMetas(c, p);
    var k, v := Meta(c, Reading, p.key), Meta(c, Reading, p.val);
    var fs := [Field(p.key, None), Field(p.val, None)];
    assert fs[1..] == [Field(p.val, None)] && fs[1..][1..] == [];
    assert RoomyFields(c, fs[1..]);
    assert [k, v] == [k] + [v] && [v] == [v] + [];
    JoinCons(k, [v]);
    JoinCons(v, []);
  }

  lemma PairMatchesEntry(c: Config, w: Mode, p: EntrySchema, lay: Layout, b: bytes)
    requires Wf(c, p.key) && Wf(c, p.val) && Wf(c, PairOf(p, lay))
    requires w.Plain? || Meta(c, Reading, PairOf(p, lay)).Dynamic?
    ensures SameConsumption(Decode(c, w, PairOf(p, lay), b), DecodeEntry(c, w, p, b))
  {
    var fs := [Field(p.key, None), Field(p.val, None)];
    assert fs[1..] == [Field(p.val, None)];
    assert WfFields(c, fs) && WfFields(c, fs[1..]);
    var d := Decode(c, w, p.key, b);
    if d.Ok? {
      OneField(c, w, p.val, d.rest);
    }
    assert SameConsumption(DecodeFields(c, w, fs, b), DecodeEntry(c, w, p, b));
  }

  lemma OneField(c: Config, w: Mode, s: Schema, b: bytes)
    requires Wf(c, s)
    ensures WfFields(c, [Field(s, None)])
    ensures SameConsumption(DecodeFields(c, w, [Field(s, None)], b), Decode(c, w, s, b))
  {
    assert [Field(s, None)][1..] == [];
  }

  lemma {:induction false} PairsMatchEntries(c: Config, w: Mode, p: EntrySchema, lay: Layout, n: nat, b: bytes)
    requires Wf(c, p.key) && Wf(c, p.val) && Wf(c, PairOf(p, lay))
    requires w.Plain? || Meta(c, Reading, PairOf(p, lay)).Dynamic?
    ensures SameConsumption(DecodeMany(c, w, PairOf(p, lay), n, b), DecodeEntries(c, w, p, n, b))
    decreases n
  {
    if n > 0 {
      PairMatchesEntry(c, w, p, lay, b);
      var d := DecodeEntry(c, w, p, b);
      if d.Ok? {
        PairsMatchEntries(c, w, p, lay, n - 1, d.rest);
      }
    }
  }

  lemma PairsMatchMap(c: Config, w: Mode, p: EntrySchema, lay: Layout, n: nat, b: bytes)
    requires Wf(c, p.key) && Wf(c, p.val) && Wf(c, PairOf(p, lay)) && |b| < USIZE
    requires w.Windowed? ==> Roomy(c, p.key) && Roomy(c, p.val) && ModerateEntry(c, p)
    ensures var e := PairOf(p, lay);
            SameConsumption(Skipped(c, w, e, n, b), DecodeMap(c, w, p, n, b))
  {
    hide DecodeMany, DecodeManyIn, DecodeEntries, Meta, Wf, Roomy, NoDefault;
    PairMeta(c, p, lay);
    if w.Windowed? && Meta(c, Reading, PairOf(p, lay)).Static? {
      PairIsRoomy(c, p, lay);
      PairsMatchEntries(c, Plain, p, lay, n, b);
      StaticNoDefault(c, p.key);
      StaticNoDefault(c, p.val);
      StaticNoDefault(c, PairOf(p, lay));
      ManyInAgrees(c, PairOf(p, lay), n, b);
      MapAgrees(c, p, n, b);
      PlainMap(c, p, n, b);
    } else {
      PairsMatchEntries(c, w, p, lay, n, b);
    }
  }

  lemma PlainMap(c: Config, p: EntrySchema, n: nat, b: bytes)
    requires Wf(c, p.key) && Wf(c, p.val)
    ensures DecodeMap(c, Plain, p, n, b) == DecodeEntries(c, Plain, p, n, b)
  {}

  /** Stepping over the entries of a map as pairs accepts and consumes exactly what reading the
      map does. */
  lemma DiscardSeqMatchesMap(c: Config, w: Mode, p: EntrySchema, len: SeqLen, pair: Layout, lay: Layout, b: bytes)
    requires Wf(c, MapS(p, len, pair.size, lay)) && Wf(c, DiscardSeqS(PairOf(p, pair), len)) && |b| < USIZE
    requires Trusted(c, w, MapS(p, len, pair.size, lay))
    ensures SameConsumption(Decode(c, w, DiscardSeqS(PairOf(p, pair), len), b), Decode(c, w, MapS(p, len, pair.size, lay), b))
  {
    hide DecodeLenChecked, DecodeMany, DecodeManyIn, DecodeMap, Meta;
    var d := DecodeLenChecked(c, len, pair.size, b);
    LenExtend(c, len, pair.size, b, []);
    if d.Ok? {
      PairsMatchMap(c, w, p, pair, d.value, d.rest);
    }
  }
}
