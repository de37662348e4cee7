/** Reading looks only at the bytes it consumes. */
module Extension {
  import opened Prim
  import opened IntEncoding
  import opened Utf8
  import opened TypeMetas
  import opened Schemas
  import opened Lens
  import opened Codec

  /** No part of the schema turns a size-limit error into success. */
  predicate NoDefault(s: Schema)
    decreases s
  {
    match s
    case OptS(e, _) => NoDefault(e)
    case ArrS(_, e) => NoDefault(e)
    case SeqS(e, _, _, _) => NoDefault(e)
    case MapS(p, _, _, _) => NoDefault(p.key) && NoDefault(p.val)
    case StructS(_, fs) => NoDefaultFields(fs)
    case EnumS(_, vs, _) => NoDefaultVariants(vs)
    case BoxS(e) => NoDefault(e)
    case DefaultOnEmptyS(_, _) => false
    case DiscardS(e, _) => NoDefault(e)
    case DiscardSeqS(e, _) => NoDefault(e)
    case _ => true
  }

  predicate NoDefaultFields(fs: seq<Field>)
    decreases fs
  {
    fs == [] || (assert fs[0].schema < fs[0]; (fs[0].skip.None? ==> NoDefault(fs[0].schema)) && NoDefaultFields(fs[1..]))
  }

  predicate NoDefaultVariants(vs: seq<Variant>)
    decreases vs
  {
    vs == [] || (NoDefaultFields(vs[0].fields) && NoDefaultVariants(vs[1..]))
  }

  lemma NoDefaultVariant(vs: seq<Variant>, k: nat)
    requires NoDefaultVariants(vs) && k < |vs|
    ensures NoDefaultFields(vs[k].fields)
    decreases k
  {
    if k > 0 {
      NoDefaultVariant(vs[1..], k - 1);
    }
  }

  lemma ExtendScalar(c: Config, w: Mode, s: Schema, b: bytes, x: bytes)
    requires Wf(c, s) && (s.IntS? || s.BoolS? || s.CharS?)
    ensures Stable(Decode(c, w, s, b), Decode(c, w, s, b + x), b, x)
  {
    hide DecodeInt, DecodeChar;
    match s
    case IntS(k) => IntExtend(c.ints, k, b, x);
    case BoolS => TakeByteExtend(b, x);
    case CharS => CharExtend(b, x);
  }

  /** Reading depends only on the bytes it consumes, with and without trusted windows. */
  lemma {:induction false} Extend(c: Config, w: Mode, s: Schema, b: bytes, x: bytes)
    requires Wf(c, s) && NoDefault(s)
    ensures Stable(Decode(c, w, s, b), Decode(c, w, s, b + x), b, x)
    decreases s, 0, 0
  {
    hide DecodeInt, DecodeChar, DecodeStr, DecodeMany, DecodeEntries, DecodeFields, Stable;
    match s
    case IntS(_) => ExtendScalar(c, w, s, b, x);
    case BoolS => ExtendScalar(c, w, s, b, x);
    case CharS => ExtendScalar(c, w, s, b, x);
    case StrS(len, check, _, _) => ExtendStr(c, len, check, b, x);
    case OptS(_, _) => ExtendOption(c, w, s, b, x);
    case ArrS(_, _) => ExtendArray(c, w, s, b, x);
    case SeqS(_, _, _, _) => ExtendSeq(c, w, s, b, x);
    case MapS(_, _, _, _) => ExtendMapS(c, w, s, b, x);
    case StructS(_, _) => ExtendStruct(c, w, s, b, x);
    case EnumS(_, _, _) => ExtendEnum(c, w, s, b, x);
    case BoxS(e) => Extend(c, w, e, b, x);
    case DiscardS(_, _) => ExtendUnused(c, w, s, b, x);
    case DiscardSeqS(_, _) => ExtendDiscard(c, w, s, b, x);
  }

  lemma {:induction false} ExtendArray(c: Config, w: Mode, s: Schema, b: bytes, x: bytes)
    requires s.ArrS? && Wf(c, s) && NoDefault(s)
    ensures Stable(Decode(c, w, s, b), Decode(c, w, s, b + x), b, x)
    decreases s.elem, 4, 0
  {
    hide DecodeSlice;
    ExtendSlice(c, w, s.elem, s.count, b, x);
  }

  lemma {:induction false} ExtendUnused(c: Config, w: Mode, s: Schema, b: bytes, x: bytes)
    requires s.DiscardS? && Wf(c, s) && NoDefault(s)
    ensures Stable(Decode(c, w, s, b), Decode(c, w, s, b + x), b, x)
    decreases s.inner, 4, 0
  {
    Extend(c, w, s.inner, b, x);
  }

  lemma {:induction false} ExtendStruct(c: Config, w: Mode, s: Schema, b: bytes, x: bytes)
    requires s.StructS? && Wf(c, s) && NoDefault(s)
    ensures Stable(Decode(c, w, s, b), Decode(c, w, s, b + x), b, x)
    decreases s.fields, 4, 0
  {
    if w.Windowed? && Meta(c, Reading, s).Static? {
      ExtendFieldsIn(c, Meta(c, Reading, s).size, s.fields, b, x);
    } else {
      ExtendFields(c, w, s.fields, b, x);
    }
  }

  lemma {:induction false} ExtendOption(c: Config, w: Mode, s: Schema, b: bytes, x: bytes)
    requires s.OptS? && Wf(c, s) && NoDefault(s)
    ensures Stable(Decode(c, w, s, b), Decode(c, w, s, b + x), b, x)
    decreases s.inner, 4, 0
  {
    TakeByteExtend(b, x);
    if b != [] {
      Extend(c, w, s.inner, b[1..], x);
    } else if x != [] {
      assert b + x == x && x[1..] + [] == x[1..];
      Extend(c, w, s.inner, x[1..], []);
    }
  }

  lemma {:induction false} ExtendSeq(c: Config, w: Mode, s: Schema, b: bytes, x: bytes)
    requires s.SeqS? && Wf(c, s) && NoDefault(s)
    ensures Stable(Decode(c, w, s, b), Decode(c, w, s, b + x), b, x)
    decreases s.elem, 4, 0
  {
    var size := LayoutOf(s.elem).size;
    LenExtend(c, s.len, size, b, x);
    var d := DecodeLenChecked(c, s.len, size, b);
    var d' := DecodeLenChecked(c, s.len, size, b + x);
    if d.Ok? {
      ExtendSlice(c, w, s.elem, d.value, d.rest, x);
    } else if d'.Ok? {
      ExtendSlice(c, w, s.elem, d'.value, d'.rest, []);
    }
  }

  lemma {:induction false} ExtendMapS(c: Config, w: Mode, s: Schema, b: bytes, x: bytes)
    requires s.MapS? && Wf(c, s) && NoDefault(s)
    ensures Stable(Decode(c, w, s, b), Decode(c, w, s, b + x), b, x)
    decreases s.entry, 4, 0
  {
    LenExtend(c, s.len, s.entrySize, b, x);
    var d := DecodeLenChecked(c, s.len, s.entrySize, b);
    var d' := DecodeLenChecked(c, s.len, s.entrySize, b + x);
    if d.Ok? {
      ExtendMap(c, w, s.entry, d.value, d.rest, x);
    } else if d'.Ok? {
      ExtendMap(c, w, s.entry, d'.value, d'.rest, []);
    }
  }

  lemma {:induction false} ExtendDiscard(c: Config, w: Mode, s: Schema, b: bytes, x: bytes)
    requires s.DiscardSeqS? && Wf(c, s) && NoDefault(s)
    ensures Stable(Decode(c, w, s, b), Decode(c, w, s, b + x), b, x)
    decreases s.elem, 5, 0
  {
    var size := LayoutOf(s.elem).size;
    LenExtend(c, s.len, size, b, x);
    var d := DecodeLenChecked(c, s.len, size, b);
    var d' := DecodeLenChecked(c, s.len, size, b + x);
    if d.Ok? {
      ExtendSkipped(c, w, s.elem, d.value, d.rest, x);
    } else if d'.Ok? {
      ExtendSkipped(c, w, s.elem, d'.value, d'.rest, []);
    }
  }

  lemma {:induction false} ExtendSkipped(c: Config, w: Mode, e: Schema, n: nat, b: bytes, x: bytes)
    requires Wf(c, e) && NoDefault(e)
    ensures w.Windowed? && Meta(c, Reading, e).Static? ==>
              Stable(DecodeManyIn(c, e, n, Meta(c, Reading, e).size, b), DecodeManyIn(c, e, n, Meta(c, Reading, e).size, b + x), b, x)
    ensures !(w.Windowed? && Meta(c, Reading, e).Static?) ==>
              Stable(DecodeMany(c, w, e, n, b), DecodeMany(c, w, e, n, b + x), b, x)
    decreases e, 4, 0
  {
    if w.Windowed? && Meta(c, Reading, e).Static? {
      ExtendManyIn(c, e, n, Meta(c, Reading, e).size, b, x);
    } else {
      ExtendMany(c, w, e, n, b, x);
    }
  }

  lemma ExtendStr(c: Config, len: SeqLen, check: bool, b: bytes, x: bytes)
    requires len.kind.Valid()
    ensures Stable(DecodeStr(c, len, check, b), DecodeStr(c, len, check, b + x), b, x)
  {
    hide DecodeLen, DecodeInt;
    LenExtend(c, len, 1, b, x);
    var d := if check then DecodeLenChecked(c, len, 1, b) else DecodeLen(c, len, b);
    if d.Ok? {
      TakeExtend(d.rest, d.value, x);
    }
  }

  lemma {:induction false} ExtendEnum(c: Config, w: Mode, s: Schema, b: bytes, x: bytes)
    requires s.EnumS? && Wf(c, s) && NoDefault(s)
    ensures Stable(Decode(c, w, s, b), Decode(c, w, s, b + x), b, x)
    decreases s.variants, 5, 0
  {
    var vs := s.variants;
    if vs != [] {
      TagExtend(c, s.tag, b, x);
      var d, d' := DecodeTag(c, s.tag, b), DecodeTag(c, s.tag, b + x);
      if d.Ok? {
        ExtendChosen(c, w, s, FindVariant(vs, d.value, 0), d.rest, x);
      } else if d'.Ok? {
        ExtendChosen(c, w, s, FindVariant(vs, d'.value, 0), d'.rest, []);
      }
    }
  }

  lemma {:induction false} ExtendChosen(c: Config, w: Mode, s: Schema, k: Option<nat>, b: bytes, x: bytes)
    requires s.EnumS? && Wf(c, s) && NoDefault(s) && (k.Some? ==> k.value < |s.variants|)
    ensures k.Some? ==>
              && WfFields(c, s.variants[k.value].fields)
              && Stable(DecodeVariant(c, w, s.variants[k.value].fields, b), DecodeVariant(c, w, s.variants[k.value].fields, b + x), b, x)
    decreases s.variants, 4, 0
  {
    if k.Some? {
      WfVariant(c, s.tag, s.variants, 0, k.value);
      NoDefaultVariant(s.variants, k.value);
      ExtendVariant(c, w, s.variants[k.value].fields, b, x);
    }
  }

  lemma {:induction false} ExtendMany(c: Config, w: Mode, e: Schema, n: nat, b: bytes, x: bytes)
    requires Wf(c, e) && NoDefault(e)
    ensures Stable(DecodeMany(c, w, e, n, b), DecodeMany(c, w, e, n, b + x), b, x)
    decreases e, 1, n
  {
    hide Decode, Wf, NoDefault, Meta;
    if n > 0 {
      Extend(c, w, e, b, x);
      var d, d' := Decode(c, w, e, b), Decode(c, w, e, b + x);
      if d.Ok? {
        ExtendMany(c, w, e, n - 1, d.rest, x);
      } else if d'.Ok? {
        ExtendMany(c, w, e, n - 1, d'.rest, []);
      }
    }
  }

  lemma ExtendManyIn(c: Config, e: Schema, n: nat, size: nat, b: bytes, x: bytes)
    requires Wf(c, e)
    ensures Stable(DecodeManyIn(c, e, n, size, b), DecodeManyIn(c, e, n, size, b + x), b, x)
  {
    TakeExtend(b, Times(n, size), x);
  }

  lemma {:induction false} ExtendSlice(c: Config, w: Mode, e: Schema, n: nat, b: bytes, x: bytes)
    requires Wf(c, e) && NoDefault(e)
    ensures Stable(DecodeSlice(c, w, e, n, b), DecodeSlice(c, w, e, n, b + x), b, x)
    decreases e, 3, n
  {
    var m := Meta(c, Reading, e);
    if w.Plain? || m.Dynamic? {
      ExtendMany(c, w, e, n, b, x);
    } else if m.zeroCopy {
      TakeExtend(b, Times(n, LayoutOf(e).size), x);
    } else {
      ExtendManyIn(c, e, n, m.size, b, x);
    }
  }

  lemma {:induction false} ExtendEntry(c: Config, w: Mode, p: EntrySchema, b: bytes, x: bytes)
    requires Wf(c, p.key) && Wf(c, p.val) && NoDefault(p.key) && NoDefault(p.val)
    ensures Stable(DecodeEntry(c, w, p, b), DecodeEntry(c, w, p, b + x), b, x)
    decreases p, 0, 0
  {
    hide Decode, Wf, NoDefault;
    Extend(c, w, p.key, b, x);
    var k, k' := Decode(c, w, p.key, b), Decode(c, w, p.key, b + x);
    if k.Ok? {
      Extend(c, w, p.val, k.rest, x);
    } else if k'.Ok? {
      Extend(c, w, p.val, k'.rest, []);
    }
  }

  lemma {:induction false} ExtendEntries(c: Config, w: Mode, p: EntrySchema, n: nat, b: bytes, x: bytes)
    requires Wf(c, p.key) && Wf(c, p.val) && NoDefault(p.key) && NoDefault(p.val)
    ensures Stable(DecodeEntries(c, w, p, n, b), DecodeEntries(c, w, p, n, b + x), b, x)
    decreases p, 1, n
  {
    hide DecodeEntry;
    if n > 0 {
      ExtendEntry(c, w, p, b, x);
      var d, d' := DecodeEntry(c, w, p, b), DecodeEntry(c, w, p, b + x);
      if d.Ok? {
        ExtendEntries(c, w, p, n - 1, d.rest, x);
      } else if d'.Ok? {
        ExtendEntries(c, w, p, n - 1, d'.rest, []);
      }
    }
  }

  lemma {:induction false} ExtendMap(c: Config, w: Mode, p: EntrySchema, n: nat, b: bytes, x: bytes)
    requires Wf(c, p.key) && Wf(c, p.val) && NoDefault(p.key) && NoDefault(p.val)
    ensures Stable(DecodeMap(c, w, p, n, b), DecodeMap(c, w, p, n, b + x), b, x)
    decreases p, 2, n
  {
    var mk, mv := Meta(c, Reading, p.key), Meta(c, Reading, p.val);
    if mk.Static? && mv.Static? && w.Windowed? {
      TakeExtend(b, Times(n, mk.size + mv.size), x);
    } else {
      ExtendEntries(c, w, p, n, b, x);
    }
  }

  lemma {:induction false} ExtendFields(c: Config, w: Mode, fs: seq<Field>, b: bytes, x: bytes)
    requires WfFields(c, fs) && NoDefaultFields(fs)
    ensures Stable(DecodeFields(c, w, fs, b), DecodeFields(c, w, fs, b + x), b, x)
    decreases fs, 0, 0
  {
    if fs != [] {
      if fs[0].skip.Some? {
        ExtendFields(c, w, fs[1..], b, x);
      } else {
        assert fs[0].schema < fs[0];
        Extend(c, w, fs[0].schema, b, x);
        var d, d' := Decode(c, w, fs[0].schema, b), Decode(c, w, fs[0].schema, b + x);
        if d.Ok? {
          ExtendFields(c, w, fs[1..], d.rest, x);
        } else if d'.Ok? {
          ExtendFields(c, w, fs[1..], d'.rest, []);
        }
      }
    }
  }

  lemma ExtendFieldsIn(c: Config, size: nat, fs: seq<Field>, b: bytes, x: bytes)
    requires WfFields(c, fs)
    ensures Stable(DecodeFieldsIn(c, size, fs, b), DecodeFieldsIn(c, size, fs, b + x), b, x)
  {
    TakeExtend(b, size, x);
  }

  lemma {:induction false} ExtendVariant(c: Config, w: Mode, fs: seq<Field>, b: bytes, x: bytes)
    requires WfFields(c, fs) && NoDefaultFields(fs)
    ensures Stable(DecodeVariant(c, w, fs, b), DecodeVariant(c, w, fs, b + x), b, x)
    decreases fs, 2, 0
  {
    var m := Join(FieldMetas(c, Reading, fs));
    if w.Windowed? && m.Static? {
      ExtendFieldsIn(c, m.size, fs, b, x);
    } else {
      ExtendFields(c, w, fs, b, x);
    }
  }
}
