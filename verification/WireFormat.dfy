/** The wire format in plain terms: lengths, strings, tags, and the order of the parts. */
module WireFormat {
  import opened Prim
  import opened IntEncoding
  import opened Utf8
  import opened Schemas
  import opened Lens
  import opened Codec
  import opened Writers

  // Lengths

  /** A length is an integer of its type; a fixed one ignores the configured integer encoding, but
      not the byte order. It is refused exactly when the type does not hold it. */
  lemma LenOnTheWire(c: Config, len: SeqLen, n: nat)
    requires len.kind.Valid()
    ensures EncodeLen(c, len, n) == if len.kind.InRange(n) then Wrote(EncodeInt(IntConfig(!len.fixed && c.ints.varint, c.ints.order), len.kind, n))
                                    else Refused(WriteLengthOverflow)
  {}

  /** The bytes announced for a length: a fixed width whatever the length, else those of its encoding. */
  lemma LenSizeRule(c: Config, len: SeqLen, n: nat)
    requires len.kind.Valid()
    ensures LenBytesNeeded(c, len, n) == if len.kind.width == 1 || len.fixed || !c.ints.varint then Wrote(len.kind.width)
                                         else match EncodeLen(c, len, n)
                                              case Wrote(b) => Wrote(|b|)
                                              case Refused(e) => Refused(e)
  {
    hide EncodeInt, SizeInt, DecodeInt;
    if len.kind.InRange(n) {
      IntRoundTrip(LenInts(c, len), len.kind, n, []);
    }
  }

  /** A length is read as such an integer, and refused exactly when it is no `usize`. */
  lemma LenOffTheWire(c: Config, len: SeqLen, b: bytes)
    requires len.kind.Valid()
    ensures match DecodeInt(IntConfig(!len.fixed && c.ints.varint, c.ints.order), len.kind, b)
            case Ok(i, r) => DecodeLen(c, len, b) == if 0 <= i < 0x1_0000_0000_0000_0000 then Ok(i, r) else Fail(PointerSizedReadError, r)
            case Fail(e, at) => DecodeLen(c, len, b) == Fail(e, at)
  {}

  // Strings

  /** Behind a length that passes its check, exactly the encodings of scalar values are a string, and
      every other sequence of bytes is reported as invalid; both are consumed. */
  lemma StringOffTheWire(c: Config, w: Mode, s: Schema, x: bytes, rest: bytes)
    requires s.StrS? && Wf(c, s) && |x| < USIZE && EncodeLen(c, s.len, |x|).Wrote?
    requires s.readCheck ==> PreallocCheck(c, s.len, 1, |x|).Fits?
    ensures Decode(c, w, s, EncodeLen(c, s.len, |x|).value + x + rest)
            == if exists cs: seq<int> | Scalars(cs) :: EncodeText(cs) == x then Ok(StrV(x), rest) else Fail(InvalidUtf8Encoding, rest)
  {
    hide EncodeLen, DecodeInt, PreallocCheck, ValidUtf8, EncodeText;
    var n := EncodeLen(c, s.len, |x|).value;
    LenRoundTrip(c, s.len, |x|, x + rest);
    assert n + (x + rest) == n + x + rest;
    assert (x + rest)[..|x|] == x && (x + rest)[|x|..] == rest;
    ValidIsEncodedText(x);
  }

  /** A string is written as its length and its bytes. */
  lemma StringOnTheWire(c: Config, s: Schema, cs: seq<int>)
    requires s.StrS? && Wf(c, s) && Scalars(cs) && |EncodeText(cs)| < USIZE
    ensures var x := EncodeText(cs);
            && WellTyped(s, StrV(x))
            && (!(s.writeCheck && PreallocCheck(c, s.len, 1, |x|).Exceeds?) && EncodeLen(c, s.len, |x|).Wrote? ==>
                  Encode(c, s, StrV(x)) == Wrote(EncodeLen(c, s.len, |x|).value + x))
  {
    hide EncodeLen, PreallocCheck, ValidUtf8, EncodeText;
    ValidIsEncodedText(EncodeText(cs));
  }

  // Enums

  /** Variant `k` of an enum is written behind its explicit tag, or else behind its position, in the
      tag encoding of the enum, or else in the configured one. */
  lemma TagOnTheWire(c: Config, s: Schema, v: Value)
    requires s.EnumS? && Wf(c, s) && WellTyped(s, v) && Encode(c, s, v).Wrote?
    ensures var kind := if s.tag.Some? then s.tag.value else c.tag;
            var variant := s.variants[v.variant];
            var t := if variant.tag.Some? then variant.tag.value else v.variant;
            && kind.Valid() && kind.InRange(t)
            && WfFields(c, variant.fields)
            && EncodeFields(c, variant.fields, v.vs).Wrote?
            && Encode(c, s, v).value == EncodeInt(c.ints, kind, t) + EncodeFields(c, variant.fields, v.vs).value
  {
    hide EncodeInt, EncodeFields;
    WfVariant(c, s.tag, s.variants, 0, v.variant);
  }

  /** A tag its encoding cannot hold is refused, and nothing but such a tag is refused as one. */
  lemma TagRefused(c: Config, s: Schema, v: Value)
    requires s.EnumS? && Wf(c, s) && WellTyped(s, v)
    ensures var kind := if s.tag.Some? then s.tag.value else c.tag;
            var variant := s.variants[v.variant];
            var t := if variant.tag.Some? then variant.tag.value else v.variant;
            && kind.Valid()
            && (!kind.InRange(t) ==> s.tag.None? && Encode(c, s, v) == Refused(WriteTagOverflow))
            && TagSize(c, s.tag, t) == if kind.InRange(t) then Wrote(|EncodeInt(c.ints, kind, t)|) else Refused(WriteTagOverflow)
  {
    hide EncodeInt, SizeInt, EncodeFields;
    WfVariant(c, s.tag, s.variants, 0, v.variant);
    var kind := TagKind(c, s.tag);
    var t := Discriminant(s.variants[v.variant], v.variant);
    if kind.InRange(t) {
      IntRoundTrip(c.ints, kind, t, []);
    }
  }

  /** Whatever bytes are read as the tag of variant `k` select it, and its fields are read from what
      follows. */
  lemma TagSelects(c: Config, w: Mode, s: Schema, k: nat, b: bytes)
    requires s.EnumS? && Wf(c, s) && k < |s.variants|
    requires var kind := if s.tag.Some? then s.tag.value else c.tag;
             var d := DecodeInt(c.ints, kind, b);
             d.Ok? && d.value == if s.variants[k].tag.Some? then s.variants[k].tag.value else k
    ensures var kind := if s.tag.Some? then s.tag.value else c.tag;
            && WfFields(c, s.variants[k].fields)
            && Decode(c, w, s, b) == match DecodeVariant(c, w, s.variants[k].fields, DecodeInt(c.ints, kind, b).rest)
                                     case Ok(vs, r) => Ok(EnumV(k, vs), r)
                                     case Fail(e, at) => Fail(e, at)
  {
    hide DecodeInt, DecodeVariant;
    WfVariant(c, s.tag, s.variants, 0, k);
    FindsOwnVariant(s.variants, k, 0);
  }

  /** So do the bytes written for it. */
  lemma TagOffTheWire(c: Config, w: Mode, s: Schema, k: nat, rest: bytes)
    requires s.EnumS? && Wf(c, s) && k < |s.variants|
    requires var kind := if s.tag.Some? then s.tag.value else c.tag;
             kind.InRange(if s.variants[k].tag.Some? then s.variants[k].tag.value else k)
    ensures var kind := if s.tag.Some? then s.tag.value else c.tag;
            var t := if s.variants[k].tag.Some? then s.variants[k].tag.value else k;
            && WfFields(c, s.variants[k].fields)
            && Decode(c, w, s, EncodeInt(c.ints, kind, t) + rest) == match DecodeVariant(c, w, s.variants[k].fields, rest)
                                                                    case Ok(vs, r) => Ok(EnumV(k, vs), r)
                                                                    case Fail(e, at) => Fail(e, at)
  {
    hide EncodeInt, DecodeInt, DecodeVariant, Decode;
    var kind, t := TagKind(c, s.tag), Discriminant(s.variants[k], k);
    IntRoundTrip(c.ints, kind, t, rest);
    TagSelects(c, w, s, k, EncodeInt(c.ints, kind, t) + rest);
  }

  lemma {:induction false} FindsNothing(vs: seq<Variant>, t: int, from: nat)
    requires from <= |vs|
    requires forall k | from <= k < |vs| :: t != if vs[k].tag.Some? then vs[k].tag.value else k
    ensures FindVariant(vs, t, from) == None
    decreases |vs| - from
  {
    if from < |vs| {
      FindsNothing(vs, t, from + 1);
    }
  }

  /** Any other tag is refused: as an overflow if no override is given and a `u32` does not hold it,
      and otherwise as invalid. What is no tag at all is refused as the integer is. */
  lemma UnknownTag(c: Config, w: Mode, s: Schema, b: bytes)
    requires s.EnumS? && s.variants != [] && Wf(c, s)
    ensures match DecodeInt(c.ints, if s.tag.Some? then s.tag.value else c.tag, b)
            case Ok(t, rest) =>
              (forall k | 0 <= k < |s.variants| :: t != if s.variants[k].tag.Some? then s.variants[k].tag.value else k) ==>
                Decode(c, w, s, b) == if s.tag.None? && !(0 <= t < 0x1_0000_0000) then Fail(TagEncodingOverflow, rest)
                                      else Fail(InvalidTagEncoding(t % 0x1_0000_0000_0000_0000), rest)
            case Fail(e, at) => Decode(c, w, s, b) == Fail(e, at)
  {
    hide DecodeInt;
    var d := DecodeInt(c.ints, TagKind(c, s.tag), b);
    if d.Ok? && forall k | 0 <= k < |s.variants| :: d.value != if s.variants[k].tag.Some? then s.variants[k].tag.value else k {
      FindsNothing(s.variants, d.value, 0);
    }
  }

  // The order of the parts

  lemma BoolOnTheWire(c: Config, v: Value)
    ensures WellTyped(BoolS, v) ==> Encode(c, BoolS, v) == Wrote([if v.b then 1 else 0])
  {}

  /** An option is a zero, or a one and its value. */
  lemma OptionOnTheWire(c: Config, e: Schema, lay: Layout, v: Value)
    requires Wf(c, OptS(e, lay)) && WellTyped(e, v)
    ensures Encode(c, OptS(e, lay), NoneV) == Wrote([0])
    ensures match Encode(c, e, v)
            case Wrote(b) => Encode(c, OptS(e, lay), SomeV(v)) == Wrote([1] + b)
            case Refused(x) => Encode(c, OptS(e, lay), SomeV(v)) == Refused(x)
  {}

  /** Elements are written in order: the encoding of a run of elements is that of its first part and
      then that of the rest. */
  lemma {:induction false} ElemsInOrder(c: Config, e: Schema, us: seq<Value>, vs: seq<Value>)
    requires Wf(c, e) && AllTyped(e, us) && AllTyped(e, vs)
    ensures AllTyped(e, us + vs)
    ensures EncodeAll(c, e, us + vs) == Both(EncodeAll(c, e, us), EncodeAll(c, e, vs))
    ensures |us| == 1 ==> EncodeAll(c, e, us) == Encode(c, e, us[0])
    ensures us == [] ==> EncodeAll(c, e, us) == Wrote([])
    decreases us
  {
    hide Encode, Wf, WellTyped;
    if us == [] {
      assert us + vs == vs;
      BothNothing(EncodeAll(c, e, vs));
    } else {
      BothNothing(Encode(c, e, us[0]));
      ElemsInOrder(c, e, us[1..], vs);
      assert (us + vs)[1..] == us[1..] + vs;
      BothAssociates(Encode(c, e, us[0]), EncodeAll(c, e, us[1..]), EncodeAll(c, e, vs));
    }
  }

  /** Entries are written in order, each key before its value. */
  lemma {:induction false} EntriesInOrder(c: Config, p: EntrySchema, us: seq<Entry>, vs: seq<Entry>)
    requires Wf(c, p.key) && Wf(c, p.val) && EntriesTyped(p, us) && EntriesTyped(p, vs)
    ensures EntriesTyped(p, us + vs)
    ensures EncodeEntries(c, p, us + vs) == Both(EncodeEntries(c, p, us), EncodeEntries(c, p, vs))
    ensures |us| == 1 ==> EncodeEntries(c, p, us) == Both(Encode(c, p.key, us[0].key), Encode(c, p.val, us[0].val))
    decreases us
  {
    hide Encode, Wf, WellTyped;
    if us == [] {
      assert us + vs == vs;
      BothNothing(EncodeEntries(c, p, vs));
    } else {
      BothNothing(Both(Encode(c, p.key, us[0].key), Encode(c, p.val, us[0].val)));
      EntriesInOrder(c, p, us[1..], vs);
      assert (us + vs)[1..] == us[1..] + vs;
      BothAssociates(Both(Encode(c, p.key, us[0].key), Encode(c, p.val, us[0].val)), EncodeEntries(c, p, us[1..]), EncodeEntries(c, p, vs));
    }
  }

  /** Fields are written in declaration order, the skipped ones not at all. */
  lemma {:induction false} FieldsInOrder(c: Config, fs: seq<Field>, us: seq<Value>, gs: seq<Field>, vs: seq<Value>)
    requires WfFields(c, fs) && WfFields(c, gs) && FieldsTyped(fs, us) && FieldsTyped(gs, vs)
    ensures WfFields(c, fs + gs) && FieldsTyped(fs + gs, us + vs)
    ensures EncodeFields(c, fs + gs, us + vs) == Both(EncodeFields(c, fs, us), EncodeFields(c, gs, vs))
    ensures |fs| == 1 && fs[0].skip.None? ==> Wf(c, fs[0].schema) && EncodeFields(c, fs, us) == Encode(c, fs[0].schema, us[0])
    ensures |fs| == 1 && fs[0].skip.Some? ==> EncodeFields(c, fs, us) == Wrote([])
    decreases fs
  {
    hide Encode, Wf, WellTyped;
    if fs == [] {
      assert us == [] && fs + gs == gs && us + vs == vs;
      BothNothing(EncodeFields(c, gs, vs));
    } else {
      assert fs[0].schema < fs[0];
      FieldsInOrder(c, fs[1..], us[1..], gs, vs);
      assert (fs + gs)[1..] == fs[1..] + gs && (us + vs)[1..] == us[1..] + vs;
      assert (fs + gs)[0] == fs[0] && (us + vs)[0] == us[0];
      if fs[0].skip.None? {
        BothNothing(Encode(c, fs[0].schema, us[0]));
        BothAssociates(Encode(c, fs[0].schema, us[0]), EncodeFields(c, fs[1..], us[1..]), EncodeFields(c, gs, vs));
      }
    }
  }
}
