/** What a successful read says about its input: the value is well typed, writing it again is never
    longer, and with fixed-width integers it is the same bytes. */
module Canonical {
  import opened Prim
  import opened IntEncoding
  import opened Utf8
  import opened Schemas
  import opened Lens
  import opened Codec
  import opened Extension
  import opened Windows
  import opened Maps
  import opened RoundTrip
  import opened Guarantees

  // Every value read is well typed

  lemma {:induction false} ReadIsTyped(c: Config, s: Schema, b: bytes)
    requires Wf(c, s) && Decode(c, Plain, s, b).Ok?
    ensures WellTyped(s, Decode(c, Plain, s, b).value)
    decreases s, 0, 0
  {
    hide DecodeInt, DecodeChar, DecodeMany, DecodeEntries, DecodeFields, EntriesTyped, FieldsTyped, LayoutOf, Meta, Collect, DecodeTag;
    match s
    case IntS(k) => IntReencode(c.ints, k, b);
    case BoolS =>
    case CharS => AcceptedIsWellFormed(b);
    case StrS(_, _, _, _) =>
    case OptS(e, _) =>
      if b[0] == 1 {
        ReadIsTyped(c, e, b[1..]);
      }
    case ArrS(n, e) => ManyIsTyped(c, e, n, b);
    case SeqS(e, len, _, _) =>
      var d := DecodeLenChecked(c, len, LayoutOf(e).size, b);
      ManyIsTyped(c, e, d.value, d.rest);
    case MapS(p, len, size, _) =>
      var d := DecodeLenChecked(c, len, size, b);
      EntriesAreTyped(c, p, d.value, d.rest);
      CollectTyped(p, DecodeEntries(c, Plain, p, d.value, d.rest).value);
      CollectDenotes(DecodeEntries(c, Plain, p, d.value, d.rest).value);
    case StructS(_, fs) => FieldsAreTyped(c, fs, b);
    case EnumS(tag, vs, _) =>
      var d := DecodeTag(c, tag, b);
      var k := FindVariant(vs, d.value, 0).value;
      WfVariant(c, tag, vs, 0, k);
      FieldsAreTyped(c, vs[k].fields, d.rest);
    case BoxS(e) => ReadIsTyped(c, e, b);
    case DefaultOnEmptyS(e, _) =>
      if Decode(c, Plain, e, b).Ok? {
        ReadIsTyped(c, e, b);
      }
    case DiscardS(_, _) =>
    case DiscardSeqS(_, _) =>
  }

  lemma {:induction false} ManyIsTyped(c: Config, e: Schema, n: nat, b: bytes)
    requires Wf(c, e) && DecodeMany(c, Plain, e, n, b).Ok?
    ensures AllTyped(e, DecodeMany(c, Plain, e, n, b).value) && |DecodeMany(c, Plain, e, n, b).value| == n
    decreases e, 1, n
  {
    if n > 0 {
      ReadIsTyped(c, e, b);
      ManyIsTyped(c, e, n - 1, Decode(c, Plain, e, b).rest);
    }
  }

  lemma {:induction false} EntriesAreTyped(c: Config, p: EntrySchema, n: nat, b: bytes)
    requires Wf(c, p.key) && Wf(c, p.val) && DecodeEntries(c, Plain, p, n, b).Ok?
    ensures EntriesTyped(p, DecodeEntries(c, Plain, p, n, b).value) && |DecodeEntries(c, Plain, p, n, b).value| == n
    decreases p, 1, n
  {
    hide Decode, WellTyped, Wf;
    if n > 0 {
      var k := Decode(c, Plain, p.key, b);
      ReadIsTyped(c, p.key, b);
      ReadIsTyped(c, p.val, k.rest);
      EntriesAreTyped(c, p, n - 1, Decode(c, Plain, p.val, k.rest).rest);
    }
  }

  lemma {:induction false} FieldsAreTyped(c: Config, fs: seq<Field>, b: bytes)
    requires WfFields(c, fs) && DecodeFields(c, Plain, fs, b).Ok?
    ensures FieldsTyped(fs, DecodeFields(c, Plain, fs, b).value)
    decreases fs, 0, 0
  {
    if fs != [] {
      assert fs[0].schema < fs[0];
      if fs[0].skip.Some? {
        FieldsAreTyped(c, fs[1..], b);
      } else {
        ReadIsTyped(c, fs[0].schema, b);
        FieldsAreTyped(c, fs[1..], Decode(c, Plain, fs[0].schema, b).rest);
      }
    }
  }

  lemma {:induction false} InsertTyped(p: EntrySchema, es: seq<Entry>, e: Entry)
    requires EntriesTyped(p, es) && WellTyped(p.key, e.key) && WellTyped(p.val, e.val)
    ensures EntriesTyped(p, Insert(es, e)) && |Insert(es, e)| <= |es| + 1
  {
    if es == [] {
      assert [e][1..] == [];
    } else {
      InsertTyped(p, es[1..], e);
      assert Insert(es, e)[1..] == if MeaningOf(es[0].key) == MeaningOf(e.key) then es[1..] else Insert(es[1..], e);
    }
  }

  lemma {:induction false} TypedAt(p: EntrySchema, es: seq<Entry>, i: nat)
    requires EntriesTyped(p, es) && i < |es|
    ensures WellTyped(p.key, es[i].key) && WellTyped(p.val, es[i].val) && EntriesTyped(p, es[..i])
  {
    if i > 0 {
      TypedAt(p, es[1..], i - 1);
      assert es[..i][1..] == es[1..][..i - 1];
    }
  }

  lemma {:induction false} CollectTyped(p: EntrySchema, es: seq<Entry>)
    requires EntriesTyped(p, es)
    ensures EntriesTyped(p, Collect(es)) && |Collect(es)| <= |es|
  {
    if es != [] {
      TypedAt(p, es, |es| - 1);
      CollectTyped(p, es[..|es| - 1]);
      InsertTyped(p, Collect(es[..|es| - 1]), es[|es| - 1]);
    }
  }

  // Writing again

  /** No iteration order, nothing skipped, discarded or made up. */
  predicate Rigid(s: Schema)
    decreases s
  {
    match s
    case OptS(e, _) => Rigid(e)
    case ArrS(_, e) => Rigid(e)
    case SeqS(e, _, _, _) => Rigid(e)
    case StructS(_, fs) => RigidFields(fs)
    case EnumS(_, vs, _) => RigidVariants(vs)
    case BoxS(e) => Rigid(e)
    case MapS(_, _, _, _) => false
    case DefaultOnEmptyS(_, _) => false
    case DiscardS(_, _) => false
    case DiscardSeqS(_, _) => false
    case _ => true
  }

  predicate RigidFields(fs: seq<Field>)
    decreases fs
  {
    fs == [] || (assert fs[0].schema < fs[0]; fs[0].skip.None? && Rigid(fs[0].schema) && RigidFields(fs[1..]))
  }

  predicate RigidVariants(vs: seq<Variant>)
    decreases vs
  {
    vs == [] || (RigidFields(vs[0].fields) && RigidVariants(vs[1..]))
  }

  lemma {:induction false} RigidVariant(vs: seq<Variant>, k: nat)
    requires RigidVariants(vs) && k < |vs|
    ensures RigidFields(vs[k].fields)
  {
    if k > 0 {
      RigidVariant(vs[1..], k - 1);
    }
  }

  /** `e`, written from the value read, against the input `b` of which `rest` was left: never
      longer than what was read, and under fixed-width integers the same bytes. */
  ghost predicate Reproduces(c: Config, e: Written<bytes>, b: bytes, rest: bytes) {
    e.Wrote? ==> |e.value| + |rest| <= |b| && (!c.ints.varint ==> e.value + rest == b)
  }

  lemma IntAgain(c: Config, ints: IntConfig, k: IntKind, b: bytes)
    requires k.Valid() && DecodeInt(ints, k, b).Ok? && (c.ints.varint || !ints.varint)
    ensures var d := DecodeInt(ints, k, b);
            k.InRange(d.value) && Reproduces(c, Wrote(EncodeInt(ints, k, d.value)), b, d.rest)
  {
    hide EncodeVar, DecodeVar, Pow256, ToBytes, FromBytes, Zigzag, Unzigzag;
    IntReencode(ints, k, b);
    if !ints.varint {
      assert b == b[..k.width] + b[k.width..];
    }
  }

  lemma PlainLenAgain(c: Config, len: SeqLen, b: bytes)
    requires len.kind.Valid() && DecodeLen(c, len, b).Ok?
    ensures var d := DecodeLen(c, len, b);
            EncodeLen(c, len, d.value).Wrote? && Reproduces(c, EncodeLen(c, len, d.value), b, d.rest)
  {
    IntAgain(c, LenInts(c, len), len.kind, b);
  }

  lemma PrefixAgain(c: Config, t: bytes, n: nat)
    requires n <= |t|
    ensures Reproduces(c, Wrote(t[..n]), t, t[n..])
  {
    assert t[..n] + t[n..] == t;
  }

  lemma LenAgain(c: Config, len: SeqLen, size: nat, b: bytes)
    requires len.kind.Valid() && DecodeLenChecked(c, len, size, b).Ok?
    ensures var d := DecodeLenChecked(c, len, size, b);
            EncodeLen(c, len, d.value).Wrote? && Reproduces(c, EncodeLen(c, len, d.value), b, d.rest)
  {
    IntAgain(c, LenInts(c, len), len.kind, b);
  }

  lemma Then(c: Config, a: bytes, e: bytes, b: bytes, mid: bytes, rest: bytes)
    requires Reproduces(c, Wrote(a), b, mid) && Reproduces(c, Wrote(e), mid, rest)
    ensures Reproduces(c, Wrote(a + e), b, rest)
  {
    assert a + e + rest == a + (e + rest);
  }

  lemma ScalarAgain(c: Config, s: Schema, b: bytes)
    requires (s.IntS? || s.BoolS? || s.CharS?) && Wf(c, s) && Decode(c, Plain, s, b).Ok?
    requires WellTyped(s, Decode(c, Plain, s, b).value)
    ensures var d := Decode(c, Plain, s, b);
            Reproduces(c, Encode(c, s, d.value), b, d.rest)
  {
    hide EncodeInt, DecodeInt, DecodeChar, EncodeScalar;
    match s
    case IntS(k) => IntAgain(c, c.ints, k, b);
    case BoolS => assert [b[0]] + b[1..] == b;
    case CharS =>
      AcceptedIsWellFormed(b);
      var used := |b| - |DecodeChar(b).rest|;
      assert b == b[..used] + b[used..];
  }

  /** Reading and then writing again, for every rigid schema and every accepted input. */
  lemma {:induction false} ReadAgain(c: Config, s: Schema, b: bytes)
    requires Wf(c, s) && Rigid(s) && Decode(c, Plain, s, b).Ok?
    ensures var d := Decode(c, Plain, s, b);
            WellTyped(s, d.value) && Reproduces(c, Encode(c, s, d.value), b, d.rest)
    decreases s, 0, 0
  {
    hide Reproduces;
    ReadIsTyped(c, s, b);
    match s
    case IntS(_) => ScalarAgain(c, s, b);
    case BoolS => ScalarAgain(c, s, b);
    case CharS => ScalarAgain(c, s, b);
    case StrS(_, _, _, _) => StrAgain(c, s, b);
    case OptS(_, _) => OptAgain(c, s, b);
    case ArrS(n, e) => ManyAgain(c, e, n, b);
    case SeqS(_, _, _, _) => SeqAgain(c, s, b);
    case StructS(_, fs) => FieldsAgain(c, fs, b);
    case EnumS(_, _, _) => EnumAgain(c, s, b);
    case BoxS(e) => ReadAgain(c, e, b);
  }

  lemma StrParts(c: Config, s: Schema, b: bytes)
    requires s.StrS? && Wf(c, s) && Decode(c, Plain, s, b).Ok? && WellTyped(s, Decode(c, Plain, s, b).value)
    ensures var d := DecodeLen(c, s.len, b);
            && d.Ok? && d.value <= |d.rest|
            && Decode(c, Plain, s, b) == Ok(StrV(d.rest[..d.value]), d.rest[d.value..])
            && var e := Encode(c, s, StrV(d.rest[..d.value]));
            && (e.Wrote? ==> EncodeLen(c, s.len, d.value).Wrote? && e.value == EncodeLen(c, s.len, d.value).value + d.rest[..d.value])
  {
    hide DecodeInt, EncodeInt;
  }

  lemma StrAgain(c: Config, s: Schema, b: bytes)
    requires s.StrS? && Wf(c, s) && Decode(c, Plain, s, b).Ok? && WellTyped(s, Decode(c, Plain, s, b).value)
    ensures var d := Decode(c, Plain, s, b);
            Reproduces(c, Encode(c, s, d.value), b, d.rest)
  {
    hide Decode, Encode, WellTyped, DecodeLen, EncodeLen, Reproduces;
    StrParts(c, s, b);
    PlainLenAgain(c, s.len, b);
    var d := DecodeLen(c, s.len, b);
    PrefixAgain(c, d.rest, d.value);
    var e := Encode(c, s, StrV(d.rest[..d.value]));
    if e.Wrote? {
      Then(c, EncodeLen(c, s.len, d.value).value, d.rest[..d.value], b, d.rest, d.rest[d.value..]);
    } else {
      RefusedReproduces(c, e, b, d.rest[d.value..]);
    }
  }

  lemma {:induction false} OptAgain(c: Config, s: Schema, b: bytes)
    requires s.OptS? && Wf(c, s) && Rigid(s) && Decode(c, Plain, s, b).Ok?
    requires WellTyped(s, Decode(c, Plain, s, b).value)
    ensures var d := Decode(c, Plain, s, b);
            Reproduces(c, Encode(c, s, d.value), b, d.rest)
    decreases s.inner, 5, 0
  {
    assert [b[0]] + b[1..] == b;
    if b[0] == 1 {
      var d := Decode(c, Plain, s.inner, b[1..]);
      ReadAgain(c, s.inner, b[1..]);
      if Encode(c, s.inner, d.value).Wrote? {
        Then(c, [b[0]], Encode(c, s.inner, d.value).value, b, b[1..], d.rest);
      }
    }
  }

  lemma SeqDecoded(c: Config, s: Schema, b: bytes)
    requires s.SeqS? && Wf(c, s) && Decode(c, Plain, s, b).Ok?
    ensures var d := DecodeLenChecked(c, s.len, LayoutOf(s.elem).size, b);
            && d.Ok?
            && var m := DecodeMany(c, Plain, s.elem, d.value, d.rest);
            && m.Ok? && Decode(c, Plain, s, b) == Ok(ListV(m.value), m.rest)
  {}

  lemma SeqEncoded(c: Config, s: Schema, vs: seq<Value>)
    requires s.SeqS? && Wf(c, s) && WellTyped(s, ListV(vs)) && Encode(c, s, ListV(vs)).Wrote?
    ensures EncodeLen(c, s.len, |vs|).Wrote? && EncodeAll(c, s.elem, vs).Wrote?
    ensures Encode(c, s, ListV(vs)).value == EncodeLen(c, s.len, |vs|).value + EncodeAll(c, s.elem, vs).value
  {}

  lemma {:induction false} SeqAgain(c: Config, s: Schema, b: bytes)
    requires s.SeqS? && Wf(c, s) && Rigid(s) && Decode(c, Plain, s, b).Ok?
    requires WellTyped(s, Decode(c, Plain, s, b).value)
    ensures var d := Decode(c, Plain, s, b);
            Reproduces(c, Encode(c, s, d.value), b, d.rest)
    decreases s.elem, 5, 0
  {
    hide Decode, Encode, DecodeMany, EncodeAll, Reproduces;
    var size := LayoutOf(s.elem).size;
    var d := DecodeLenChecked(c, s.len, size, b);
    SeqDecoded(c, s, b);
    LenAgain(c, s.len, size, b);
    ManyAgain(c, s.elem, d.value, d.rest);
    var m := DecodeMany(c, Plain, s.elem, d.value, d.rest);
    ManyIsTyped(c, s.elem, d.value, d.rest);
    if Encode(c, s, ListV(m.value)).Wrote? {
      SeqEncoded(c, s, m.value);
      Then(c, EncodeLen(c, s.len, d.value).value, EncodeAll(c, s.elem, m.value).value, b, d.rest, m.rest);
    } else {
      RefusedReproduces(c, Encode(c, s, ListV(m.value)), b, m.rest);
    }
  }

  lemma RefusedReproduces(c: Config, e: Written<bytes>, b: bytes, rest: bytes)
    requires e.Refused?
    ensures Reproduces(c, e, b, rest)
  {}

  lemma NothingAgain(c: Config, b: bytes)
    ensures Reproduces(c, Wrote([]), b, b)
  {
    assert [] + b == b;
  }

  lemma EnumDecoded(c: Config, s: Schema, b: bytes)
    requires s.EnumS? && Wf(c, s) && Decode(c, Plain, s, b).Ok?
    ensures var d := DecodeTag(c, s.tag, b);
            && d.Ok? && FindVariant(s.variants, d.value, 0).Some?
            && var k := FindVariant(s.variants, d.value, 0).value;
            && WfFields(c, s.variants[k].fields)
            && var f := DecodeFields(c, Plain, s.variants[k].fields, d.rest);
            && f.Ok? && Decode(c, Plain, s, b) == Ok(EnumV(k, f.value), f.rest)
  {
    var d := DecodeTag(c, s.tag, b);
    WfVariant(c, s.tag, s.variants, 0, FindVariant(s.variants, d.value, 0).value);
  }

  lemma EnumEncoded(c: Config, s: Schema, k: nat, vs: seq<Value>)
    requires s.EnumS? && Wf(c, s) && WellTyped(s, EnumV(k, vs)) && Encode(c, s, EnumV(k, vs)).Wrote?
    ensures WfFields(c, s.variants[k].fields)
    ensures var t, f := EncodeTag(c, s.tag, Discriminant(s.variants[k], k)), EncodeFields(c, s.variants[k].fields, vs);
            t.Wrote? && f.Wrote? && Encode(c, s, EnumV(k, vs)).value == t.value + f.value
  {
    WfVariant(c, s.tag, s.variants, 0, k);
  }

  lemma {:induction false} EnumAgain(c: Config, s: Schema, b: bytes)
    requires s.EnumS? && Wf(c, s) && Rigid(s) && Decode(c, Plain, s, b).Ok?
    requires WellTyped(s, Decode(c, Plain, s, b).value)
    ensures var d := Decode(c, Plain, s, b);
            Reproduces(c, Encode(c, s, d.value), b, d.rest)
    decreases s.variants, 5, 0
  {
    hide Decode, Encode, DecodeFields, EncodeFields, Reproduces;
    var d := DecodeTag(c, s.tag, b);
    EnumDecoded(c, s, b);
    IntAgain(c, c.ints, TagKind(c, s.tag), b);
    var k := FindVariant(s.variants, d.value, 0).value;
    var fs := s.variants[k].fields;
    RigidVariant(s.variants, k);
    FieldsAgain(c, fs, d.rest);
    var f := DecodeFields(c, Plain, fs, d.rest);
    if Encode(c, s, EnumV(k, f.value)).Wrote? {
      EnumEncoded(c, s, k, f.value);
      Then(c, EncodeTag(c, s.tag, d.value).value, EncodeFields(c, fs, f.value).value, b, d.rest, f.rest);
    } else {
      RefusedReproduces(c, Encode(c, s, EnumV(k, f.value)), b, f.rest);
    }
  }

  lemma {:induction false} ManyAgain(c: Config, e: Schema, n: nat, b: bytes)
    requires Wf(c, e) && Rigid(e) && DecodeMany(c, Plain, e, n, b).Ok?
    ensures var d := DecodeMany(c, Plain, e, n, b);
            AllTyped(e, d.value) && Reproduces(c, EncodeAll(c, e, d.value), b, d.rest)
    decreases e, 1, n
  {
    hide Decode, Encode, Reproduces, Wf, Rigid, WellTyped;
    if n == 0 {
      NothingAgain(c, b);
    } else {
      var d := Decode(c, Plain, e, b);
      ReadAgain(c, e, b);
      ManyAgain(c, e, n - 1, d.rest);
      var m := DecodeMany(c, Plain, e, n - 1, d.rest);
      assert ([d.value] + m.value)[1..] == m.value;
      if EncodeAll(c, e, [d.value] + m.value).Wrote? {
        Then(c, Encode(c, e, d.value).value, EncodeAll(c, e, m.value).value, b, d.rest, m.rest);
      } else {
        RefusedReproduces(c, EncodeAll(c, e, [d.value] + m.value), b, m.rest);
      }
    }
  }

  lemma {:induction false} FieldsAgain(c: Config, fs: seq<Field>, b: bytes)
    requires WfFields(c, fs) && RigidFields(fs) && DecodeFields(c, Plain, fs, b).Ok?
    ensures var d := DecodeFields(c, Plain, fs, b);
            FieldsTyped(fs, d.value) && Reproduces(c, EncodeFields(c, fs, d.value), b, d.rest)
    decreases fs, 0, 0
  {
    if fs != [] {
      assert fs[0].schema < fs[0];
      var d := Decode(c, Plain, fs[0].schema, b);
      ReadAgain(c, fs[0].schema, b);
      FieldsAgain(c, fs[1..], d.rest);
      var m := DecodeFields(c, Plain, fs[1..], d.rest);
      assert ([d.value] + m.value)[1..] == m.value;
      if EncodeFields(c, fs, [d.value] + m.value).Wrote? {
        Then(c, Encode(c, fs[0].schema, d.value).value, EncodeFields(c, fs[1..], m.value).value, b, d.rest, m.rest);
      }
    }
  }

  /** Strings whose length is checked on writing have it checked on reading. */
  predicate Mirrored(s: Schema)
    decreases s
  {
    match s
    case StrS(_, readCheck, writeCheck, _) => writeCheck ==> readCheck
    case OptS(e, _) => Mirrored(e)
    case ArrS(_, e) => Mirrored(e)
    case SeqS(e, _, _, _) => Mirrored(e)
    case StructS(_, fs) => MirroredFields(fs)
    case EnumS(_, vs, _) => MirroredVariants(vs)
    case BoxS(e) => Mirrored(e)
    case _ => true
  }

  predicate MirroredFields(fs: seq<Field>)
    decreases fs
  {
    fs == [] || (assert fs[0].schema < fs[0]; Mirrored(fs[0].schema) && MirroredFields(fs[1..]))
  }

  predicate MirroredVariants(vs: seq<Variant>)
    decreases vs
  {
    vs == [] || (MirroredFields(vs[0].fields) && MirroredVariants(vs[1..]))
  }

  lemma {:induction false} MirroredVariant(vs: seq<Variant>, k: nat)
    requires MirroredVariants(vs) && k < |vs|
    ensures MirroredFields(vs[k].fields)
  {
    if k > 0 {
      MirroredVariant(vs[1..], k - 1);
    }
  }

  /** What was read can be written. */
  lemma {:induction false} WritesAgain(c: Config, s: Schema, b: bytes)
    requires Wf(c, s) && Rigid(s) && Mirrored(s) && Decode(c, Plain, s, b).Ok?
    ensures var v := Decode(c, Plain, s, b).value;
            WellTyped(s, v) && Encode(c, s, v).Wrote?
    decreases s, 0, 0
  {
    ReadIsTyped(c, s, b);
    match s
    case StrS(_, _, _, _) => StrWritesAgain(c, s, b);
    case OptS(e, _) =>
      if b[0] == 1 {
        WritesAgain(c, e, b[1..]);
      }
    case ArrS(n, e) => ManyWritesAgain(c, e, n, b);
    case SeqS(_, _, _, _) => SeqWritesAgain(c, s, b);
    case StructS(_, fs) => FieldsWriteAgain(c, fs, b);
    case EnumS(_, _, _) => EnumWritesAgain(c, s, b);
    case BoxS(e) => WritesAgain(c, e, b);
    case _ =>
  }

  lemma StrWritesAgain(c: Config, s: Schema, b: bytes)
    requires s.StrS? && Wf(c, s) && Mirrored(s) && Decode(c, Plain, s, b).Ok?
    requires WellTyped(s, Decode(c, Plain, s, b).value)
    ensures Encode(c, s, Decode(c, Plain, s, b).value).Wrote?
  {
    hide EncodeLen, DecodeInt, EncodeInt;
    PlainLenAgain(c, s.len, b);
  }

  lemma {:induction false} SeqWritesAgain(c: Config, s: Schema, b: bytes)
    requires s.SeqS? && Wf(c, s) && Rigid(s) && Mirrored(s) && Decode(c, Plain, s, b).Ok?
    requires WellTyped(s, Decode(c, Plain, s, b).value)
    ensures Encode(c, s, Decode(c, Plain, s, b).value).Wrote?
    decreases s.elem, 5, 0
  {
    hide Decode, DecodeMany, EncodeAll;
    var size := LayoutOf(s.elem).size;
    var d := DecodeLenChecked(c, s.len, size, b);
    SeqDecoded(c, s, b);
    LenAgain(c, s.len, size, b);
    ManyIsTyped(c, s.elem, d.value, d.rest);
    ManyWritesAgain(c, s.elem, d.value, d.rest);
  }

  lemma {:induction false} EnumWritesAgain(c: Config, s: Schema, b: bytes)
    requires s.EnumS? && Wf(c, s) && Rigid(s) && Mirrored(s) && Decode(c, Plain, s, b).Ok?
    requires WellTyped(s, Decode(c, Plain, s, b).value)
    ensures Encode(c, s, Decode(c, Plain, s, b).value).Wrote?
    decreases s.variants, 5, 0
  {
    hide Decode, DecodeFields, EncodeFields;
    EnumDecoded(c, s, b);
    var d := DecodeTag(c, s.tag, b);
    IntAgain(c, c.ints, TagKind(c, s.tag), b);
    var k := FindVariant(s.variants, d.value, 0).value;
    RigidVariant(s.variants, k);
    MirroredVariant(s.variants, k);
    FieldsWriteAgain(c, s.variants[k].fields, d.rest);
  }

  lemma {:induction false} ManyWritesAgain(c: Config, e: Schema, n: nat, b: bytes)
    requires Wf(c, e) && Rigid(e) && Mirrored(e) && DecodeMany(c, Plain, e, n, b).Ok?
    ensures var vs := DecodeMany(c, Plain, e, n, b).value;
            AllTyped(e, vs) && EncodeAll(c, e, vs).Wrote?
    decreases e, 1, n
  {
    hide Decode, Encode, Wf, Rigid, Mirrored, WellTyped;
    if n > 0 {
      var d := Decode(c, Plain, e, b);
      WritesAgain(c, e, b);
      ManyWritesAgain(c, e, n - 1, d.rest);
    }
  }

  lemma {:induction false} FieldsWriteAgain(c: Config, fs: seq<Field>, b: bytes)
    requires WfFields(c, fs) && RigidFields(fs) && MirroredFields(fs) && DecodeFields(c, Plain, fs, b).Ok?
    ensures var vs := DecodeFields(c, Plain, fs, b).value;
            FieldsTyped(fs, vs) && EncodeFields(c, fs, vs).Wrote?
    decreases fs, 0, 0
  {
    if fs != [] {
      assert fs[0].schema < fs[0];
      WritesAgain(c, fs[0].schema, b);
      FieldsWriteAgain(c, fs[1..], Decode(c, Plain, fs[0].schema, b).rest);
    }
  }

  lemma {:induction false} RigidKeepsAll(s: Schema)
    requires Rigid(s)
    ensures Lossless(s) && NoDefault(s)
    decreases s
  {
    match s
    case OptS(e, _) => RigidKeepsAll(e);
    case ArrS(_, e) => RigidKeepsAll(e);
    case SeqS(e, _, _, _) => RigidKeepsAll(e);
    case StructS(_, fs) => RigidKeepsFields(fs);
    case EnumS(_, vs, _) => RigidKeepsVariants(vs);
    case BoxS(e) => RigidKeepsAll(e);
    case _ =>
  }

  lemma {:induction false} RigidKeepsFields(fs: seq<Field>)
    requires RigidFields(fs)
    ensures LosslessFields(fs) && NoDefaultFields(fs)
    decreases fs
  {
    if fs != [] {
      assert fs[0].schema < fs[0];
      RigidKeepsAll(fs[0].schema);
      RigidKeepsFields(fs[1..]);
    }
  }

  lemma {:induction false} RigidKeepsVariants(vs: seq<Variant>)
    requires RigidVariants(vs)
    ensures LosslessVariants(vs) && NoDefaultVariants(vs)
    decreases vs
  {
    if vs != [] {
      RigidKeepsFields(vs[0].fields);
      RigidKeepsVariants(vs[1..]);
    }
  }

  /** With fixed-width integers there is one encoding per value: an input is accepted, with nothing
      left over, exactly when it is what writing the value emits. */
  lemma FixedIsCanonical(c: Config, w: Mode, s: Schema, v: Value, b: bytes)
    requires Wf(c, s) && Rigid(s) && Mirrored(s) && Checked(s) && !c.ints.varint
    requires Trusted(c, w, s) && Addressable(w, b)
    ensures Decode(c, w, s, b) == Ok(v, []) <==> WellTyped(s, v) && Encode(c, s, v) == Wrote(b)
  {
    hide Decode, Encode;
    RigidKeepsAll(s);
    assert b + [] == b;
    if Decode(c, w, s, b) == Ok(v, []) {
      if w.Windowed? {
        WindowedAgrees(c, s, b);
      }
      ReadAgain(c, s, b);
      WritesAgain(c, s, b);
      assert Encode(c, s, v).value + [] == Encode(c, s, v).value;
    }
    if WellTyped(s, v) && Encode(c, s, v) == Wrote(b) {
      CheckedRoundTrip(c, w, s, v, []);
    }
  }
}
