/** The three paths of the code - bulk copy, trusted window, element by element - refine the
    plain field-by-field read. */
module Windows {
  import opened Prim
  import opened IntEncoding
  import opened TypeMetas
  import opened Schemas
  import opened Lens
  import opened Codec
  import opened Extension
  import opened StaticSize
  import opened ZeroCopy

  /** Both succeed with the same value and rest, or both fail. The code may run out of bytes, or
      see a body too large for any input, before it meets the error of the plain read. */
  ghost predicate Agrees<T>(code: Parsed<T>, plain: Parsed<T>) {
    && (code.Ok? <==> plain.Ok?)
    && (code.Ok? ==> code == plain)
    && (code.Fail? ==> code.error == plain.error || code.error.ReadSizeLimit? || code.error.LengthEncodingOverflow?)
  }

  /** What was read inside a window that is a prefix of `b`, against the plain read of `b`. */
  lemma WindowAgrees<T>(inside: Parsed<T>, plainInside: Parsed<T>, plain: Parsed<T>, b: bytes, n: nat)
    requires n <= |b|
    requires Agrees(inside, plainInside)
    requires Exact(plainInside, b[..n], n)
    requires Stable(plainInside, plain, b[..n], b[n..])
    ensures Agrees(inside.After(b[n..]), plain)
  {
    if plainInside.Ok? {
      assert plainInside.rest == [];
      assert [] + b[n..] == b[n..];
    }
  }

  /** For every schema in which no sum of sizes wraps and every input, the code's read and the plain
      read succeed together, with the same value and the same remaining input. */
  lemma {:induction false} WindowedAgrees(c: Config, s: Schema, b: bytes)
    requires Wf(c, s) && Roomy(c, s) && NoDefault(s) && |b| < USIZE
    ensures Agrees(Decode(c, Windowed, s, b), Decode(c, Plain, s, b))
    decreases s, 0, 0
  {
    hide DecodeInt, DecodeStr, DecodeSlice, DecodeMap;
    match s
    case IntS(_) =>
    case BoolS =>
    case CharS =>
    case StrS(_, _, _, _) =>
    case OptS(e, _) =>
      if b != [] && b[0] == 1 {
        WindowedAgrees(c, e, b[1..]);
      }
    case ArrS(n, e) => SliceAgrees(c, e, n, b);
    case SeqS(e, len, _, _) =>
      var d := DecodeLenChecked(c, len, LayoutOf(e).size, b);
      LenExtend(c, len, LayoutOf(e).size, b, []);
      if d.Ok? {
        SliceAgrees(c, e, d.value, d.rest);
      }
    case MapS(p, len, size, _) =>
      var d := DecodeLenChecked(c, len, size, b);
      LenExtend(c, len, size, b, []);
      if d.Ok? {
        MapAgrees(c, p, d.value, d.rest);
      }
    case StructS(_, fs) => StructAgrees(c, s, b);
    case EnumS(_, _, _) => EnumAgrees(c, s, b);
    case BoxS(e) => WindowedAgrees(c, e, b);
    case DiscardS(e, _) => WindowedAgrees(c, e, b);
    case DiscardSeqS(e, len) => DiscardSeqAgrees(c, s, b);
  }

  /** Where a size-limit error becomes a default, the window shows: reserving two bytes leaves one
      byte in place that the element-by-element read has consumed. */
  lemma DefaultSeesWindow(c: Config)
    ensures var s := DefaultOnEmptyS(ArrS(2, BoolS), ListV([BoolV(false), BoolV(false)]));
            Wf(c, s) && Decode(c, Windowed, s, [1]) == Ok(s.dflt, [1]) && Decode(c, Plain, s, [1]) == Ok(s.dflt, [])
  {
    var vs := [BoolV(false), BoolV(false)];
    assert vs[1..] == [BoolV(false)] && vs[1..][1..] == [];
    assert AllTyped(BoolS, vs[1..][1..]);
    assert AllTyped(BoolS, vs[1..]);
    assert [1][1..] == [];
    assert Decode(c, Plain, BoolS, [1]) == Ok(BoolV(true), []);
    assert DecodeMany(c, Plain, BoolS, 1, []) == Fail(ReadSizeLimit(1), []);
  }

  lemma {:induction false} StructAgrees(c: Config, s: Schema, b: bytes)
    requires s.StructS? && Wf(c, s) && Roomy(c, s) && NoDefault(s) && |b| < USIZE
    ensures Agrees(Decode(c, Windowed, s, b), Decode(c, Plain, s, b))
    decreases s.fields, 2, 0
  {
    if Meta(c, Reading, s).Static? {
      FieldsInAgrees(c, Meta(c, Reading, s).size, s.fields, b);
    } else {
      FieldsAgree(c, s.fields, b);
    }
  }

  lemma {:induction false} EnumAgrees(c: Config, s: Schema, b: bytes)
    requires s.EnumS? && Wf(c, s) && Roomy(c, s) && NoDefault(s) && |b| < USIZE
    ensures Agrees(Decode(c, Windowed, s, b), Decode(c, Plain, s, b))
    decreases s.variants, 5, 0
  {
    var vs := s.variants;
    if vs != [] {
      TagExtend(c, s.tag, b, []);
      var d := DecodeTag(c, s.tag, b);
      if d.Ok? && FindVariant(vs, d.value, 0).Some? {
        var k := FindVariant(vs, d.value, 0).value;
        WfVariant(c, s.tag, vs, 0, k);
        NoDefaultVariant(vs, k);
        RoomyChoice(c, s, k);
        var fs := vs[k].fields;
        var m := Join(FieldMetas(c, Reading, fs));
        if m.Static? {
          FieldsInAgrees(c, m.size, fs, d.rest);
        } else {
          FieldsAgree(c, fs, d.rest);
        }
      }
    }
  }

  lemma {:induction false} DiscardSeqAgrees(c: Config, s: Schema, b: bytes)
    requires s.DiscardSeqS? && Wf(c, s) && Roomy(c, s) && NoDefault(s) && |b| < USIZE
    ensures Agrees(Decode(c, Windowed, s, b), Decode(c, Plain, s, b))
    decreases s.elem, 5, 0
  {
    var e := s.elem;
    var d := DecodeLenChecked(c, s.len, LayoutOf(e).size, b);
    LenExtend(c, s.len, LayoutOf(e).size, b, []);
    if d.Ok? {
      if Meta(c, Reading, e).Static? {
        ManyInAgrees(c, e, d.value, d.rest);
      } else {
        ManyAgrees(c, e, d.value, d.rest);
      }
    }
  }

  lemma {:induction false} FieldsAgree(c: Config, fs: seq<Field>, b: bytes)
    requires WfFields(c, fs) && RoomyFields(c, fs) && NoDefaultFields(fs) && |b| < USIZE
    ensures Agrees(DecodeFields(c, Windowed, fs, b), DecodeFields(c, Plain, fs, b))
    decreases fs, 0, 0
  {
    if fs != [] {
      if fs[0].skip.Some? {
        FieldsAgree(c, fs[1..], b);
      } else {
        assert fs[0].schema < fs[0];
        WindowedAgrees(c, fs[0].schema, b);
        Extend(c, Plain, fs[0].schema, b, []);
        var d := Decode(c, Plain, fs[0].schema, b);
        if d.Ok? {
          FieldsAgree(c, fs[1..], d.rest);
        }
      }
    }
  }

  lemma {:induction false} FieldsInAgrees(c: Config, n: nat, fs: seq<Field>, b: bytes)
    requires WfFields(c, fs) && RoomyFields(c, fs) && NoDefaultFields(fs) && |b| < USIZE
    requires Join(FieldMetas(c, Reading, fs)).Static? && n == Join(FieldMetas(c, Reading, fs)).size
    requires Holds(FieldMetas(c, Reading, fs))
    ensures Agrees(DecodeFieldsIn(c, n, fs, b), DecodeFields(c, Plain, fs, b))
    decreases fs, 1, 0
  {
    JoinCovers(FieldMetas(c, Reading, fs));
    StaticFields(c, Plain, fs, b);
    if n <= |b| {
      assert b == b[..n] + b[n..];
      StaticFields(c, Plain, fs, b[..n]);
      ExtendFields(c, Plain, fs, b[..n], b[n..]);
      FieldsAgree(c, fs, b[..n]);
      WindowAgrees(DecodeFields(c, Windowed, fs, b[..n]), DecodeFields(c, Plain, fs, b[..n]), DecodeFields(c, Plain, fs, b), b, n);
    }
  }

  lemma {:induction false} ManyAgrees(c: Config, e: Schema, n: nat, b: bytes)
    requires Wf(c, e) && Roomy(c, e) && NoDefault(e) && |b| < USIZE
    ensures Agrees(DecodeMany(c, Windowed, e, n, b), DecodeMany(c, Plain, e, n, b))
    decreases e, 1, n
  {
    hide Decode, Wf, Roomy, NoDefault;
    if n > 0 {
      WindowedAgrees(c, e, b);
      Extend(c, Plain, e, b, []);
      var d := Decode(c, Plain, e, b);
      if d.Ok? {
        ManyAgrees(c, e, n - 1, d.rest);
      }
    }
  }

  lemma {:induction false} ManyInAgrees(c: Config, e: Schema, n: nat, b: bytes)
    requires Wf(c, e) && Roomy(c, e) && NoDefault(e) && |b| < USIZE && Meta(c, Reading, e).Static?
    ensures Agrees(DecodeManyIn(c, e, n, Meta(c, Reading, e).size, b), DecodeMany(c, Plain, e, n, b))
    decreases e, 2, n
  {
    var m := Times(n, Meta(c, Reading, e).size);
    StaticMany(c, Plain, e, n, b);
    if m <= |b| {
      assert b == b[..m] + b[m..];
      StaticMany(c, Plain, e, n, b[..m]);
      ExtendMany(c, Plain, e, n, b[..m], b[m..]);
      ManyAgrees(c, e, n, b[..m]);
      WindowAgrees(DecodeMany(c, Windowed, e, n, b[..m]), DecodeMany(c, Plain, e, n, b[..m]), DecodeMany(c, Plain, e, n, b), b, m);
    }
  }

  /** Filling a slice in bulk, in a window or slot by slot gives the same elements. */
  lemma {:induction false} SliceAgrees(c: Config, e: Schema, n: nat, b: bytes)
    requires Wf(c, e) && Roomy(c, e) && NoDefault(e) && |b| < USIZE
    ensures Agrees(DecodeSlice(c, Windowed, e, n, b), DecodeSlice(c, Plain, e, n, b))
    decreases e, 3, n
  {
    var meta := Meta(c, Reading, e);
    if meta.Dynamic? {
      ManyAgrees(c, e, n, b);
    } else if meta.zeroCopy {
      var m := Times(n, meta.size);
      ZeroCopySize(c, Reading, e);
      StaticMany(c, Plain, e, n, b);
      if m <= |b| {
        ReinterpretAllIsDecode(c, e, n, b, m);
      }
    } else {
      ManyInAgrees(c, e, n, b);
    }
  }

  lemma {:induction false} EntryAgrees(c: Config, p: EntrySchema, b: bytes)
    requires Wf(c, p.key) && Wf(c, p.val) && Roomy(c, p.key) && Roomy(c, p.val)
    requires NoDefault(p.key) && NoDefault(p.val) && |b| < USIZE
    ensures Agrees(DecodeEntry(c, Windowed, p, b), DecodeEntry(c, Plain, p, b))
    decreases p, 0, 0
  {
    hide Decode, Wf, Roomy, NoDefault;
    WindowedAgrees(c, p.key, b);
    Extend(c, Plain, p.key, b, []);
    var k := Decode(c, Plain, p.key, b);
    if k.Ok? {
      WindowedAgrees(c, p.val, k.rest);
    }
  }

  lemma {:induction false} EntriesAgree(c: Config, p: EntrySchema, n: nat, b: bytes)
    requires Wf(c, p.key) && Wf(c, p.val) && Roomy(c, p.key) && Roomy(c, p.val)
    requires NoDefault(p.key) && NoDefault(p.val) && |b| < USIZE
    ensures Agrees(DecodeEntries(c, Windowed, p, n, b), DecodeEntries(c, Plain, p, n, b))
    decreases p, 1, n
  {
    hide DecodeEntry, Decode, Wf, Roomy, NoDefault;
    if n > 0 {
      EntryAgrees(c, p, b);
      ExtendEntry(c, Plain, p, b, []);
      var d := DecodeEntry(c, Plain, p, b);
      if d.Ok? {
        EntriesAgree(c, p, n - 1, d.rest);
      }
    }
  }

  /** A map whose static entries are as large as the address space is refused by the windowed read
      and not by the plain one, even when it is empty. */
  lemma HugeEntriesRefused(c: Config, p: EntrySchema, b: bytes)
    requires Wf(c, p.key) && Wf(c, p.val)
    ensures DecodeMap(c, Plain, p, 0, b) == Ok([], b)
    ensures DecodeMap(c, Windowed, p, 0, b) == Ok([], b) <==> ModerateEntry(c, p)
  {
    assert b[..0] == [] && b[0..] == b;
  }

  lemma {:induction false} MapAgrees(c: Config, p: EntrySchema, n: nat, b: bytes)
    requires Wf(c, p.key) && Wf(c, p.val) && Roomy(c, p.key) && Roomy(c, p.val)
    requires NoDefault(p.key) && NoDefault(p.val) && |b| < USIZE
    requires ModerateEntry(c, p)
    ensures Agrees(DecodeMap(c, Windowed, p, n, b), DecodeMap(c, Plain, p, n, b))
    decreases p, 2, n
  {
    hide DecodeEntries, Meta, Wf, Roomy, NoDefault;
    var mk, mv := Meta(c, Reading, p.key), Meta(c, Reading, p.val);
    if mk.Static? && mv.Static? {
      var m := Times(n, mk.size + mv.size);
      StaticEntries(c, Plain, p, n, b);
      if m <= |b| {
        assert b == b[..m] + b[m..];
        StaticEntries(c, Plain, p, n, b[..m]);
        ExtendEntries(c, Plain, p, n, b[..m], b[m..]);
        EntriesAgree(c, p, n, b[..m]);
        WindowAgrees(DecodeEntries(c, Windowed, p, n, b[..m]), DecodeEntries(c, Plain, p, n, b[..m]), DecodeEntries(c, Plain, p, n, b), b, m);
      }
    } else {
      EntriesAgree(c, p, n, b);
    }
  }
}
