/** Zero-copy types: their memory is their encoding, so bulk copies equal the element loops. */
module ZeroCopy {
  import opened Prim
  import opened TypeMetas
  import opened Schemas
  import opened Memory
  import opened Codec
  import opened StaticSize

  predicate IsZeroCopy(m: TypeMeta) { m.Static? && m.zeroCopy }

  // Layout: a struct judged zero-copy has no padding

  lemma RoundUpAtLeast(n: nat, align: nat)
    ensures RoundUp(n, align) >= n
  {
    if align > 0 {
      var q, r := (n + align - 1) / align, (n + align - 1) % align;
      assert n + align - 1 == q * align + r;
    }
  }

  /** No gap before any field placed from `at` on, and skipped fields take no space. */
  predicate Packed(repr: Repr, fs: seq<Field>, at: nat)
    decreases fs
  {
    fs == [] ||
    (var lay := LayoutOf(fs[0].schema);
     Gap(repr, at, lay.align) == 0 && (fs[0].skip.Some? ==> lay.size == 0) && Packed(repr, fs[1..], at + lay.size))
  }

  /** Fields never end before the sum of their sizes. */
  lemma {:induction false} EndAtLeastTotal(ls: seq<Layout>, at: nat)
    ensures EndOf(ls, at) >= at + TotalSize(ls)
    decreases ls
  {
    if ls != [] {
      RoundUpAtLeast(at, ls[0].align);
      EndAtLeastTotal(ls[1..], RoundUp(at, ls[0].align) + ls[0].size);
    }
  }

  /** What is serialized of zero-copy fields never exceeds their total size in memory. */
  lemma {:induction false} SerializedAtMostTotal(c: Config, side: Side, fs: seq<Field>)
    requires WfFields(c, fs) && IsZeroCopy(Join(FieldMetas(c, side, fs)))
    ensures Total(FieldMetas(c, side, fs)) <= TotalSize(FieldLayouts(fs))
    decreases fs
  {
    if fs != [] {
      JoinHead(c, side, fs);
      assert FieldLayouts(fs)[1..] == FieldLayouts(fs[1..]);
      SerializedAtMostTotal(c, side, fs[1..]);
    }
  }

  /** The first field of a zero-copy join: skipped, or zero-copy and as large as it is written. */
  lemma JoinHead(c: Config, side: Side, fs: seq<Field>)
    requires WfFields(c, fs) && fs != [] && IsZeroCopy(Join(FieldMetas(c, side, fs)))
    ensures IsZeroCopy(Join(FieldMetas(c, side, fs[1..])))
    ensures var lay := LayoutOf(fs[0].schema);
            if fs[0].skip.Some? then Total(FieldMetas(c, side, fs)) == Total(FieldMetas(c, side, fs[1..]))
            else
              && IsZeroCopy(Meta(c, side, fs[0].schema))
              && Meta(c, side, fs[0].schema).size == lay.size
              && Total(FieldMetas(c, side, fs)) == lay.size + Total(FieldMetas(c, side, fs[1..]))
  {
    if fs[0].skip.None? {
      assert FieldMetas(c, side, fs)[1..] == FieldMetas(c, side, fs[1..]);
      ZeroCopySize(c, side, fs[0].schema);
    }
  }

  /** If the fields end no later than what is serialized of them, nothing but fields is there. */
  lemma {:induction false} TightIsPacked(c: Config, side: Side, repr: Repr, fs: seq<Field>, at: nat)
    requires WfFields(c, fs) && IsZeroCopy(Join(FieldMetas(c, side, fs)))
    requires var end := if repr.C? then EndOf(FieldLayouts(fs), at) else at + TotalSize(FieldLayouts(fs));
             end <= at + Total(FieldMetas(c, side, fs))
    ensures Packed(repr, fs, at)
    decreases fs
  {
    if fs != [] {
      var ls := FieldLayouts(fs);
      var lay := ls[0];
      assert ls[1..] == FieldLayouts(fs[1..]);
      JoinHead(c, side, fs);
      RoundUpAtLeast(at, lay.align);
      SerializedAtMostTotal(c, side, fs[1..]);
      EndAtLeastTotal(ls[1..], RoundUp(at, lay.align) + lay.size);
      TightIsPacked(c, side, repr, fs[1..], at + lay.size);
    }
  }

  /** A struct judged zero-copy has no padding anywhere, its skipped fields occupy nothing, and
      it is exactly as large as its fields together. */
  lemma ZeroCopyStructIsPacked(c: Config, side: Side, s: Schema)
    requires s.StructS? && s.fields != [] && Wf(c, s) && IsZeroCopy(Meta(c, side, s))
    ensures !s.repr.RustRepr? && IsZeroCopy(Join(FieldMetas(c, side, s.fields)))
    ensures Packed(s.repr, s.fields, 0)
    ensures LayoutOf(s).size == TotalSize(FieldLayouts(s.fields)) == Total(FieldMetas(c, side, s.fields))
  {
    JoinCovers(FieldMetas(c, side, s.fields));
    var ls := FieldLayouts(s.fields);
    EndAtLeastTotal(ls, 0);
    RoundUpAtLeast(EndOf(ls, 0), LayoutOf(s).align);
    SerializedAtMostTotal(c, side, s.fields);
    TightIsPacked(c, side, s.repr, s.fields, 0);
  }

  /** Where the C layout rule puts field `i`. */
  function Offset(ls: seq<Layout>, i: nat): nat
    requires i < |ls|
  {
    RoundUp(EndOf(ls[..i], 0), ls[i].align)
  }

  lemma {:induction false} EndOfPrefix(repr: Repr, fs: seq<Field>, at: nat, i: nat)
    requires repr.C? && Packed(repr, fs, at) && i < |fs|
    ensures var ls := FieldLayouts(fs);
            && EndOf(ls[..i], at) == at + TotalSize(ls[..i])
            && RoundUp(EndOf(ls[..i], at), ls[i].align) == at + TotalSize(ls[..i])
    decreases fs
  {
    var ls := FieldLayouts(fs);
    assert ls[1..] == FieldLayouts(fs[1..]);
    RoundUpAtLeast(at, ls[0].align);
    if i > 0 {
      EndOfPrefix(repr, fs[1..], at + ls[0].size, i - 1);
      assert ls[..i][1..] == ls[1..][..i - 1];
    }
  }

  /** Under the C layout rule, every field of a zero-copy struct sits right behind the previous. */
  lemma ZeroCopyOffsets(c: Config, side: Side, s: Schema, i: nat)
    requires s.StructS? && s.repr.C? && i < |s.fields| && Wf(c, s) && IsZeroCopy(Meta(c, side, s))
    ensures var ls := FieldLayouts(s.fields);
            Offset(ls, i) == TotalSize(ls[..i]) && (s.fields[i].skip.Some? ==> ls[i].size == 0)
  {
    ZeroCopyStructIsPacked(c, side, s);
    EndOfPrefix(s.repr, s.fields, 0, i);
    if s.fields[i].skip.Some? {
      PackedSkip(s.repr, s.fields, 0, i);
    }
  }

  lemma {:induction false} PackedSkip(repr: Repr, fs: seq<Field>, at: nat, i: nat)
    requires Packed(repr, fs, at) && i < |fs| && fs[i].skip.Some?
    ensures FieldLayouts(fs)[i].size == 0
    decreases fs
  {
    assert FieldLayouts(fs)[1..] == FieldLayouts(fs[1..]);
    if i > 0 {
      PackedSkip(repr, fs[1..], at + LayoutOf(fs[0].schema).size, i - 1);
    }
  }

  // Reading: reinterpreting memory is decoding it

  lemma OneByteOrder(o: Endian, o': Endian, b: bytes)
    requires |b| == 1
    ensures FromBytes(o, b) == FromBytes(o', b) == b[0]
  {
    assert b[1..] == [] && b[..0] == [];
    assert LittleValue(b[1..]) == 0 && BigValue(b[..0]) == 0;
  }

  /** Every byte string of the right size is the memory of exactly the value that decoding it
      field by field gives. */
  lemma {:induction false} ReinterpretIsDecode(c: Config, s: Schema, b: bytes)
    requires Wf(c, s) && IsZeroCopy(Meta(c, Reading, s)) && Meta(c, Reading, s).size <= |b|
    ensures var n := Meta(c, Reading, s).size;
            Decode(c, Plain, s, b) == Ok(Reinterpret(c, s, b[..n]), b[n..])
    decreases s, 0, 0
  {
    match s
    case IntS(k) =>
      if k.width == 1 {
        OneByteOrder(c.ints.order, c.platform, b[..1]);
      }
    case ArrS(n, e) =>
      ReinterpretAllIsDecode(c, e, n, b, Meta(c, Reading, s).size);
    case StructS(repr, fs) =>
      if fs != [] {
        ZeroCopyStructIsPacked(c, Reading, s);
        ReinterpretFieldsIsDecode(c, repr, fs, b, Meta(c, Reading, s).size, 0, b);
      }
    case EnumS(_, _, _) => EnumNeverZeroCopy(c, Reading, s);
    case _ =>
  }

  lemma {:induction false} ReinterpretAllIsDecode(c: Config, e: Schema, n: nat, b: bytes, m: nat)
    requires Wf(c, e) && IsZeroCopy(Meta(c, Reading, e)) && Times(n, Meta(c, Reading, e).size) <= m <= |b|
    ensures DecodeMany(c, Plain, e, n, b) == Ok(ReinterpretAll(c, e, n, b[..m]), b[Times(n, Meta(c, Reading, e).size)..])
    decreases e, 1, n
  {
    hide Decode, Reinterpret, Wf, Meta, LayoutOf;
    var size := Meta(c, Reading, e).size;
    ZeroCopySize(c, Reading, e);
    if n > 0 {
      TimesStep(n, size);
      ReinterpretIsDecode(c, e, b);
      ReinterpretAllIsDecode(c, e, n - 1, b[size..], m - size);
      assert b[..m][0..size] == b[..size];
      assert b[..m][size..] == b[size..][..m - size];
      assert b[size..][Times(n - 1, size)..] == b[Times(n, size)..];
    }
  }

  lemma ChunkOfPrefix(b: bytes, m: nat, at: nat, n: nat, t: bytes)
    requires at + n <= m <= |b| && t == b[at..]
    ensures t[..n] == Chunk(b[..m], at, n)
    ensures t[n..] == b[at + n..]
  {}

  lemma FirstField(c: Config, repr: Repr, fs: seq<Field>, img: bytes, at: nat, t: bytes, r: bytes)
    requires WfFields(c, fs) && fs != [] && fs[0].skip.None?
    requires var lay := LayoutOf(fs[0].schema);
             && Gap(repr, at, lay.align) == 0
             && Decode(c, Plain, fs[0].schema, t) == Ok(Reinterpret(c, fs[0].schema, Chunk(img, at, lay.size)), r)
             && DecodeFields(c, Plain, fs[1..], r).Ok?
             && DecodeFields(c, Plain, fs[1..], r).value == ReinterpretFields(c, repr, fs[1..], img, at + lay.size)
    ensures DecodeFields(c, Plain, fs, t) == Ok(ReinterpretFields(c, repr, fs, img, at), DecodeFields(c, Plain, fs[1..], r).rest)
  {
    hide Decode, Reinterpret, Wf, LayoutOf, Gap, Chunk;
  }

  lemma SkippedField(c: Config, repr: Repr, fs: seq<Field>, img: bytes, at: nat, t: bytes)
    requires WfFields(c, fs) && fs != [] && fs[0].skip.Some?
    requires var lay := LayoutOf(fs[0].schema);
             && Gap(repr, at, lay.align) == 0 && lay.size == 0
             && DecodeFields(c, Plain, fs[1..], t).Ok?
             && DecodeFields(c, Plain, fs[1..], t).value == ReinterpretFields(c, repr, fs[1..], img, at)
    ensures DecodeFields(c, Plain, fs, t) == Ok(ReinterpretFields(c, repr, fs, img, at), DecodeFields(c, Plain, fs[1..], t).rest)
  {
    hide Decode, Reinterpret, Wf, LayoutOf, Gap, Chunk;
  }

  lemma NoFields(c: Config, repr: Repr, img: bytes, at: nat, t: bytes)
    ensures DecodeFields(c, Plain, [], t) == Ok(ReinterpretFields(c, repr, [], img, at), t)
  {}

  lemma {:induction false} ReinterpretFieldsIsDecode(c: Config, repr: Repr, fs: seq<Field>, b: bytes, m: nat, at: nat, t: bytes)
    requires WfFields(c, fs) && IsZeroCopy(Join(FieldMetas(c, Reading, fs))) && Packed(repr, fs, at)
    requires at + Total(FieldMetas(c, Reading, fs)) <= m <= |b| && t == b[at..]
    ensures var d := DecodeFields(c, Plain, fs, t);
            && d.Ok?
            && d.value == ReinterpretFields(c, repr, fs, b[..m], at)
            && d.rest == b[at + Total(FieldMetas(c, Reading, fs))..]
    decreases fs, 0, 0
  {
    hide Decode, DecodeFields, Reinterpret, ReinterpretFields, Wf, Meta, LayoutOf, Chunk, Gap;
    if fs == [] {
      NoFields(c, repr, b[..m], at, t);
    } else {
      JoinHead(c, Reading, fs);
      if fs[0].skip.Some? {
        ReinterpretFieldsIsDecode(c, repr, fs[1..], b, m, at, t);
        SkippedField(c, repr, fs, b[..m], at, t);
      } else {
        assert fs[0].schema < fs[0];
        var size := LayoutOf(fs[0].schema).size;
        ReinterpretIsDecode(c, fs[0].schema, t);
        ChunkOfPrefix(b, m, at, size, t);
        ReinterpretFieldsIsDecode(c, repr, fs[1..], b, m, at + size, t[size..]);
        FirstField(c, repr, fs, b[..m], at, t, t[size..]);
      }
    }
  }

  // Writing: the memory image is the encoding, whatever the padding bytes

  lemma {:induction false} ImageSize(c: Config, pad: byte, s: Schema, v: Value)
    requires WellTyped(s, v)
    ensures |Image(c, pad, s, v)| == LayoutOf(s).size
    decreases s, v
  {
    match s
    case ArrS(_, e) => ImageAllSize(c, pad, e, v.vs);
    case StructS(repr, fs) =>
      if !repr.RustRepr? {
        ImageFieldsSize(c, pad, repr, fs, v.vs, 0);
        var ls := FieldLayouts(fs);
        RoundUpAtLeast(EndOf(ls, 0), LayoutOf(s).align);
      }
    case DefaultOnEmptyS(e, _) => ImageSize(c, pad, e, v);
    case _ =>
  }

  lemma {:induction false} ImageAllSize(c: Config, pad: byte, e: Schema, vs: seq<Value>)
    requires AllTyped(e, vs)
    ensures |ImageAll(c, pad, e, vs)| == Times(|vs|, LayoutOf(e).size)
    decreases e, vs
  {
    if vs != [] {
      TimesStep(|vs|, LayoutOf(e).size);
      ImageSize(c, pad, e, vs[0]);
      ImageAllSize(c, pad, e, vs[1..]);
    }
  }

  lemma {:induction false} ImageFieldsSize(c: Config, pad: byte, repr: Repr, fs: seq<Field>, vs: seq<Value>, at: nat)
    requires FieldsTyped(fs, vs) && !repr.RustRepr?
    ensures at + |ImageFields(c, pad, repr, fs, vs, at)|
            == if repr.C? then EndOf(FieldLayouts(fs), at) else at + TotalSize(FieldLayouts(fs))
    decreases fs, vs
  {
    if fs != [] {
      assert fs[0].schema < fs[0];
      var lay := LayoutOf(fs[0].schema);
      assert FieldLayouts(fs)[1..] == FieldLayouts(fs[1..]);
      RoundUpAtLeast(at, lay.align);
      ImageSize(c, pad, fs[0].schema, vs[0]);
      ImageFieldsSize(c, pad, repr, fs[1..], vs[1..], at + Gap(repr, at, lay.align) + lay.size);
    }
  }

  /** Behind the fields of a struct as large as its fields there is no padding. */
  lemma PackedImage(c: Config, pad: byte, s: Schema, v: Value)
    requires s.StructS? && !s.repr.RustRepr? && WellTyped(s, v)
    requires LayoutOf(s).size == TotalSize(FieldLayouts(s.fields))
    ensures |ImageFields(c, pad, s.repr, s.fields, v.vs, 0)| == LayoutOf(s).size
  {
    var ls := FieldLayouts(s.fields);
    EndAtLeastTotal(ls, 0);
    RoundUpAtLeast(EndOf(ls, 0), LayoutOf(s).align);
    ImageFieldsSize(c, pad, s.repr, s.fields, v.vs, 0);
  }

  /** The memory image of a zero-copy value is its encoding, and holds no padding byte. */
  lemma {:induction false} ImageIsEncoding(c: Config, pad: byte, s: Schema, v: Value)
    requires Wf(c, s) && WellTyped(s, v) && IsZeroCopy(Meta(c, Writing, s))
    ensures Encode(c, s, v) == Wrote(Image(c, pad, s, v))
    decreases s, v
  {
    match s
    case IntS(k) =>
      if k.width == 1 {
        OneByteImage(c.ints.order, c.platform, k.Cast(v.i));
      }
    case BoolS =>
    case ArrS(_, e) => ImageAllIsEncoding(c, pad, e, v.vs);
    case StructS(repr, fs) =>
      ImageSize(c, pad, s, v);
      if fs != [] {
        ZeroCopyStructIsPacked(c, Writing, s);
        ImageFieldsIsEncoding(c, pad, repr, fs, v.vs, 0);
        PackedImage(c, pad, s, v);
        var body := ImageFields(c, pad, repr, fs, v.vs, 0);
        assert body + [] == body;
      }
    case EnumS(_, _, _) => EnumNeverZeroCopy(c, Writing, s);
    case DefaultOnEmptyS(e, _) => ImageIsEncoding(c, pad, e, v);
    case _ =>
  }

  lemma OneByteImage(o: Endian, o': Endian, n: nat)
    ensures ToBytes(o, n, 1) == ToBytes(o', n, 1)
  {
    assert LittleBytes(n, 1) == [n % 256] + LittleBytes(n / 256, 0);
    assert BigBytes(n, 1) == BigBytes(n / 256, 0) + [n % 256];
  }

  /** Copying a slice of zero-copy elements in bulk writes what the element loop writes. */
  lemma {:induction false} ImageAllIsEncoding(c: Config, pad: byte, e: Schema, vs: seq<Value>)
    requires Wf(c, e) && AllTyped(e, vs) && IsZeroCopy(Meta(c, Writing, e))
    ensures EncodeAll(c, e, vs) == Wrote(ImageAll(c, pad, e, vs))
    decreases e, vs
  {
    if vs != [] {
      ImageIsEncoding(c, pad, e, vs[0]);
      ImageAllIsEncoding(c, pad, e, vs[1..]);
    }
  }

  lemma {:induction false} ImageFieldsIsEncoding(c: Config, pad: byte, repr: Repr, fs: seq<Field>, vs: seq<Value>, at: nat)
    requires WfFields(c, fs) && FieldsTyped(fs, vs)
    requires IsZeroCopy(Join(FieldMetas(c, Writing, fs))) && Packed(repr, fs, at)
    ensures EncodeFields(c, fs, vs) == Wrote(ImageFields(c, pad, repr, fs, vs, at))
    decreases fs, vs
  {
    hide Encode, Image, Wf, Meta, LayoutOf, WellTyped, Gap;
    if fs != [] {
      assert fs[0].schema < fs[0];
      JoinHead(c, Writing, fs);
      var lay := LayoutOf(fs[0].schema);
      ImageFieldsIsEncoding(c, pad, repr, fs[1..], vs[1..], at + lay.size);
      var first := Image(c, pad, fs[0].schema, vs[0]);
      var rest := ImageFields(c, pad, repr, fs[1..], vs[1..], at + lay.size);
      assert ImageFields(c, pad, repr, fs, vs, at) == first + rest by {
        assert Fill(0, pad) + first == first;
      }
      if fs[0].skip.Some? {
        ImageSize(c, pad, fs[0].schema, vs[0]);
        assert first + rest == rest;
      } else {
        ImageIsEncoding(c, pad, fs[0].schema, vs[0]);
      }
    }
  }
}
