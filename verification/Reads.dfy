/** The code that reads: methods that move a reader, proved against the decoding functions. */
module Reads {
  import opened Prim
  import opened IntEncoding
  import opened TypeMetas
  import opened Schemas
  import opened Lens
  import opened Memory
  import opened Codec
  import opened Extension
  import opened StaticSize
  import opened RoundTrip
  import opened Readers

  // A window inside a window is the outer window itself

  /** The same value and rest, or the same error. */
  ghost predicate SameOutcome<T>(d: Parsed<T>, d': Parsed<T>) {
    match (d, d')
    case (Ok(v, rest), Ok(v', rest')) => v == v' && rest == rest'
    case (Fail(e, _), Fail(e', _)) => e == e'
    case _ => false
  }

  lemma WindowIsPrefix<T>(inside: Parsed<T>, direct: Parsed<T>, b: bytes, n: nat)
    requires n <= |b| && Exact(inside, b[..n], n) && Stable(inside, direct, b[..n], b[n..])
    ensures SameOutcome(inside.After(b[n..]), direct)
  {
    if inside.Ok? {
      assert inside.rest == [];
      assert [] + b[n..] == b[n..];
    }
  }

  /** Reading static fields directly from an unchecked reader stays inside the window that was
      promised for them and fills it exactly. */
  lemma NestedFields(c: Config, fs: seq<Field>, b: bytes)
    requires WfFields(c, fs) && RoomyFields(c, fs) && Holds(FieldMetas(c, Reading, fs)) && Join(FieldMetas(c, Reading, fs)).Static?
    requires Join(FieldMetas(c, Reading, fs)).size <= |b|
    ensures SameOutcome(DecodeFieldsIn(c, Join(FieldMetas(c, Reading, fs)).size, fs, b), DecodeFields(c, Windowed, fs, b))
  {
    var n := Join(FieldMetas(c, Reading, fs)).size;
    JoinCovers(FieldMetas(c, Reading, fs));
    StaticFieldsIn(c, n, fs, b);
    StaticNoDefaultFields(c, fs);
    ExtendFields(c, Windowed, fs, b[..n], b[n..]);
    assert b[..n] + b[n..] == b;
    WindowIsPrefix(DecodeFields(c, Windowed, fs, b[..n]), DecodeFields(c, Windowed, fs, b), b, n);
  }

  lemma NestedMany(c: Config, e: Schema, n: nat, b: bytes)
    requires Wf(c, e) && Roomy(c, e) && Meta(c, Reading, e).Static?
    requires Times(n, Meta(c, Reading, e).size) <= |b| < USIZE
    ensures SameOutcome(DecodeManyIn(c, e, n, Meta(c, Reading, e).size, b), DecodeMany(c, Windowed, e, n, b))
  {
    var m := Times(n, Meta(c, Reading, e).size);
    StaticManyIn(c, e, n, b);
    StaticNoDefault(c, e);
    ExtendMany(c, Windowed, e, n, b[..m], b[m..]);
    assert b[..m] + b[m..] == b;
    WindowIsPrefix(DecodeMany(c, Windowed, e, n, b[..m]), DecodeMany(c, Windowed, e, n, b), b, m);
  }

  // Loops that carry what was read so far

  ghost function Prepend<T>(got: seq<T>, d: Parsed<seq<T>>): Parsed<seq<T>> {
    match d
    case Ok(vs, rest) => Ok(got + vs, rest)
    case Fail(e, at) => Fail(e, at)
  }

  lemma PrependNothing<T>(d: Parsed<seq<T>>)
    ensures Prepend([], d) == d
  {
    if d.Ok? {
      assert [] + d.value == d.value;
    }
  }

  lemma PrependOne<T>(got: seq<T>, v: T, d: Parsed<seq<T>>)
    ensures Prepend(got, Prepend([v], d)) == Prepend(got + [v], d)
  {
    if d.Ok? {
      assert got + ([v] + d.value) == got + [v] + d.value;
    }
  }

  lemma NextElement(c: Config, e: Schema, n: nat, b: bytes, got: seq<Value>)
    requires Wf(c, e) && n > 0
    ensures var d := Decode(c, Windowed, e, b);
            Prepend(got, DecodeMany(c, Windowed, e, n, b))
            == match d
               case Ok(v, rest) => Prepend(got + [v], DecodeMany(c, Windowed, e, n - 1, rest))
               case Fail(x, at) => Fail(x, at)
  {
    var d := Decode(c, Windowed, e, b);
    if d.Ok? {
      PrependOne(got, d.value, DecodeMany(c, Windowed, e, n - 1, d.rest));
    }
  }

  lemma LastElement(c: Config, e: Schema, b: bytes, got: seq<Value>)
    requires Wf(c, e)
    ensures Prepend(got, DecodeMany(c, Windowed, e, 0, b)) == Ok(got, b)
  {
    assert got + [] == got;
  }

  lemma NextEntry(c: Config, p: EntrySchema, n: nat, b: bytes, got: seq<Entry>)
    requires Wf(c, p.key) && Wf(c, p.val) && n > 0
    ensures var d := DecodeEntry(c, Windowed, p, b);
            Prepend(got, DecodeEntries(c, Windowed, p, n, b))
            == match d
               case Ok(v, rest) => Prepend(got + [v], DecodeEntries(c, Windowed, p, n - 1, rest))
               case Fail(x, at) => Fail(x, at)
  {
    var d := DecodeEntry(c, Windowed, p, b);
    if d.Ok? {
      PrependOne(got, d.value, DecodeEntries(c, Windowed, p, n - 1, d.rest));
    }
  }

  // Slots of uninitialised memory

  function Initialised(vs: seq<Value>): (slots: seq<Option<Value>>)
    ensures |slots| == |vs| && forall i | 0 <= i < |vs| :: slots[i] == Some(vs[i])
  {
    seq(|vs|, i requires 0 <= i < |vs| => Some(vs[i]))
  }

  function Assumed(slots: seq<Option<Value>>): (vs: seq<Value>)
    requires forall i | 0 <= i < |slots| :: slots[i].Some?
    ensures Initialised(vs) == slots
  {
    seq(|slots|, i requires 0 <= i < |slots| => slots[i].value)
  }

  lemma InitialisedInjective(vs: seq<Value>, vs': seq<Value>)
    requires Initialised(vs) == Initialised(vs')
    ensures vs == vs'
  {
    forall i | 0 <= i < |vs|
      ensures vs[i] == vs'[i]
    {
      assert Initialised(vs)[i] == Initialised(vs')[i];
    }
  }

  // Reading every schema

  method Read(r: Reader, c: Config, s: Schema) returns (o: Result<Value>)
    requires r.Valid() && Wf(c, s) && Roomy(c, s) && NoDefault(s) && Readers.Fits(Meta(c, Reading, s), r)
    modifies r
    ensures r.Valid() && r.Paid(old(r.buf), old(r.remaining))
    ensures r.Matches(o, Decode(c, Windowed, s, old(r.Avail())))
    decreases s, 0, 0
  {
    hide DecodeInt, DecodeStr, DecodeSlice, DecodeFields, DecodeMany;
    match s
    case IntS(k) =>
      var i :- ReadInt(r, c.ints, k);
      return Done(IntV(i));
    case BoolS => o := ReadBool(r);
    case CharS =>
      var x :- ReadChar(r);
      return Done(CharV(x));
    case StrS(len, check, _, _) => o := ReadStr(r, c, len, check);
    case OptS(e, _) => o := ReadOption(r, c, s);
    case ArrS(n, e) =>
      var vs :- ReadSlice(r, c, e, n);
      return Done(ListV(vs));
    case SeqS(e, len, _, _) => o := ReadSeq(r, c, s);
    case MapS(p, len, size, _) => o := ReadMap(r, c, s);
    case StructS(_, fs) => o := ReadStruct(r, c, s);
    case EnumS(_, _, _) => o := ReadEnum(r, c, s);
    case BoxS(e) => o := Read(r, c, e);
    case DiscardS(e, d) =>
      var _ :- Read(r, c, e);
      return Done(d);
    case DiscardSeqS(_, _) => o := ReadDiscardSeq(r, c, s);
  }

  method ReadOption(r: Reader, c: Config, s: Schema) returns (o: Result<Value>)
    requires r.Valid() && s.OptS? && Wf(c, s) && Roomy(c, s) && NoDefault(s) && !r.unchecked
    modifies r
    ensures r.Valid() && r.Paid(old(r.buf), old(r.remaining))
    ensures r.Matches(o, Decode(c, Windowed, s, old(r.Avail())))
    decreases s.inner, 5, 0
  {
    var variant :- r.TakeOne();
    if variant == 0 {
      return Done(NoneV);
    } else if variant == 1 {
      var v :- Read(r, c, s.inner);
      return Done(SomeV(v));
    }
    return Error(InvalidTagEncoding(variant));
  }

  method ReadSeq(r: Reader, c: Config, s: Schema) returns (o: Result<Value>)
    requires r.Valid() && s.SeqS? && Wf(c, s) && Roomy(c, s) && NoDefault(s) && !r.unchecked
    modifies r
    ensures r.Valid() && r.Paid(old(r.buf), old(r.remaining))
    ensures r.Matches(o, Decode(c, Windowed, s, old(r.Avail())))
    decreases s.elem, 5, 0
  {
    var n :- ReadLenChecked(r, c, s.len, LayoutOf(s.elem).size);
    var vs :- ReadSlice(r, c, s.elem, n);
    return Done(ListV(vs));
  }

  /** Fill freshly reserved memory, then take it as initialised. */
  method ReadSlice(r: Reader, c: Config, e: Schema, n: nat) returns (o: Result<seq<Value>>)
    requires r.Valid() && Wf(c, e) && Roomy(c, e) && NoDefault(e)
    requires r.unchecked ==> Meta(c, Reading, e).Static? && Times(n, Meta(c, Reading, e).size) <= |r.buf|
    modifies r
    ensures r.Valid() && r.Paid(old(r.buf), old(r.remaining))
    ensures r.Matches(o, DecodeSlice(c, Windowed, e, n, old(r.Avail())))
    decreases e, 4, n
  {
    var slots := new Option<Value>[n](_ => None);
    var _ :- DecodeIntoSlice(r, c, e, slots);
    ghost var d := DecodeSlice(c, Windowed, e, n, old(r.Avail()));
    var vs := Assumed(slots[..]);
    InitialisedInjective(vs, d.value);
    return Done(vs);
  }

  /** Bulk copy, trusted window, or element by element: every slot is initialised on success. */
  method DecodeIntoSlice(r: Reader, c: Config, e: Schema, slots: array<Option<Value>>) returns (o: Result<()>)
    requires r.Valid() && Wf(c, e) && Roomy(c, e) && NoDefault(e)
    requires r.unchecked ==> Meta(c, Reading, e).Static? && Times(slots.Length, Meta(c, Reading, e).size) <= |r.buf|
    modifies r, slots
    ensures r.Valid() && r.Paid(old(r.buf), old(r.remaining))
    ensures match DecodeSlice(c, Windowed, e, slots.Length, old(r.Avail()))
            case Ok(vs, rest) => o.Done? && slots[..] == Initialised(vs) && r.Avail() == rest
            case Fail(x, _) => o == Error(x)
    decreases e, 3, slots.Length
  {
    hide Decode, DecodeMany;
    match Meta(c, Reading, e)
    case Static(_, true) =>
      ZeroCopySize(c, Reading, e);
      var img :- r.TakeBytes(Times(slots.Length, LayoutOf(e).size));
      var vs := ReinterpretAll(c, e, slots.Length, img);
      forall i | 0 <= i < slots.Length {
        slots[i] := Some(vs[i]);
      }
      assert slots[..] == Initialised(vs);
      o := Done(());
    case Static(size, false) =>
      o := FillSlotsIn(r, c, e, slots, size);
    case Dynamic =>
      o := FillSlots(r, c, e, slots);
  }

  /** Fill the slots from inside one trusted window. */
  method FillSlotsIn(r: Reader, c: Config, e: Schema, slots: array<Option<Value>>, size: nat) returns (o: Result<()>)
    requires r.Valid() && Wf(c, e) && Roomy(c, e) && NoDefault(e) && Meta(c, Reading, e).Static? && size == Meta(c, Reading, e).size
    requires r.unchecked ==> Times(slots.Length, size) <= |r.buf|
    modifies r, slots
    ensures r.Valid() && r.Paid(old(r.buf), old(r.remaining))
    ensures match DecodeManyIn(c, e, slots.Length, size, old(r.Avail()))
            case Ok(vs, rest) => o.Done? && slots[..] == Initialised(vs) && r.Avail() == rest
            case Fail(x, _) => o == Error(x)
    decreases e, 3, slots.Length, 0
  {
    hide Decode, DecodeMany;
    ghost var b := r.Avail();
    var window :- r.AsTrustedForSeq(slots.Length, size);
    if window == r {
      NestedMany(c, e, slots.Length, b);
    }
    o := FillSlots(window, c, e, slots);
  }

  method FillSlots(r: Reader, c: Config, e: Schema, slots: array<Option<Value>>) returns (o: Result<()>)
    requires r.Valid() && Wf(c, e) && Roomy(c, e) && NoDefault(e)
    requires r.unchecked ==> Meta(c, Reading, e).Static? && Times(slots.Length, Meta(c, Reading, e).size) <= |r.buf|
    modifies r, slots
    ensures r.Valid() && r.Paid(old(r.buf), old(r.remaining))
    ensures match DecodeMany(c, Windowed, e, slots.Length, old(r.Avail()))
            case Ok(vs, rest) => o.Done? && slots[..] == Initialised(vs) && r.Avail() == rest
            case Fail(x, _) => o == Error(x)
    decreases e, 2, slots.Length
  {
    hide Decode, DecodeMany, Meta, Prepend, Wf, Roomy, NoDefault;
    ghost var d := DecodeMany(c, Windowed, e, slots.Length, r.Avail());
    ghost var got: seq<Value> := [];
    var i := 0;
    PrependNothing(d);
    while i < slots.Length
      invariant 0 <= i <= slots.Length && r.Valid() && r.Paid(old(r.buf), old(r.remaining))
      invariant r.unchecked ==> Times(slots.Length - i, Meta(c, Reading, e).size) <= |r.buf|
      invariant |got| == i && slots[..i] == Initialised(got)
      invariant d == Prepend(got, DecodeMany(c, Windowed, e, slots.Length - i, r.Avail()))
    {
      ghost var b := r.Avail();
      NextElement(c, e, slots.Length - i, b, got);
      if r.unchecked {
        TimesStep(slots.Length - i, Meta(c, Reading, e).size);
        StaticRead(c, Windowed, e, b);
      }
      var v :- Read(r, c, e);
      slots[i] := Some(v);
      got := got + [v];
      i := i + 1;
      assert slots[..i] == Initialised(got);
    }
    LastElement(c, e, r.Avail(), got);
    assert slots[..] == slots[..i];
    return Done(());
  }

  method ReadDiscardSeq(r: Reader, c: Config, s: Schema) returns (o: Result<Value>)
    requires r.Valid() && s.DiscardSeqS? && Wf(c, s) && Roomy(c, s) && NoDefault(s) && !r.unchecked
    modifies r
    ensures r.Valid() && r.Paid(old(r.buf), old(r.remaining))
    ensures r.Matches(o, Decode(c, Windowed, s, old(r.Avail())))
    decreases s.elem, 5, 0
  {
    var e := s.elem;
    var n :- ReadLenChecked(r, c, s.len, LayoutOf(e).size);
    match Meta(c, Reading, e) {
      case Static(size, _) =>
        var window :- r.AsTrustedForSeq(n, size);
        var _ :- SkipMany(window, c, e, n);
      case Dynamic =>
        var _ :- SkipMany(r, c, e, n);
    }
    return Done(ListV([]));
  }

  /** Read elements only to drop them. */
  method SkipMany(r: Reader, c: Config, e: Schema, n: nat) returns (o: Result<()>)
    requires r.Valid() && Wf(c, e) && Roomy(c, e) && NoDefault(e)
    requires r.unchecked ==> Meta(c, Reading, e).Static? && Times(n, Meta(c, Reading, e).size) <= |r.buf|
    modifies r
    ensures r.Valid() && r.Paid(old(r.buf), old(r.remaining))
    ensures match DecodeMany(c, Windowed, e, n, old(r.Avail()))
            case Ok(_, rest) => o.Done? && r.Avail() == rest
            case Fail(x, _) => o == Error(x)
    decreases e, 1, n
  {
    hide Decode, DecodeMany, Meta, Prepend, Wf, Roomy, NoDefault;
    ghost var d := DecodeMany(c, Windowed, e, n, r.Avail());
    ghost var got: seq<Value> := [];
    PrependNothing(d);
    for i := 0 to n
      invariant r.Valid() && r.Paid(old(r.buf), old(r.remaining))
      invariant r.unchecked ==> Times(n - i, Meta(c, Reading, e).size) <= |r.buf|
      invariant d == Prepend(got, DecodeMany(c, Windowed, e, n - i, r.Avail()))
    {
      ghost var b := r.Avail();
      NextElement(c, e, n - i, b, got);
      if r.unchecked {
        TimesStep(n - i, Meta(c, Reading, e).size);
        StaticRead(c, Windowed, e, b);
      }
      var v :- Read(r, c, e);
      got := got + [v];
    }
    LastElement(c, e, r.Avail(), got);
    return Done(());
  }

  method ReadMap(r: Reader, c: Config, s: Schema) returns (o: Result<Value>)
    requires r.Valid() && s.MapS? && Wf(c, s) && Roomy(c, s) && NoDefault(s) && !r.unchecked
    modifies r
    ensures r.Valid() && r.Paid(old(r.buf), old(r.remaining))
    ensures r.Matches(o, Decode(c, Windowed, s, old(r.Avail())))
    decreases s.entry, 5, 0
  {
    var p := s.entry;
    var n :- ReadLenChecked(r, c, s.len, s.entrySize);
    var es :- ReadEntries(r, c, p, n);
    return Done(MapV(es));
  }

  method ReadEntries(r: Reader, c: Config, p: EntrySchema, n: nat) returns (o: Result<seq<Entry>>)
    requires Roomy(c, p.key) && Roomy(c, p.val)
    requires r.Valid() && Wf(c, p.key) && Wf(c, p.val) && NoDefault(p.key) && NoDefault(p.val) && !r.unchecked
    modifies r
    ensures r.Valid() && r.Paid(old(r.buf), old(r.remaining))
    ensures match DecodeMap(c, Windowed, p, n, old(r.Avail()))
            case Ok(es, rest) => o == Done(Collect(es)) && r.Avail() == rest
            case Fail(x, _) => o == Error(x)
    decreases p, 2, n
  {
    hide Decode, DecodeEntries, Collect;
    match (Meta(c, Reading, p.key), Meta(c, Reading, p.val))
    case (Static(k, _), Static(v, _)) =>
      if k + v >= USIZE {
        return Error(LengthEncodingOverflow);
      }
      var window :- r.AsTrustedForSeq(n, k + v);
      o := InsertMany(window, c, p, n);
    case _ =>
      o := InsertMany(r, c, p, n);
  }

  /** Read entries and insert each into the map. */
  method InsertMany(r: Reader, c: Config, p: EntrySchema, n: nat) returns (o: Result<seq<Entry>>)
    requires Roomy(c, p.key) && Roomy(c, p.val)
    requires r.Valid() && Wf(c, p.key) && Wf(c, p.val) && NoDefault(p.key) && NoDefault(p.val)
    requires r.unchecked ==>
               && Meta(c, Reading, p.key).Static? && Meta(c, Reading, p.val).Static?
               && Times(n, Meta(c, Reading, p.key).size + Meta(c, Reading, p.val).size) <= |r.buf|
    modifies r
    ensures r.Valid() && r.Paid(old(r.buf), old(r.remaining))
    ensures match DecodeEntries(c, Windowed, p, n, old(r.Avail()))
            case Ok(es, rest) => o == Done(Collect(es)) && r.Avail() == rest
            case Fail(x, _) => o == Error(x)
    decreases p, 1, n
  {
    hide Decode, DecodeEntry, Meta, Wf, Roomy, NoDefault;
    ghost var d := DecodeEntries(c, Windowed, p, n, r.Avail());
    ghost var got: seq<Entry> := [];
    PrependNothing(d);
    var es: seq<Entry> := [];
    for i := 0 to n
      invariant r.Valid() && r.Paid(old(r.buf), old(r.remaining))
      invariant r.unchecked ==> Times(n - i, Meta(c, Reading, p.key).size + Meta(c, Reading, p.val).size) <= |r.buf|
      invariant es == Collect(got)
      invariant d == Prepend(got, DecodeEntries(c, Windowed, p, n - i, r.Avail()))
    {
      ghost var b := r.Avail();
      NextEntry(c, p, n - i, b, got);
      if r.unchecked {
        TimesStep(n - i, Meta(c, Reading, p.key).size + Meta(c, Reading, p.val).size);
      }
      var e :- ReadEntry(r, c, p);
      es := Insert(es, e);
      assert (got + [e])[..|got|] == got;
      got := got + [e];
    }
    assert got + [] == got;
    return Done(es);
  }

  method ReadEntry(r: Reader, c: Config, p: EntrySchema) returns (o: Result<Entry>)
    requires Roomy(c, p.key) && Roomy(c, p.val)
    requires r.Valid() && Wf(c, p.key) && Wf(c, p.val) && NoDefault(p.key) && NoDefault(p.val)
    requires r.unchecked ==>
               && Meta(c, Reading, p.key).Static? && Meta(c, Reading, p.val).Static?
               && Meta(c, Reading, p.key).size + Meta(c, Reading, p.val).size <= |r.buf|
    modifies r
    ensures r.Valid() && r.Paid(old(r.buf), old(r.remaining))
    ensures r.Matches(o, DecodeEntry(c, Windowed, p, old(r.Avail())))
    ensures r.unchecked && o.Done? ==> |old(r.buf)| == |r.buf| + Meta(c, Reading, p.key).size + Meta(c, Reading, p.val).size
    decreases p, 0, 0
  {
    ghost var b := r.Avail();
    if r.unchecked {
      StaticRead(c, Windowed, p.key, b);
      StaticEntry(c, Windowed, p, b);
    }
    var k :- Read(r, c, p.key);
    var v :- Read(r, c, p.val);
    return Done(Entry(k, v));
  }

  method ReadStruct(r: Reader, c: Config, s: Schema) returns (o: Result<Value>)
    requires r.Valid() && s.StructS? && Wf(c, s) && Roomy(c, s) && NoDefault(s) && Readers.Fits(Meta(c, Reading, s), r)
    modifies r
    ensures r.Valid() && r.Paid(old(r.buf), old(r.remaining))
    ensures r.Matches(o, Decode(c, Windowed, s, old(r.Avail())))
    decreases s.fields, 2, 0
  {
    var vs: seq<Value>;
    match Meta(c, Reading, s) {
      case Static(size, _) =>
        vs :- ReadFieldsIn(r, c, s.fields, size);
      case Dynamic =>
        vs :- ReadFields(r, c, s.fields);
    }
    return Done(ListV(vs));
  }

  /** Read static fields inside a trusted window. */
  method ReadFieldsIn(r: Reader, c: Config, fs: seq<Field>, size: nat) returns (o: Result<seq<Value>>)
    requires r.Valid() && WfFields(c, fs) && RoomyFields(c, fs) && NoDefaultFields(fs)
    requires Join(FieldMetas(c, Reading, fs)).Static? && size == Join(FieldMetas(c, Reading, fs)).size
    requires Holds(FieldMetas(c, Reading, fs))
    requires r.unchecked ==> size <= |r.buf|
    modifies r
    ensures r.Valid() && r.Paid(old(r.buf), old(r.remaining))
    ensures r.Matches(o, DecodeFieldsIn(c, size, fs, old(r.Avail())))
    decreases fs, 1, 0
  {
    ghost var b := r.Avail();
    var window :- r.AsTrustedFor(size);
    if window == r {
      NestedFields(c, fs, b);
    }
    JoinCovers(FieldMetas(c, Reading, fs));
    o := ReadFields(window, c, fs);
  }

  method ReadFields(r: Reader, c: Config, fs: seq<Field>) returns (o: Result<seq<Value>>)
    requires r.Valid() && WfFields(c, fs) && RoomyFields(c, fs) && NoDefaultFields(fs)
    requires r.unchecked ==> Join(FieldMetas(c, Reading, fs)).Static? && Total(FieldMetas(c, Reading, fs)) <= |r.buf|
    modifies r
    ensures r.Valid() && r.Paid(old(r.buf), old(r.remaining))
    ensures r.Matches(o, DecodeFields(c, Windowed, fs, old(r.Avail())))
    decreases fs, 0, 0
  {
    if fs == [] {
      return Done([]);
    }
    var v: Value;
    match fs[0].skip {
      case Some(d) =>
        v := d;
      case None =>
        assert fs[0].schema < fs[0];
        if r.unchecked {
          JoinCons(Meta(c, Reading, fs[0].schema), FieldMetas(c, Reading, fs[1..]));
          StaticRead(c, Windowed, fs[0].schema, r.Avail());
        }
        v :- Read(r, c, fs[0].schema);
    }
    var vs :- ReadFields(r, c, fs[1..]);
    return Done([v] + vs);
  }

  method ReadEnum(r: Reader, c: Config, s: Schema) returns (o: Result<Value>)
    requires r.Valid() && s.EnumS? && Wf(c, s) && Roomy(c, s) && NoDefault(s) && Readers.Fits(Meta(c, Reading, s), r)
    modifies r
    ensures r.Valid() && r.Paid(old(r.buf), old(r.remaining))
    ensures r.Matches(o, Decode(c, Windowed, s, old(r.Avail())))
    decreases s.variants, 5, 0
  {
    var vs := s.variants;
    if vs == [] {
      return Error(InvalidValue);
    }
    if r.unchecked {
      RoomyStatic(c, s, 0);
      TagExact(c, s.tag, r.Avail());
    }
    var t :- ReadTag(r, c, s.tag);
    match FindVariant(vs, t, 0)
    case None => return Error(InvalidTagEncoding(t % USIZE));
    case Some(k) =>
      WfVariant(c, s.tag, vs, 0, k);
      NoDefaultVariant(vs, k);
      RoomyChoice(c, s, k);
      if r.unchecked {
        RoomyStatic(c, s, k);
      }
      var fields :- ReadVariant(r, c, vs[k].fields);
      return Done(EnumV(k, fields));
  }

  method ReadVariant(r: Reader, c: Config, fs: seq<Field>) returns (o: Result<seq<Value>>)
    requires r.Valid() && WfFields(c, fs) && RoomyFields(c, fs) && NoDefaultFields(fs)
    requires Holds(FieldMetas(c, Reading, fs))
    requires Readers.Fits(Join(FieldMetas(c, Reading, fs)), r)
    modifies r
    ensures r.Valid() && r.Paid(old(r.buf), old(r.remaining))
    ensures r.Matches(o, DecodeVariant(c, Windowed, fs, old(r.Avail())))
    decreases fs, 2, 0
  {
    match Join(FieldMetas(c, Reading, fs))
    case Static(size, _) => o := ReadFieldsIn(r, c, fs, size);
    case Dynamic => o := ReadFields(r, c, fs);
  }
}
