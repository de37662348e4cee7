/** Records with optional trailing fields, read by the moving reader. */
module Records {
  import opened Prim
  import opened Schemas
  import opened Codec
  import opened Extension
  import opened Windows
  import opened RoundTrip
  import opened Guarantees
  import opened Readers
  import opened Reads

  // Where a default does not see the windows

  lemma NothingLeft(c: Config, w: Mode, e: Schema)
    requires Wf(c, e) && NoDefault(e)
    ensures var d := Decode(c, w, e, []);
            match d case Ok(_, rest) => rest == [] case Fail(_, at) => at == []
  {
    hide Decode;
    Extend(c, w, e, [], []);
  }

  /** A default over an integer, boolean, character or string agrees on every input: such a read
      opens no window. */
  lemma DefaultOfScalarAgrees(c: Config, s: Schema, b: bytes)
    requires s.DefaultOnEmptyS? && Wf(c, s)
    requires s.inner.IntS? || s.inner.BoolS? || s.inner.CharS? || s.inner.StrS?
    ensures Decode(c, Windowed, s, b) == Decode(c, Plain, s, b)
  {
    assert Decode(c, Windowed, s.inner, b) == Decode(c, Plain, s.inner, b);
  }

  /** Any other default agrees on every input that is empty or starts with a whole value, if some
      value `v` has a non-empty encoding. */
  lemma DefaultAgrees(c: Config, s: Schema, v: Value, b: bytes)
    requires s.DefaultOnEmptyS? && Wf(c, s) && Roomy(c, s) && NoDefault(s.inner) && |b| < USIZE
    requires WellTyped(s.inner, v) && Readable(c, s.inner, v)
    requires Encode(c, s.inner, v).Wrote? && 0 < |Encode(c, s.inner, v).value| < USIZE
    requires b == [] || Decode(c, Plain, s.inner, b).Ok?
    ensures Decode(c, Windowed, s, b).Ok? && Decode(c, Windowed, s, b) == Decode(c, Plain, s, b)
  {
    var e := Encode(c, s.inner, v).value;
    assert [] + e == e;
    WindowedAgrees(c, s.inner, b);
    PrefixRunsOut(c, Windowed, s.inner, v, [], e);
    PrefixRunsOut(c, Plain, s.inner, v, [], e);
    NothingLeft(c, Windowed, s.inner);
    NothingLeft(c, Plain, s.inner);
    DefaultOf(c, Windowed, s, b);
    DefaultOf(c, Plain, s, b);
  }

  lemma DefaultOf(c: Config, w: Mode, s: Schema, b: bytes)
    requires s.DefaultOnEmptyS? && Wf(c, s)
    ensures Wf(c, s.inner)
    ensures Decode(c, w, s, b) == match Decode(c, w, s.inner, b)
                                  case Ok(v, r) => Ok(v, r)
                                  case Fail(e, at) => if e.ReadSizeLimit? then Ok(s.dflt, at) else Fail(e, at)
  {}

  predicate RunsOut<T>(d: Parsed<T>) { d.Fail? && d.error.ReadSizeLimit? }

  /** In general, the outcomes agree exactly when neither inner read runs out of input, or both do and
      stop at the same place. */
  lemma DefaultAgreesExactly(c: Config, s: Schema, b: bytes)
    requires s.DefaultOnEmptyS? && Wf(c, s) && Roomy(c, s) && NoDefault(s.inner) && |b| < USIZE
    ensures var d, d' := Decode(c, Windowed, s.inner, b), Decode(c, Plain, s.inner, b);
            Agrees(Decode(c, Windowed, s, b), Decode(c, Plain, s, b))
            <==> if RunsOut(d) then RunsOut(d') && d.at == d'.at else !RunsOut(d')
  {
    hide Decode;
    WindowedAgrees(c, s.inner, b);
    DefaultOf(c, Windowed, s, b);
    DefaultOf(c, Plain, s, b);
  }

  // The moving reader

  /** Reading the optional fields `ts` from `b` takes a default only where the input has ended. */
  ghost predicate DefaultsAtEnd(c: Config, ts: seq<Field>, b: bytes)
    requires WfFields(c, ts) && OptionalTail(ts)
    decreases ts
  {
    ts == [] ||
    (assert Wf(c, ts[0].schema);
     match Decode(c, Windowed, ts[0].schema.inner, b)
     case Ok(_, rest) => DefaultsAtEnd(c, ts[1..], rest)
     case Fail(e, _) => e.ReadSizeLimit? ==> b == [] && DefaultsAtEnd(c, ts[1..], []))
  }

  lemma {:induction false} EmptyDefaultsAtEnd(c: Config, ts: seq<Field>)
    requires WfFields(c, ts) && OptionalTail(ts)
    ensures DefaultsAtEnd(c, ts, [])
    decreases ts
  {
    if ts != [] {
      NothingLeft(c, Windowed, ts[0].schema.inner);
      EmptyDefaultsAtEnd(c, ts[1..]);
    }
  }

  /** Read one optional field: a size-limit error becomes the default. */
  method ReadOptionalField(r: Reader, c: Config, s: Schema) returns (o: Result<Value>)
    requires r.Valid() && !r.unchecked && s.DefaultOnEmptyS? && Wf(c, s) && Roomy(c, s) && NoDefault(s.inner)
    modifies r
    ensures r.Valid() && r.Paid(old(r.buf), old(r.remaining))
    ensures match Decode(c, Windowed, s.inner, old(r.Avail()))
            case Ok(v, rest) => o == Done(v) && r.Avail() == rest
            case Fail(e, _) => o == if e.ReadSizeLimit? then Done(s.dflt) else Error(e)
    ensures old(r.Avail()) == [] ==> r.Avail() == []
  {
    hide Decode;
    NothingLeft(c, Windowed, s.inner);
    o := Read(r, c, s.inner);
    if o.Error? && o.error.ReadSizeLimit? {
      return Done(s.dflt);
    }
  }

  lemma OptionalStep(c: Config, ts: seq<Field>, b: bytes)
    requires ts != [] && WfFields(c, ts) && OptionalTail(ts) && DefaultsAtEnd(c, ts, b)
    ensures Wf(c, ts[0].schema) && Wf(c, ts[0].schema.inner)
    ensures var d := Decode(c, Windowed, ts[0].schema.inner, b);
            DecodeFields(c, Windowed, ts, b)
            == if d.Fail? && !d.error.ReadSizeLimit? then Fail(d.error, d.at)
               else
                 var (v, rest) := if d.Ok? then (d.value, d.rest) else (ts[0].schema.dflt, []);
                 match DecodeFields(c, Windowed, ts[1..], rest)
                 case Fail(e, at) => Fail(e, at)
                 case Ok(vs, r) => Ok([v] + vs, r)
  {
    hide Decode;
    DefaultOf(c, Windowed, ts[0].schema, b);
    NothingLeft(c, Windowed, ts[0].schema.inner);
  }

  method ReadTail(r: Reader, c: Config, ts: seq<Field>) returns (o: Result<seq<Value>>)
    requires r.Valid() && !r.unchecked && WfFields(c, ts) && RoomyFields(c, ts) && OptionalTail(ts)
    modifies r
    ensures r.Valid() && r.Paid(old(r.buf), old(r.remaining))
    ensures DefaultsAtEnd(c, ts, old(r.Avail())) ==> r.Matches(o, DecodeFields(c, Windowed, ts, old(r.Avail())))
    decreases ts
  {
    hide Decode;
    if ts == [] {
      return Done([]);
    }
    ghost var b := r.Avail();
    if DefaultsAtEnd(c, ts, b) {
      OptionalStep(c, ts, b);
    }
    var v :- ReadOptionalField(r, c, ts[0].schema);
    var vs :- ReadTail(r, c, ts[1..]);
    return Done([v] + vs);
  }

  /** Read a record whose last fields are optional: what is read, from any reader, is the decoded
      record wherever defaults are taken at the end of input only - so for a full record and for
      one cut before any optional field. */
  method ReadRecord(r: Reader, c: Config, hs: seq<Field>, ts: seq<Field>) returns (o: Result<seq<Value>>)
    requires r.Valid() && !r.unchecked && WfFields(c, hs) && NoDefaultFields(hs) && WfFields(c, ts) && OptionalTail(ts)
    requires RoomyFields(c, hs) && RoomyFields(c, ts)
    modifies r
    ensures r.Valid() && r.Paid(old(r.buf), old(r.remaining)) && WfFields(c, hs + ts)
    ensures var d := DecodeFields(c, Windowed, hs, old(r.Avail()));
            match d
            case Fail(e, _) => o == Error(e)
            case Ok(_, rest) =>
              DefaultsAtEnd(c, ts, rest) && DecodeFields(c, Windowed, ts, rest).Ok? ==>
                r.Matches(o, DecodeFields(c, Windowed, hs + ts, old(r.Avail())))
  {
    hide Decode, DecodeFields;
    WfAppend(c, hs, ts);
    ghost var b := r.Avail();
    var first :- ReadFields(r, c, hs);
    ghost var rest := r.Avail();
    if DecodeFields(c, Windowed, ts, rest).Ok? {
      DecodeAppend(c, Windowed, hs, ts, b);
    }
    var last :- ReadTail(r, c, ts);
    return Done(first + last);
  }

  /** An old record, cut before `ts`: the reader at the end of the encoding of `hs` yields the
      fields as written and the defaults. */
  method ReadOldRecord(r: Reader, c: Config, hs: seq<Field>, ghost hv: seq<Value>, ts: seq<Field>, ghost tv: seq<Value>) returns (o: Result<seq<Value>>)
    requires r.Valid() && !r.unchecked && NoDefaultFields(hs) && RoomyFields(c, hs) && RoomyFields(c, ts)
    requires WfFields(c, hs) && FieldsTyped(hs, hv) && ReadableFields(c, hs, hv) && EncodeFields(c, hs, hv) == Wrote(r.Avail())
    requires WfFields(c, ts) && FieldsTyped(ts, tv) && OptionalTail(ts) && NonEmptyEncodings(c, ts, tv)
    modifies r
    ensures o == Done(SettledFields(hs, hv) + Defaults(ts)) && r.Avail() == []
  {
    hide Decode, DecodeFields, EncodeFields;
    ghost var b := r.Avail();
    assert b + [] == b;
    FieldsBack(c, Windowed, hs, hv, []);
    CutFields(c, Windowed, hs, hv, ts, tv);
    AllDefaults(c, Windowed, ts, tv);
    EmptyDefaultsAtEnd(c, ts);
    o := ReadRecord(r, c, hs, ts);
  }
}
