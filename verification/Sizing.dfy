/** The generated sizing code: totals accumulated field by field. */
module Sizing {
  import opened Prim
  import opened TypeMetas
  import opened Schemas
  import opened Lens
  import opened Codec
  import opened StaticSize

  function Plus(total: nat, n: Written<nat>): Written<nat> {
    match n
    case Wrote(m) => Wrote(WrappingAdd(total, m))
    case Refused(e) => Refused(e)
  }

  lemma {:induction false} TypedLength(fs: seq<Field>, vs: seq<Value>)
    requires FieldsTyped(fs, vs)
    ensures |vs| == |fs|
  {
    if fs != [] {
      TypedLength(fs[1..], vs[1..]);
    }
  }

  lemma SizeStep(c: Config, fs: seq<Field>, vs: seq<Value>)
    requires fs != [] && WfFields(c, fs) && FieldsTyped(fs, vs)
    ensures Wf(c, fs[0].schema) && WellTyped(fs[0].schema, vs[0])
    ensures fs[0].skip.Some? ==> SizeOfFields(c, fs, vs) == SizeOfFields(c, fs[1..], vs[1..])
    ensures fs[0].skip.None? ==>
              SizeOfFields(c, fs, vs) == match SizeOf(c, fs[0].schema, vs[0])
                                         case Refused(e) => Refused(e)
                                         case Wrote(n) => Plus(n, SizeOfFields(c, fs[1..], vs[1..]))
  {}

  lemma {:induction false} SumIsAddress(c: Config, fs: seq<Field>, vs: seq<Value>)
    requires WfFields(c, fs) && FieldsTyped(fs, vs) && SizeOfFields(c, fs, vs).Wrote?
    ensures SizeOfFields(c, fs, vs).value < USIZE
    decreases fs
  {
    hide SizeOf, Wf;
    if fs != [] && fs[0].skip.Some? {
      SumIsAddress(c, fs[1..], vs[1..]);
    }
  }

  lemma PlusPlus(total: nat, n: nat, rest: Written<nat>)
    ensures Plus(total, Plus(n, rest)) == Plus(WrappingAdd(total, n), rest)
  {
    if rest.Wrote? {
      WrappedSum(total, n + rest.value);
      WrappedSum(total + n, rest.value);
    }
  }

  method SumFields(c: Config, fs: seq<Field>, vs: seq<Value>) returns (o: Written<nat>)
    requires WfFields(c, fs) && FieldsTyped(fs, vs)
    ensures o == SizeOfFields(c, fs, vs)
  {
    hide SizeOf, SizeOfFields, Wf;
    TypedLength(fs, vs);
    var total: nat := 0;
    ghost var whole := SizeOfFields(c, fs, vs);
    assert fs[0..] == fs && vs[0..] == vs;
    if whole.Wrote? {
      SumIsAddress(c, fs, vs);
    }
    for i := 0 to |fs|
      invariant total < USIZE && WfFields(c, fs[i..]) && FieldsTyped(fs[i..], vs[i..])
      invariant whole == Plus(total, SizeOfFields(c, fs[i..], vs[i..]))
    {
      assert fs[i..][1..] == fs[i + 1..] && vs[i..][1..] == vs[i + 1..] && fs[i..][0] == fs[i] && vs[i..][0] == vs[i];
      SizeStep(c, fs[i..], vs[i..]);
      if fs[i].skip.None? {
        var n :- SizeOf(c, fs[i].schema, vs[i]);
        PlusPlus(total, n, SizeOfFields(c, fs[i + 1..], vs[i + 1..]));
        total := WrappingAdd(total, n);
      }
    }
    NoFields(c);
    assert fs[|fs|..] == [] && vs[|fs|..] == [];
    return Wrote(total);
  }

  lemma NoFields(c: Config)
    ensures SizeOfFields(c, [], []) == Wrote(0)
  {}

  /** The size a struct announces is the number of bytes it writes, as far as a `usize` can hold it,
      whenever it can be written. */
  method StructSize(c: Config, s: Schema, v: Value) returns (o: Written<nat>)
    requires s.StructS? && Wf(c, s) && WellTyped(s, v)
    ensures o == SizeOf(c, s, v)
    ensures Encode(c, s, v).Wrote? ==> o == Wrote(|Encode(c, s, v).value| % USIZE)
  {
    if Encode(c, s, v).Wrote? {
      SizeExact(c, s, v);
    }
    match Meta(c, Writing, s)
    case Static(size, _) => return Wrote(size);
    case Dynamic => o := SumFields(c, s.fields, v.vs);
  }

  /** The tag is sized, and so checked, even where the static size answers. */
  method EnumSize(c: Config, s: Schema, v: Value) returns (o: Written<nat>)
    requires s.EnumS? && Wf(c, s) && WellTyped(s, v)
    ensures o == SizeOf(c, s, v)
    ensures Encode(c, s, v).Wrote? ==> o == Wrote(|Encode(c, s, v).value| % USIZE)
  {
    if Encode(c, s, v).Wrote? {
      SizeExact(c, s, v);
    }
    WfVariant(c, s.tag, s.variants, 0, v.variant);
    var fs := s.variants[v.variant].fields;
    var total :- TagSize(c, s.tag, Discriminant(s.variants[v.variant], v.variant));
    match Join([IntMeta(c, TagKind(c, s.tag))] + FieldMetas(c, Writing, fs))
    case Static(size, _) => return Wrote(size);
    case Dynamic =>
      var n :- SumFields(c, fs, v.vs);
      return Wrote(WrappingAdd(total, n));
  }
}
