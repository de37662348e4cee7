/** How many distinct keys a map can be decoded to, and the capacity reserved for it. */
module UniqueKeys {
  import opened Prim
  import opened BitSets
  import opened IntEncoding
  import opened Schemas
  import opened Lens
  import opened Codec
  import opened Extension
  import opened StaticSize
  import opened RoundTrip
  import opened Maps
  import opened Canonical

  /** The requested length, capped at the number of values a key of `size` bytes can have. There
      is no cap when that number cannot be computed in a `usize`. */
  function UniqueKeyCapacity(size: nat, len: nat): nat {
    if size >= U32_LIMIT then len
    else if size * 8 >= U32_LIMIT then len
    else if size * 8 >= 64 then len
    else if len < Pow2(size * 8) then len
    else Pow2(size * 8)
  }

  /** For every length that fits a `usize`, the cap is the smaller of the length and 256 to the
      power of the key's size: where the shift would overflow, no length reaches that power. */
  lemma CapacityIsLeast(size: nat, len: nat)
    requires len < USIZE
    ensures UniqueKeyCapacity(size, len) == if len < Pow256(size) then len else Pow256(size)
  {
    PowersAgree(size);
    if size >= 8 {
      PowMonotone(8, size);
      PowValues();
    }
  }

  // Keys are determined by their bytes

  /** `v` is what some string of `n` bytes decodes to. */
  ghost predicate Decodable(c: Config, s: Schema, n: nat, v: Value)
    requires Wf(c, s)
  {
    exists x: bytes :: |x| == n && Decode(c, Plain, s, x) == Ok(v, [])
  }

  lemma StaticIsDecodable(c: Config, s: Schema, b: bytes)
    requires Wf(c, s) && Roomy(c, s) && Meta(c, Reading, s).Static? && Decode(c, Plain, s, b).Ok?
    ensures Decodable(c, s, Meta(c, Reading, s).size, Decode(c, Plain, s, b).value)
  {
    var n := Meta(c, Reading, s).size;
    StaticRead(c, Plain, s, b);
    StaticRead(c, Plain, s, b[..n]);
    StaticNoDefault(c, s);
    Extend(c, Plain, s, b[..n], b[n..]);
    assert b[..n] + b[n..] == b;
    assert Decode(c, Plain, s, b[..n]) == Ok(Decode(c, Plain, s, b).value, []);
  }

  ghost predicate KeysDecodable(c: Config, s: Schema, n: nat, es: seq<Entry>)
    requires Wf(c, s)
  {
    forall i | 0 <= i < |es| :: Decodable(c, s, n, es[i].key)
  }

  lemma {:induction false} EntriesDecodable(c: Config, p: EntrySchema, n: nat, b: bytes)
    requires Wf(c, p.key) && Wf(c, p.val) && Roomy(c, p.key) && Meta(c, Reading, p.key).Static? && DecodeEntries(c, Plain, p, n, b).Ok?
    ensures var es := DecodeEntries(c, Plain, p, n, b).value;
            |es| == n && KeysDecodable(c, p.key, Meta(c, Reading, p.key).size, es)
    decreases n
  {
    hide Decode;
    if n > 0 {
      StaticIsDecodable(c, p.key, b);
      EntriesDecodable(c, p, n - 1, DecodeEntry(c, Plain, p, b).rest);
    }
  }

  lemma {:induction false} InsertDecodable(c: Config, s: Schema, n: nat, es: seq<Entry>, e: Entry)
    requires Wf(c, s) && KeysDecodable(c, s, n, es) && Decodable(c, s, n, e.key)
    ensures KeysDecodable(c, s, n, Insert(es, e)) && |Insert(es, e)| <= |es| + 1
  {
    hide Decodable;
    if es != [] {
      InsertDecodable(c, s, n, es[1..], e);
    }
  }

  lemma {:induction false} CollectDecodable(c: Config, s: Schema, n: nat, es: seq<Entry>)
    requires Wf(c, s) && KeysDecodable(c, s, n, es)
    ensures KeysDecodable(c, s, n, Collect(es)) && |Collect(es)| <= |es|
  {
    hide Decodable;
    if es != [] {
      CollectDecodable(c, s, n, es[..|es| - 1]);
      InsertDecodable(c, s, n, Collect(es[..|es| - 1]), es[|es| - 1]);
    }
  }

  // Counting

  lemma {:induction false} AtMost(s: set<nat>, m: nat)
    requires forall x :: x in s ==> x < m
    ensures |s| <= m
    decreases m
  {
    if m > 0 {
      AtMost(s - {m - 1}, m - 1);
    } else {
      assert s == {};
    }
  }

  ghost function BytesNumber(c: Config, s: Schema, n: nat, v: Value): (x: nat)
    requires Wf(c, s) && Decodable(c, s, n, v)
    ensures x < Pow256(n)
    ensures Decode(c, Plain, s, LittleBytes(x, n)) == Ok(v, [])
  {
    var b: bytes :| |b| == n && Decode(c, Plain, s, b) == Ok(v, []);
    LittleOnto(b);
    LittleValue(b)
  }

  /** Different numbers below `m` are no more than `m`. */
  lemma CountDistinct(ns: seq<nat>, m: nat)
    requires forall i | 0 <= i < |ns| :: ns[i] < m
    requires forall i, j | 0 <= i < j < |ns| :: ns[i] != ns[j]
    ensures |ns| <= m
  {
    var xs: set<nat> := {};
    for i := 0 to |ns|
      invariant |xs| == i
      invariant forall x :: x in xs ==> x < m && exists j | 0 <= j < i :: ns[j] == x
    {
      xs := xs + {ns[i]};
    }
    AtMost(xs, m);
  }

  lemma StaticKeys(c: Config, s: Schema, n: nat, es: seq<Entry>)
    requires Wf(c, s) && KeysDecodable(c, s, n, es) && DistinctKeys(es)
    ensures |es| <= Pow256(n)
  {
    hide Decode;
    var ns := seq(|es|, i requires 0 <= i < |es| => BytesNumber(c, s, n, es[i].key));
    forall i, j | 0 <= i < j < |es|
      ensures ns[i] != ns[j]
    {
      assert es[i].key != es[j].key;
    }
    CountDistinct(ns, Pow256(n));
  }

  // Counting the values of a type

  /** Types with finitely many values. */
  predicate Finite(s: Schema)
    decreases s
  {
    match s
    case IntS(k) => k.Valid()
    case BoolS => true
    case CharS => true
    case OptS(e, _) => Finite(e)
    case ArrS(_, e) => Finite(e)
    case StructS(_, fs) => FiniteFields(fs)
    case EnumS(_, vs, _) => FiniteVariants(vs)
    case BoxS(e) => Finite(e)
    case _ => false
  }

  predicate FiniteFields(fs: seq<Field>)
    decreases fs
  {
    fs == [] || (assert fs[0].schema < fs[0]; Finite(fs[0].schema) && FiniteFields(fs[1..]))
  }

  predicate FiniteVariants(vs: seq<Variant>)
    decreases vs
  {
    vs == [] || (FiniteFields(vs[0].fields) && FiniteVariants(vs[1..]))
  }

  /** How many values a type has. */
  function Count(s: Schema): nat
    requires Finite(s)
    decreases s, 0, 0
  {
    match s
    case IntS(k) => k.Modulus()
    case BoolS => 2
    case CharS => 0x10_F800
    case OptS(e, _) => 1 + Count(e)
    case ArrS(n, e) => CountAll(e, n)
    case StructS(_, fs) => CountFields(fs)
    case EnumS(_, vs, _) => CountVariants(vs)
    case BoxS(e) => Count(e)
  }

  function CountAll(e: Schema, n: nat): nat
    requires Finite(e)
    decreases e, 1, n
  {
    if n == 0 then 1 else Times(Count(e), CountAll(e, n - 1))
  }

  function CountFields(fs: seq<Field>): nat
    requires FiniteFields(fs)
    decreases fs
  {
    if fs == [] then 1 else assert fs[0].schema < fs[0]; Times(Count(fs[0].schema), CountFields(fs[1..]))
  }

  function CountVariants(vs: seq<Variant>): nat
    requires FiniteVariants(vs)
    decreases vs
  {
    if vs == [] then 0 else CountFields(vs[0].fields) + CountVariants(vs[1..])
  }

  /** Two digits, the lower one below `n`. */
  lemma DigitBound(a: nat, n: nat, x: nat, m: nat)
    requires a < n && x < m
    ensures a + Times(n, x) < Times(n, m)
  {
    TimesGrows(m, x, n);
    TimesCommutes(n, x);
    TimesCommutes(n, m);
  }

  lemma DigitsUnique(a: nat, a': nat, n: nat, x: nat, x': nat)
    requires a < n && a' < n && a + Times(n, x) == a' + Times(n, x')
    ensures a == a' && x == x'
  {
    TimesCommutes(n, x);
    TimesCommutes(n, x');
    DivUnique(a + Times(x, n), n, x, a);
    DivUnique(a + Times(x, n), n, x', a');
  }

  /** The number of a value among the values of its type. */
  function Number(s: Schema, v: Value): (n: nat)
    requires Finite(s) && WellTyped(s, v)
    ensures n < Count(s)
    decreases s, v
  {
    match s
    case IntS(k) => k.Cast(v.i)
    case BoolS => if v.b then 1 else 0
    case CharS => if v.c < 0xD800 then v.c else v.c - 0x800
    case OptS(e, _) => if v.NoneV? then 0 else 1 + Number(e, v.v)
    case ArrS(n, e) => NumberAll(e, v.vs)
    case StructS(_, fs) => NumberFields(fs, v.vs)
    case EnumS(_, vs, _) => NumberVariant(vs, v.variant, v.vs)
    case BoxS(e) => Number(e, v)
  }

  function NumberAll(e: Schema, vs: seq<Value>): (n: nat)
    requires Finite(e) && AllTyped(e, vs)
    ensures n < CountAll(e, |vs|)
    decreases e, vs
  {
    if vs == [] then 0
    else
      DigitBound(Number(e, vs[0]), Count(e), NumberAll(e, vs[1..]), CountAll(e, |vs| - 1));
      Number(e, vs[0]) + Times(Count(e), NumberAll(e, vs[1..]))
  }

  function NumberFields(fs: seq<Field>, vs: seq<Value>): (n: nat)
    requires FiniteFields(fs) && FieldsTyped(fs, vs)
    ensures n < CountFields(fs)
    decreases fs, vs
  {
    if fs == [] then 0
    else
      assert fs[0].schema < fs[0];
      DigitBound(Number(fs[0].schema, vs[0]), Count(fs[0].schema), NumberFields(fs[1..], vs[1..]), CountFields(fs[1..]));
      Number(fs[0].schema, vs[0]) + Times(Count(fs[0].schema), NumberFields(fs[1..], vs[1..]))
  }

  function NumberVariant(vs: seq<Variant>, k: nat, xs: seq<Value>): (n: nat)
    requires FiniteVariants(vs) && k < |vs| && FieldsTyped(vs[k].fields, xs)
    ensures n < CountVariants(vs)
    decreases vs, xs
  {
    if k == 0 then NumberFields(vs[0].fields, xs)
    else CountFields(vs[0].fields) + NumberVariant(vs[1..], k - 1, xs)
  }

  /** Different values have different numbers. */
  lemma {:induction false} NumberInjective(s: Schema, v: Value, v': Value)
    requires Finite(s) && WellTyped(s, v) && WellTyped(s, v') && Number(s, v) == Number(s, v')
    ensures v == v'
    decreases s, v
  {
    match s
    case IntS(k) =>
      FixedInverse(k, v.i);
      FixedInverse(k, v'.i);
    case BoolS =>
    case CharS =>
    case OptS(e, _) =>
      if v.SomeV? && v'.SomeV? {
        NumberInjective(e, v.v, v'.v);
      }
    case ArrS(n, e) => NumberAllInjective(e, v.vs, v'.vs);
    case StructS(_, fs) => NumberFieldsInjective(fs, v.vs, v'.vs);
    case EnumS(_, vs, _) => NumberVariantInjective(vs, v.variant, v.vs, v'.variant, v'.vs);
    case BoxS(e) => NumberInjective(e, v, v');
  }

  lemma {:induction false} NumberAllInjective(e: Schema, vs: seq<Value>, vs': seq<Value>)
    requires Finite(e) && AllTyped(e, vs) && AllTyped(e, vs') && |vs| == |vs'| && NumberAll(e, vs) == NumberAll(e, vs')
    ensures vs == vs'
    decreases e, vs
  {
    if vs != [] {
      DigitsUnique(Number(e, vs[0]), Number(e, vs'[0]), Count(e), NumberAll(e, vs[1..]), NumberAll(e, vs'[1..]));
      NumberInjective(e, vs[0], vs'[0]);
      NumberAllInjective(e, vs[1..], vs'[1..]);
      assert vs == [vs[0]] + vs[1..] && vs' == [vs'[0]] + vs'[1..];
    }
  }

  lemma {:induction false} NumberFieldsInjective(fs: seq<Field>, vs: seq<Value>, vs': seq<Value>)
    requires FiniteFields(fs) && FieldsTyped(fs, vs) && FieldsTyped(fs, vs') && NumberFields(fs, vs) == NumberFields(fs, vs')
    ensures vs == vs'
    decreases fs, vs
  {
    if fs != [] {
      var s := fs[0].schema;
      assert s < fs[0];
      DigitsUnique(Number(s, vs[0]), Number(s, vs'[0]), Count(s), NumberFields(fs[1..], vs[1..]), NumberFields(fs[1..], vs'[1..]));
      NumberInjective(s, vs[0], vs'[0]);
      NumberFieldsInjective(fs[1..], vs[1..], vs'[1..]);
      assert vs == [vs[0]] + vs[1..] && vs' == [vs'[0]] + vs'[1..];
    }
  }

  lemma {:induction false} NumberVariantInjective(vs: seq<Variant>, k: nat, xs: seq<Value>, k': nat, xs': seq<Value>)
    requires FiniteVariants(vs) && k < |vs| && k' < |vs| && FieldsTyped(vs[k].fields, xs) && FieldsTyped(vs[k'].fields, xs')
    requires NumberVariant(vs, k, xs) == NumberVariant(vs, k', xs')
    ensures k == k' && xs == xs'
    decreases vs, xs
  {
    if k == 0 && k' == 0 {
      NumberFieldsInjective(vs[0].fields, xs, xs');
    } else if k > 0 && k' > 0 {
      NumberVariantInjective(vs[1..], k - 1, xs, k' - 1, xs');
    }
  }

  /** Different keys are no more than the type has values. */
  lemma FiniteKeys(p: EntrySchema, es: seq<Entry>)
    requires Finite(p.key) && EntriesTyped(p, es) && DistinctKeys(es)
    ensures |es| <= Count(p.key)
  {
    hide Count, Number, Finite;
    forall i | 0 <= i < |es|
      ensures WellTyped(p.key, es[i].key)
    {
      TypedAt(p, es, i);
    }
    var ns := seq(|es|, i requires 0 <= i < |es| => Number(p.key, es[i].key));
    forall i, j | 0 <= i < j < |es|
      ensures ns[i] != ns[j]
    {
      if ns[i] == ns[j] {
        NumberInjective(p.key, es[i].key, es[j].key);
      }
    }
    CountDistinct(ns, Count(p.key));
  }

  lemma DigitsOf(n: nat, c: nat, m: nat) returns (r: nat, q: nat)
    requires n < Times(c, m)
    ensures r < c && q < m && n == r + Times(c, q)
  {
    r, q := n % c, n / c;
    if q >= m {
      MulGrows(c, m, q);
    }
  }

  lemma MulGrows(c: nat, m: nat, q: nat)
    requires q >= m
    ensures Times(c, q) >= Times(c, m)
  {
    assert c * q == c * m + c * (q - m);
  }

  /** Every number below the count is that of some value, so the count is exact. */
  lemma {:induction false} Numbered(s: Schema, n: nat) returns (v: Value)
    requires Finite(s) && n < Count(s)
    ensures WellTyped(s, v) && Number(s, v) == n
    decreases s, 0, 0
  {
    match s
    case IntS(k) => FixedOnto(k, n); v := IntV(k.FromUnsigned(n));
    case BoolS => v := BoolV(n == 1);
    case CharS => v := CharV(if n < 0xD800 then n else n + 0x800);
    case OptS(e, _) =>
      if n == 0 {
        v := NoneV;
      } else {
        var u := Numbered(e, n - 1);
        v := SomeV(u);
      }
    case ArrS(m, e) => var vs := NumberedAll(e, m, n); v := ListV(vs);
    case StructS(_, fs) => var vs := NumberedFields(fs, n); v := ListV(vs);
    case EnumS(_, vs, _) => var k, xs := NumberedVariant(vs, n); v := EnumV(k, xs);
    case BoxS(e) => v := Numbered(e, n);
  }

  lemma {:induction false} NumberedAll(e: Schema, m: nat, n: nat) returns (vs: seq<Value>)
    requires Finite(e) && n < CountAll(e, m)
    ensures AllTyped(e, vs) && |vs| == m && NumberAll(e, vs) == n
    decreases e, 1, m
  {
    if m == 0 {
      vs := [];
    } else {
      hide Count, Number, NumberAll, Finite, WellTyped, Times;
      var r, q := DigitsOf(n, Count(e), CountAll(e, m - 1));
      var v := Numbered(e, r);
      var rest := NumberedAll(e, m - 1, q);
      vs := [v] + rest;
      NumberCons(e, v, rest);
    }
  }

  lemma NumberCons(e: Schema, v: Value, rest: seq<Value>)
    requires Finite(e) && WellTyped(e, v) && AllTyped(e, rest)
    ensures AllTyped(e, [v] + rest)
    ensures NumberAll(e, [v] + rest) == Number(e, v) + Times(Count(e), NumberAll(e, rest))
  {
    hide Count, CountAll, Number, Finite, WellTyped, Times;
    assert ([v] + rest)[1..] == rest;
  }

  lemma {:induction false} NumberedFields(fs: seq<Field>, n: nat) returns (vs: seq<Value>)
    requires FiniteFields(fs) && n < CountFields(fs)
    ensures FieldsTyped(fs, vs) && NumberFields(fs, vs) == n
    decreases fs, 0, 0
  {
    if fs == [] {
      vs := [];
    } else {
      assert fs[0].schema < fs[0];
      var r, q := DigitsOf(n, Count(fs[0].schema), CountFields(fs[1..]));
      var v := Numbered(fs[0].schema, r);
      var rest := NumberedFields(fs[1..], q);
      vs := [v] + rest;
      assert vs[1..] == rest;
    }
  }

  lemma {:induction false} NumberedVariant(vs: seq<Variant>, n: nat) returns (k: nat, xs: seq<Value>)
    requires FiniteVariants(vs) && n < CountVariants(vs)
    ensures k < |vs| && FieldsTyped(vs[k].fields, xs) && NumberVariant(vs, k, xs) == n
    decreases vs, 0, 0
  {
    var c := CountFields(vs[0].fields);
    if n < c {
      k := 0;
      xs := NumberedFields(vs[0].fields, n);
    } else {
      var j, ys := NumberedVariant(vs[1..], n - c);
      k, xs := j + 1, ys;
    }
  }

  /** The type has no more values than its memory has states. */
  predicate FewValues(s: Schema) { Finite(s) && Count(s) <= Pow256(LayoutOf(s).size) }

  /** Integers, booleans and characters, and enums without fields whose size holds their number. */
  lemma FewScalars(s: Schema)
    requires (s.IntS? && s.kind.Valid()) || s.BoolS? || s.CharS?
    ensures FewValues(s)
  {
    PowValues();
  }

  lemma {:induction false} FieldlessCount(vs: seq<Variant>)
    requires forall i | 0 <= i < |vs| :: vs[i].fields == []
    ensures FiniteVariants(vs) && CountVariants(vs) == |vs|
  {
    if vs != [] {
      FieldlessCount(vs[1..]);
    }
  }

  lemma FewVariants(s: Schema)
    requires s.EnumS? && forall i | 0 <= i < |s.variants| :: s.variants[i].fields == []
    ensures FewValues(s) <==> |s.variants| <= Pow256(LayoutOf(s).size)
  {
    FieldlessCount(s.variants);
  }

  /** Decoding any number of entries never yields more distinct keys than the capacity reserved for
      them: for types with no more values than states of their memory, for all keys of a static size
      that are no larger on the wire than in memory, and for all keys of a word or more, whose
      capacity is not capped. */
  lemma KeysFitCapacity(c: Config, s: Schema, b: bytes)
    requires s.MapS? && Wf(c, s) && Decode(c, Plain, s, b).Ok?
    requires var key := s.entry.key;
             || FewValues(key)
             || LayoutOf(key).size >= 8
             || (Roomy(c, key) && Meta(c, Reading, key).Static? && Meta(c, Reading, key).size <= LayoutOf(key).size)
    ensures var d := DecodeLenChecked(c, s.len, s.entrySize, b);
            && d.Ok? && DistinctKeys(Decode(c, Plain, s, b).value.entries)
            && |Decode(c, Plain, s, b).value.entries| <= UniqueKeyCapacity(LayoutOf(s.entry.key).size, d.value)
  {
    hide FewValues;
    var key := s.entry.key;
    var d := DecodeLenChecked(c, s.len, s.entrySize, b);
    var es := DecodeEntries(c, Plain, s.entry, d.value, d.rest).value;
    EntriesAreTyped(c, s.entry, d.value, d.rest);
    CollectTyped(s.entry, es);
    CollectDenotes(es);
    CapacityIsLeast(LayoutOf(key).size, d.value);
    if FewValues(key) {
      FewKeys(s.entry, Collect(es));
    } else if LayoutOf(key).size < 8 {
      var n := Meta(c, Reading, key).size;
      EntriesDecodable(c, s.entry, d.value, d.rest);
      CollectDecodable(c, key, n, es);
      StaticKeys(c, key, n, Collect(es));
      PowMonotone(n, LayoutOf(key).size);
    }
  }

  lemma FewKeys(p: EntrySchema, es: seq<Entry>)
    requires FewValues(p.key) && EntriesTyped(p, es) && DistinctKeys(es)
    ensures |es| <= Pow256(LayoutOf(p.key).size)
  {
    FiniteKeys(p, es);
  }
}
