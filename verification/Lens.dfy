/** Sequence lengths with their preallocation check, and enum tags. */
module Lens {
  import opened Prim
  import opened IntEncoding
  import opened Schemas

  function LimitFor(c: Config, len: SeqLen): Option<nat> {
    match len.limit
    case UseConfig => c.prealloc
    case NoLimit => None
    case Override(limit) => Some(limit)
  }

  datatype Prealloc = Fits | Exceeds(size: nat, limit: nat)

  /** Charge at least one byte per element; an overflowing product exceeds every limit. */
  function PreallocCheck(c: Config, len: SeqLen, size: nat, n: nat): Prealloc {
    match LimitFor(c, len)
    case None => Fits
    case Some(limit) =>
      var needed := Times(n, Max(size, 1));
      if needed >= USIZE then Exceeds(USIZE - 1, limit)
      else if needed > limit then Exceeds(needed, limit)
      else Fits
  }

  /** In plain terms: which limit counts, what a length is charged, and what a refusal reports. */
  lemma PreallocRule(c: Config, len: SeqLen, size: nat, n: nat)
    ensures var limit := if len.limit == UseConfig then c.prealloc else if len.limit == NoLimit then None else Some(len.limit.limit);
            var charge := if size == 0 then n else n * size;
            && (PreallocCheck(c, len, size, n) == Fits <==> limit == None || (charge <= limit.value && charge < 0x1_0000_0000_0000_0000))
            && (limit.Some? && charge >= 0x1_0000_0000_0000_0000 ==> PreallocCheck(c, len, size, n) == Exceeds(0xFFFF_FFFF_FFFF_FFFF, limit.value))
            && (limit.Some? && limit.value < charge < 0x1_0000_0000_0000_0000 ==> PreallocCheck(c, len, size, n) == Exceeds(charge, limit.value))
  {}

  function LenInts(c: Config, len: SeqLen): IntConfig {
    if len.fixed then IntConfig(false, c.ints.order) else c.ints
  }

  function DecodeLen(c: Config, len: SeqLen, b: bytes): Parsed<nat>
    requires len.kind.Valid()
  {
    var (i, r) :- DecodeInt(LenInts(c, len), len.kind, b);
    if 0 <= i < USIZE then Ok(i, r) else Fail(PointerSizedReadError, r)
  }

  function DecodeLenChecked(c: Config, len: SeqLen, size: nat, b: bytes): Parsed<nat>
    requires len.kind.Valid()
  {
    var (n, r) :- DecodeLen(c, len, b);
    match PreallocCheck(c, len, size, n)
    case Fits => Ok(n, r)
    case Exceeds(needed, limit) => Fail(PreallocationSizeLimit(needed, limit), r)
  }

  function EncodeLen(c: Config, len: SeqLen, n: nat): Written<bytes>
    requires len.kind.Valid()
  {
    if len.kind.InRange(n) then Wrote(EncodeInt(LenInts(c, len), len.kind, n))
    else Refused(WriteLengthOverflow)
  }

  /** `write_bytes_needed`: a static length encoding never looks at the length. */
  function LenBytesNeeded(c: Config, len: SeqLen, n: nat): Written<nat>
    requires len.kind.Valid()
  {
    if FixedKind(LenInts(c, len), len.kind) then Wrote(len.kind.width)
    else if len.kind.InRange(n) then Wrote(SizeInt(LenInts(c, len), len.kind, n))
    else Refused(WriteLengthOverflow)
  }

  function WriteCheck(c: Config, len: SeqLen, size: nat, n: nat): Written<()> {
    match PreallocCheck(c, len, size, n)
    case Fits => Wrote(())
    case Exceeds(needed, limit) => Refused(WritePreallocationLimit(needed, limit))
  }

  /** Writers and readers refuse what does not fit, with what the check reports; a reader stands behind
      the length then. */
  lemma RefusalRule(c: Config, len: SeqLen, size: nat, n: nat, b: bytes)
    requires len.kind.Valid()
    ensures PreallocCheck(c, len, size, n).Fits? ==> WriteCheck(c, len, size, n) == Wrote(())
    ensures PreallocCheck(c, len, size, n).Exceeds? ==>
              var Exceeds(charge, limit) := PreallocCheck(c, len, size, n);
              WriteCheck(c, len, size, n) == Refused(WritePreallocationLimit(charge, limit))
    ensures match DecodeLen(c, len, b)
            case Ok(m, rest) =>
              if PreallocCheck(c, len, size, m).Fits? then DecodeLenChecked(c, len, size, b) == Ok(m, rest)
              else
                var p := PreallocCheck(c, len, size, m);
                DecodeLenChecked(c, len, size, b) == Fail(PreallocationSizeLimit(p.size, p.limit), rest)
            case Fail(e, at) => DecodeLenChecked(c, len, size, b) == Fail(e, at)
  {
    hide DecodeInt;
  }

  lemma LenSizeExact(c: Config, len: SeqLen, n: nat)
    requires len.kind.Valid() && EncodeLen(c, len, n).Wrote?
    ensures LenBytesNeeded(c, len, n) == Wrote(|EncodeLen(c, len, n).value|)
  {
    IntRoundTrip(LenInts(c, len), len.kind, n, []);
  }

  lemma LenIsSmall(c: Config, len: SeqLen, n: nat)
    requires len.kind.Valid() && LenBytesNeeded(c, len, n).Wrote?
    ensures LenBytesNeeded(c, len, n).value <= 17
  {
    if len.kind.InRange(n) {
      IntIsSmall(LenInts(c, len), len.kind, n);
    }
  }

  /** A length that was written is read back, and its announced size is exact. */
  lemma LenRoundTrip(c: Config, len: SeqLen, n: nat, rest: bytes)
    requires len.kind.Valid() && n < USIZE && EncodeLen(c, len, n).Wrote?
    ensures var e := EncodeLen(c, len, n).value;
            && LenBytesNeeded(c, len, n) == Wrote(|e|)
            && DecodeLen(c, len, e + rest) == Ok(n, rest)
  {
    IntRoundTrip(LenInts(c, len), len.kind, n, rest);
  }

  lemma LenExtend(c: Config, len: SeqLen, size: nat, b: bytes, x: bytes)
    requires len.kind.Valid()
    ensures Stable(DecodeLen(c, len, b), DecodeLen(c, len, b + x), b, x)
    ensures Stable(DecodeLenChecked(c, len, size, b), DecodeLenChecked(c, len, size, b + x), b, x)
  {
    IntExtend(LenInts(c, len), len.kind, b, x);
  }

  // Enum tags

  const U32_LIMIT: nat := 0x1_0000_0000

  /** The tag of a variant: the explicit one, or its position. */
  function Discriminant(v: Variant, index: nat): nat {
    match v.tag
    case Some(t) => t
    case None => index
  }

  /** With an override the tag is written as that type; otherwise it goes through `u32`. */
  function EncodeTag(c: Config, tag: Option<IntKind>, t: nat): Written<bytes>
    requires TagKind(c, tag).Valid()
  {
    if TagKind(c, tag).InRange(t) then Wrote(EncodeInt(c.ints, TagKind(c, tag), t))
    else Refused(WriteTagOverflow)
  }

  function TagSize(c: Config, tag: Option<IntKind>, t: nat): Written<nat>
    requires TagKind(c, tag).Valid()
  {
    if TagKind(c, tag).InRange(t) then Wrote(SizeInt(c.ints, TagKind(c, tag), t))
    else Refused(WriteTagOverflow)
  }

  function DecodeTag(c: Config, tag: Option<IntKind>, b: bytes): Parsed<int>
    requires TagKind(c, tag).Valid()
  {
    var (t, r) :- DecodeInt(c.ints, TagKind(c, tag), b);
    if tag.Some? || 0 <= t < U32_LIMIT then Ok(t, r) else Fail(TagEncodingOverflow, r)
  }

  /** The arm a `match` on the tag takes. */
  function FindVariant(vs: seq<Variant>, t: int, from: nat): (k: Option<nat>)
    requires from <= |vs|
    ensures k.Some? ==> from <= k.value < |vs| && Discriminant(vs[k.value], k.value) == t
    decreases |vs| - from
  {
    if from == |vs| then None
    else if Discriminant(vs[from], from) == t then Some(from)
    else FindVariant(vs, t, from + 1)
  }

  predicate DistinctTags(vs: seq<Variant>) {
    forall i, j | 0 <= i < j < |vs| :: Discriminant(vs[i], i) != Discriminant(vs[j], j)
  }

  /** No two explicit tags are equal, and none is the position of an untagged variant. */
  predicate NoTagTwice(vs: seq<Variant>) {
    && (forall i, j | 0 <= i < j < |vs| && vs[i].tag.Some? && vs[j].tag.Some? :: vs[i].tag.value != vs[j].tag.value)
    && (forall i, j | 0 <= i < |vs| && 0 <= j < |vs| && vs[i].tag.Some? && vs[j].tag.None? :: vs[i].tag.value != j)
  }

  lemma DistinctMeansNoTagTwice(vs: seq<Variant>)
    ensures DistinctTags(vs) <==> NoTagTwice(vs)
  {
    if DistinctTags(vs) {
      forall i, j | 0 <= i < |vs| && 0 <= j < |vs| && vs[i].tag.Some? && vs[j].tag.None?
        ensures vs[i].tag.value != j
      {
        assert Discriminant(vs[j], j) != Discriminant(vs[i], i);
      }
      forall i, j | 0 <= i < j < |vs| && vs[i].tag.Some? && vs[j].tag.Some?
        ensures vs[i].tag.value != vs[j].tag.value
      {
        assert Discriminant(vs[j], j) != Discriminant(vs[i], i);
      }
    }
  }

  /** Tag validation: accepted exactly when explicit and positional tags together are distinct. */
  method ValidateVariantTags(vs: seq<Variant>) returns (ok: bool)
    ensures ok <==> DistinctTags(vs)
    ensures ok <==>
              && (forall i, j | 0 <= i < j < |vs| && vs[i].tag.Some? && vs[j].tag.Some? :: vs[i].tag.value != vs[j].tag.value)
              && (forall i, j | 0 <= i < |vs| && 0 <= j < |vs| && vs[i].tag.Some? && vs[j].tag.None? :: vs[i].tag.value != j)
  {
    DistinctMeansNoTagTwice(vs);
    var seen: set<nat> := {};
    for idx := 0 to |vs|
      invariant forall t :: t in seen <==> exists i | 0 <= i < idx :: Discriminant(vs[i], i) == t
      invariant forall i, j | 0 <= i < j < idx :: Discriminant(vs[i], i) != Discriminant(vs[j], j)
    {
      var tag := Discriminant(vs[idx], idx);
      if tag in seen {
        return false;
      }
      seen := seen + {tag};
    }
    return true;
  }

  lemma {:induction false} FindsOwnVariant(vs: seq<Variant>, k: nat, from: nat)
    requires DistinctTags(vs) && from <= k < |vs|
    ensures FindVariant(vs, Discriminant(vs[k], k), from) == Some(k)
    decreases k - from
  {
    if from < k {
      FindsOwnVariant(vs, k, from + 1);
    }
  }

  /** Every tag of a validated enum that fits its encoding is read back to its own variant. */
  lemma TagRoundTrip(c: Config, tag: Option<IntKind>, vs: seq<Variant>, k: nat, rest: bytes)
    requires TagKind(c, tag).Valid() && DistinctTags(vs) && k < |vs|
    requires tag.None? ==> Discriminant(vs[k], k) < U32_LIMIT
    requires EncodeTag(c, tag, Discriminant(vs[k], k)).Wrote?
    ensures var t := Discriminant(vs[k], k);
            var e := EncodeTag(c, tag, t).value;
            && TagSize(c, tag, t) == Wrote(|e|)
            && DecodeTag(c, tag, e + rest) == Ok(t, rest)
            && FindVariant(vs, t, 0) == Some(k)
  {
    IntRoundTrip(c.ints, TagKind(c, tag), Discriminant(vs[k], k), rest);
    FindsOwnVariant(vs, k, 0);
  }

  lemma TagSizeExact(c: Config, tag: Option<IntKind>, t: nat)
    requires TagKind(c, tag).Valid() && EncodeTag(c, tag, t).Wrote?
    ensures TagSize(c, tag, t) == Wrote(|EncodeTag(c, tag, t).value|)
  {
    IntRoundTrip(c.ints, TagKind(c, tag), t, []);
  }

  lemma TagIsSmall(c: Config, tag: Option<IntKind>, t: nat)
    requires TagKind(c, tag).Valid() && EncodeTag(c, tag, t).Wrote?
    ensures |EncodeTag(c, tag, t).value| <= 17
  {
    IntRoundTrip(c.ints, TagKind(c, tag), t, []);
    IntIsSmall(c.ints, TagKind(c, tag), t);
  }

  lemma TagExtend(c: Config, tag: Option<IntKind>, b: bytes, x: bytes)
    requires TagKind(c, tag).Valid()
    ensures Stable(DecodeTag(c, tag, b), DecodeTag(c, tag, b + x), b, x)
  {
    IntExtend(c.ints, TagKind(c, tag), b, x);
  }
}
