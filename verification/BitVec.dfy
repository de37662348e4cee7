/** Bit vectors: an optional boxed slice of blocks and the number of bits in use. */
module BitVecs {
  import opened Prim
  import opened BitSets
  import opened IntEncoding
  import opened Schemas
  import opened Lens
  import opened Codec
  import opened StaticSize
  import opened Extension
  import opened Windows
  import opened Guarantees
  import opened Canonical

  /** How bit vectors are encoded: the block type, the configured length encoding, and whether
      the strict feature is on. */
  datatype Format = Format(block: IntKind, len: SeqLen, strict: bool) {
    predicate Valid() {
      block.Valid() && !block.signed && len.kind.Valid()
    }

    /** The bits of a block. */
    function BlockBits(): (n: nat) { 8 * block.width }

    /** The schema of the boxed slice. */
    function Slice(): Schema { SeqS(IntS(block), len, true, Layout(16, 8)) }
  }

  /** A block has as many bits as its type. */
  lemma BlockBitsFillBlock(f: Format)
    ensures Pow2(f.BlockBits()) == f.block.Modulus()
  {
    PowersAgree(f.block.width);
  }

  const U64 := IntKind(8, false)

  /** Storage, which may be longer than needed and dirty behind the last bit. */
  datatype BitVec = BitVec(blocks: seq<nat>, bits: nat) {
    /** What the library maintains: the bits fit the storage, every block its type. */
    predicate Valid(f: Format) {
      && bits < USIZE
      && bits <= |blocks| * f.BlockBits()
      && |blocks| < USIZE
      && forall i | 0 <= i < |blocks| :: blocks[i] < f.block.Modulus()
    }
  }

  /** The blocks needed for a number of bits. */
  function BlockCount(bits: nat, per: nat): nat
    requires per > 0
  {
    (bits + per - 1) / per
  }

  /** Bit `i` of a bit vector. */
  predicate BitAt(v: BitVec, per: nat, i: nat)
    requires per > 0 && i < |v.blocks| * per
  {
    InRangeBlock(i, per, |v.blocks|);
    Bit(v.blocks[i / per], i % per)
  }

  /** The digit of weight `2^(i % per)` of block `i / per`. */
  lemma BitAtValue(v: BitVec, per: nat, i: nat)
    requires per > 0 && i < |v.blocks| * per
    ensures i / per < |v.blocks|
    ensures BitAt(v, per, i) <==> v.blocks[i / per] / Pow2(i % per) % 2 == 1
  {
    InRangeBlock(i, per, |v.blocks|);
    BitValue(v.blocks[i / per], i % per);
  }

  lemma InRangeBlock(i: nat, per: nat, n: nat)
    requires per > 0 && i < n * per
    ensures i / per < n
  {}

  /** The same declared bits. */
  ghost predicate SameBits(v: BitVec, v': BitVec, per: nat)
    requires per > 0 && v.bits <= |v.blocks| * per && v'.bits <= |v'.blocks| * per
  {
    v.bits == v'.bits && forall i: nat | i < v.bits :: BitAt(v, per, i) <==> BitAt(v', per, i)
  }

  /** A block as it is written: in strict mode the padding behind the last bit is masked out,
      otherwise it is raw. */
  function SerializedBlock(f: Format, v: BitVec, i: nat): nat
    requires f.Valid() && i < |v.blocks|
  {
    var used := v.bits % f.BlockBits();
    if f.strict && i == BlockCount(v.bits, f.BlockBits()) - 1 && used != 0 then v.blocks[i] % Pow2(used) else v.blocks[i]
  }

  lemma CountFits(bits: nat, per: nat, n: nat)
    requires per > 0 && bits <= n * per
    ensures BlockCount(bits, per) <= n
    ensures bits <= BlockCount(bits, per) * per
    ensures BlockCount(bits, per) == 0 <==> bits == 0
  {
    var q := BlockCount(bits, per);
    assert bits + per - 1 == q * per + (bits + per - 1) % per;
    if q > n {
      TimesGrows(q, n, per);
    }
  }

  /** The values of the blocks in use. */
  function Serialized(f: Format, v: BitVec): (vs: seq<Value>)
    requires f.Valid() && v.Valid(f)
    ensures |vs| == BlockCount(v.bits, f.BlockBits()) <= |v.blocks|
    ensures forall i | 0 <= i < |vs| :: vs[i] == IntV(SerializedBlock(f, v, i))
  {
    CountFits(v.bits, f.BlockBits(), |v.blocks|);
    seq(BlockCount(v.bits, f.BlockBits()), i requires 0 <= i < |v.blocks| => IntV(SerializedBlock(f, v, i)))
  }

  lemma ModSmaller(x: nat, m: nat)
    requires m > 0
    ensures x % m <= x
  {}

  lemma SerializedTyped(f: Format, v: BitVec, n: nat)
    requires f.Valid() && v.Valid(f) && n <= |Serialized(f, v)|
    ensures AllTyped(IntS(f.block), Serialized(f, v)[n..])
    decreases |Serialized(f, v)| - n
  {
    var vs := Serialized(f, v);
    if n < |vs| {
      SerializedTyped(f, v, n + 1);
      assert vs[n..][1..] == vs[n + 1..];
      ModSmaller(v.blocks[n], Pow2(v.bits % f.BlockBits()));
    }
  }

  lemma SliceIsWf(c: Config, f: Format)
    requires f.Valid()
    ensures Wf(c, f.Slice()) && Roomy(c, f.Slice()) && Rigid(f.Slice()) && Mirrored(f.Slice()) && Checked(f.Slice()) && NoDefault(f.Slice()) && Lossless(f.Slice())
  {}

  lemma SliceTyped(f: Format, v: BitVec)
    requires f.Valid() && v.Valid(f)
    ensures WellTyped(f.Slice(), ListV(Serialized(f, v)))
  {
    SerializedTyped(f, v, 0);
    assert Serialized(f, v)[0..] == Serialized(f, v);
  }

  function EncodeStorage(c: Config, f: Format, v: BitVec): Written<bytes>
    requires f.Valid() && v.Valid(f)
  {
    SliceIsWf(c, f);
    SliceTyped(f, v);
    if v.bits == 0 then Wrote([0])
    else
      var b :- Encode(c, f.Slice(), ListV(Serialized(f, v)));
      Wrote([1] + b)
  }

  function EncodeBits(c: Config, f: Format, v: BitVec): Written<bytes>
    requires f.Valid() && v.Valid(f)
  {
    var b :- EncodeStorage(c, f, v);
    Wrote(b + EncodeInt(c.ints, U64, v.bits))
  }

  /** No bits are a zero; others are a one and the boxed slice of the blocks in use. The number of bits
      follows as a `u64`. */
  lemma BitsOnTheWire(c: Config, f: Format, v: BitVec)
    requires f.Valid() && v.Valid(f)
    ensures var slice := SeqS(IntS(f.block), f.len, true, Layout(16, 8));
            var n := IntKind(8, false);
            && Wf(c, slice) && WellTyped(slice, ListV(Serialized(f, v))) && n.Valid() && n.InRange(v.bits)
            && match EncodeBits(c, f, v)
               case Wrote(b) =>
                 if v.bits == 0 then b == [0] + EncodeInt(c.ints, n, 0)
                 else
                   && Encode(c, slice, ListV(Serialized(f, v))).Wrote?
                   && b == [1] + Encode(c, slice, ListV(Serialized(f, v))).value + EncodeInt(c.ints, n, v.bits)
               case Refused(e) => v.bits > 0 && Encode(c, slice, ListV(Serialized(f, v))) == Refused(e)
  {
    SliceIsWf(c, f);
    SliceTyped(f, v);
  }

  function SizeOfBits(c: Config, f: Format, v: BitVec): Written<nat>
    requires f.Valid() && v.Valid(f)
  {
    SliceIsWf(c, f);
    SliceTyped(f, v);
    var n :- if v.bits == 0 then Wrote(0) else SizeOfSeq(c, IntS(f.block), f.len, Serialized(f, v));
    Wrote(WrappingAdd(WrappingAdd(1, n), SizeInt(c.ints, U64, v.bits)))
  }

  function Blocks(vs: seq<Value>): (blocks: seq<nat>)
    requires forall i | 0 <= i < |vs| :: vs[i].IntV? && vs[i].i >= 0
    ensures |blocks| == |vs| && forall i | 0 <= i < |vs| :: blocks[i] == vs[i].i
  {
    seq(|vs|, i requires 0 <= i < |vs| => vs[i].i)
  }

  lemma {:induction false} TypedBlocks(k: IntKind, vs: seq<Value>, i: nat)
    requires AllTyped(IntS(k), vs) && i < |vs|
    ensures vs[i].IntV? && k.InRange(vs[i].i)
  {
    if i > 0 {
      TypedBlocks(k, vs[1..], i - 1);
    }
  }

  lemma SliceRead(c: Config, w: Mode, f: Format, b: bytes)
    requires f.Valid() && |b| < USIZE
    ensures Wf(c, f.Slice())
    ensures var d := Decode(c, w, f.Slice(), b);
            d.Ok? ==>
              && d == Decode(c, Plain, f.Slice(), b)
              && d.value.ListV? && |d.value.vs| < USIZE
              && forall i | 0 <= i < |d.value.vs| :: d.value.vs[i].IntV? && 0 <= d.value.vs[i].i < f.block.Modulus()
  {
    SliceIsWf(c, f);
    WindowedAgrees(c, f.Slice(), b);
    var d := Decode(c, w, f.Slice(), b);
    if d.Ok? {
      ReadIsTyped(c, f.Slice(), b);
      forall i | 0 <= i < |d.value.vs|
        ensures d.value.vs[i].IntV? && f.block.InRange(d.value.vs[i].i)
      {
        TypedBlocks(f.block, d.value.vs, i);
      }
    }
  }

  function DecodeStorage(c: Config, w: Mode, f: Format, b: bytes): (d: Parsed<seq<nat>>)
    requires f.Valid() && |b| < USIZE
  {
    SliceIsWf(c, f);
    var (tag, r) :- TakeByte(b);
    if tag == 0 then Ok([], r)
    else if tag == 1 then
      SliceRead(c, w, f, r);
      var (v, r') :- Decode(c, w, f.Slice(), r);
      if f.strict && v.vs == [] then Fail(InvalidValue, r') else Ok(Blocks(v.vs), r')
    else Fail(InvalidTagEncoding(tag), r)
  }

  function DecodeU64(c: Config, b: bytes): Parsed<nat> {
    match DecodeInt(c.ints, U64, b)
    case Ok(n, r) => IntReencode(c.ints, U64, b); Ok(n, r)
    case Fail(e, at) => Fail(e, at)
  }

  /** In strict mode, a bit is set behind the last one declared. */
  predicate PaddingSet(blocks: seq<nat>, bits: nat, per: nat)
    requires per > 0 && |blocks| == BlockCount(bits, per)
  {
    LastInUse(bits, per);
    bits % per != 0 && blocks[|blocks| - 1] / Pow2(bits % per) != 0
  }

  lemma LastInUse(bits: nat, per: nat)
    requires per > 0
    ensures bits % per != 0 ==> BlockCount(bits, per) > 0
  {
    CountFits(bits, per, bits);
    assert bits <= bits * per;
  }

  function DecodeBits(c: Config, w: Mode, f: Format, b: bytes): Parsed<BitVec>
    requires f.Valid() && |b| < USIZE
  {
    var (blocks, r) :- DecodeStorage(c, w, f, b);
    var (bits, r') :- DecodeU64(c, r);
    if f.strict then
      if |blocks| != BlockCount(bits, f.BlockBits()) then Fail(InvalidValue, r')
      else if PaddingSet(blocks, bits, f.BlockBits()) then Fail(InvalidValue, r')
      else Ok(BitVec(blocks, bits), r')
    else if bits > |blocks| * f.BlockBits() then Fail(InvalidValue, r')
    else Ok(BitVec(blocks, bits), r')
  }

  // Masking keeps the bits in use

  lemma {:induction false} ModKeepsBit(x: nat, m: nat, j: nat)
    requires j < m
    ensures Bit(x % Pow2(m), j) <==> Bit(x, j)
    decreases m
  {
    var p := Pow2(m - 1);
    assert Pow2(m) == 2 * p;
    HalfMod(x, p, 2 * p);
    if j > 0 {
      ModKeepsBit(x / 2, m - 1, j - 1);
    }
  }

  lemma HalfMod(x: nat, p: nat, m: nat)
    requires p > 0 && m == 2 * p
    ensures x % m % 2 == x % 2 && x % m / 2 == x / 2 % p
  {
    hide Times;
    var q, r := x / m, x % m;
    DivTimes(x, m);
    TwiceTimes(q, p);
    HalfSum(x, Times(q, p), r);
    DivFromTimes(x / 2, p, q, r / 2);
  }

  lemma DivTimes(x: nat, m: nat)
    requires m > 0
    ensures x == Times(x / m, m) + x % m && x % m < m
  {}

  lemma DivFromTimes(y: nat, p: nat, q: nat, r: nat)
    requires p > 0 && y == Times(q, p) + r && r < p
    ensures y / p == q && y % p == r
  {
    DivUnique(y, p, q, r);
  }

  lemma TwiceTimes(q: nat, p: nat)
    ensures Times(q, 2 * p) == 2 * Times(q, p)
  {
    assert q * (2 * p) == 2 * (q * p);
  }

  lemma HalfSum(x: nat, t: nat, r: nat)
    requires x == 2 * t + r
    ensures x / 2 == t + r / 2 && x % 2 == r % 2
  {}

  // Round trips

  lemma CountIs(bits: nat, per: nat)
    requires per > 0
    ensures BlockCount(bits, per) == bits / per + if bits % per == 0 then 0 else 1
  {
    var q, r := bits / per, bits % per;
    assert bits == q * per + r;
    if r == 0 {
      DivUnique(bits + per - 1, per, q, per - 1);
    } else {
      assert (q + 1) * per == q * per + per;
      DivUnique(bits + per - 1, per, q + 1, r - 1);
    }
  }

  /** The block of a bit in use is in use, and in the last block the bit lies before the padding. */
  lemma InUse(i: nat, bits: nat, per: nat)
    requires per > 0 && i < bits
    ensures i / per < BlockCount(bits, per)
    ensures i / per == BlockCount(bits, per) - 1 && bits % per != 0 ==> i % per < bits % per
  {
    CountIs(bits, per);
    var q, r, q', r' := bits / per, bits % per, i / per, i % per;
    assert bits == q * per + r && i == q' * per + r';
    if q' > q {
      TimesGrows(q', q, per);
    }
  }

  lemma KeepsBits(f: Format, v: BitVec, i: nat)
    requires f.Valid() && v.Valid(f) && i < v.bits
    ensures i / f.BlockBits() < |Serialized(f, v)|
    ensures BitAt(BitVec(Blocks(Serialized(f, v)), v.bits), f.BlockBits(), i) <==> BitAt(v, f.BlockBits(), i)
  {
    var per := f.BlockBits();
    CountFits(v.bits, per, |v.blocks|);
    InUse(i, v.bits, per);
    var used := v.bits % per;
    if f.strict && i / per == BlockCount(v.bits, per) - 1 && used != 0 {
      ModKeepsBit(v.blocks[i / per], used, i % per);
    }
  }

  lemma StorageBack(c: Config, w: Mode, f: Format, v: BitVec, rest: bytes)
    requires f.Valid() && v.Valid(f) && EncodeStorage(c, f, v).Wrote?
    requires |EncodeStorage(c, f, v).value + rest| < USIZE
    ensures DecodeStorage(c, w, f, EncodeStorage(c, f, v).value + rest) == Ok(Blocks(Serialized(f, v)), rest)
  {
    hide Decode, Encode;
    SliceIsWf(c, f);
    SliceTyped(f, v);
    CountFits(v.bits, f.BlockBits(), |v.blocks|);
    var b := EncodeStorage(c, f, v).value + rest;
    if v.bits == 0 {
      assert b[1..] == rest;
    } else {
      var e := Encode(c, f.Slice(), ListV(Serialized(f, v))).value;
      assert b[1..] == e + rest;
      CheckedRoundTrip(c, w, f.Slice(), ListV(Serialized(f, v)), rest);
      SliceRead(c, w, f, e + rest);
    }
  }

  /** Everything written is read back, strictly or not, with the declared bits. */
  lemma BitsBack(c: Config, w: Mode, f: Format, v: BitVec, rest: bytes)
    requires f.Valid() && v.Valid(f) && EncodeBits(c, f, v).Wrote? && |EncodeBits(c, f, v).value + rest| < USIZE
    ensures var v' := BitVec(Blocks(Serialized(f, v)), v.bits);
            && DecodeBits(c, w, f, EncodeBits(c, f, v).value + rest) == Ok(v', rest)
            && v'.Valid(f) && SameBits(v', v, f.BlockBits())
  {
    hide EncodeStorage, DecodeStorage, EncodeInt, DecodeInt, Serialized, SameBits;
    var per := f.BlockBits();
    var a, n := EncodeStorage(c, f, v).value, EncodeInt(c.ints, U64, v.bits);
    assert a + n + rest == a + (n + rest);
    StorageBack(c, w, f, v, n + rest);
    IntRoundTrip(c.ints, U64, v.bits, rest);
    PowValues();
    CountFits(v.bits, per, |v.blocks|);
    Written(f, v);
    SameBitsWritten(f, v, BitVec(Blocks(Serialized(f, v)), v.bits));
  }

  lemma SameBitsWritten(f: Format, v: BitVec, v': BitVec)
    requires f.Valid() && v.Valid(f) && v'.Valid(f) && v' == BitVec(Blocks(Serialized(f, v)), v.bits)
    ensures SameBits(v', v, f.BlockBits())
  {
    hide Bit, BitAt, Serialized, Blocks, BlockCount;
    forall i: nat | i < v.bits
      ensures BitAt(v', f.BlockBits(), i) <==> BitAt(v, f.BlockBits(), i)
    {
      KeepsBits(f, v, i);
    }
  }

  /** Written blocks fit their type, and in strict mode the last one has no padding bit. */
  lemma Written(f: Format, v: BitVec)
    requires f.Valid() && v.Valid(f)
    ensures var bs, used := Blocks(Serialized(f, v)), v.bits % f.BlockBits();
            && (forall i | 0 <= i < |bs| :: bs[i] < f.block.Modulus())
            && (f.strict && used != 0 ==> bs != [] && bs[|bs| - 1] / Pow2(used) == 0)
  {
    var bs, used := Blocks(Serialized(f, v)), v.bits % f.BlockBits();
    forall i | 0 <= i < |bs|
      ensures bs[i] < f.block.Modulus()
    {
      ModSmaller(v.blocks[i], Pow2(used));
    }
    CountIs(v.bits, f.BlockBits());
    if f.strict && used != 0 {
      var x := v.blocks[|bs| - 1];
      DivUnique(x % Pow2(used), Pow2(used), 0, x % Pow2(used));
    }
  }

  /** The blocks in use hold little more than the bits in use, so their encoding is always shorter
      than the address space. */
  lemma BlocksAreFew(f: Format, v: BitVec)
    requires f.Valid() && v.Valid(f)
    ensures Times(|Serialized(f, v)|, f.block.width) < USIZE / 4
    ensures Times(|Serialized(f, v)|, 1 + f.block.width) < USIZE / 2
  {
    var n, w, per := |Serialized(f, v)|, f.block.width, f.BlockBits();
    assert v.bits + per - 1 == n * per + (v.bits + per - 1) % per;
    EightTimes(n, w);
  }

  lemma EightTimes(n: nat, w: nat)
    requires w > 0
    ensures n * (8 * w) == 8 * Times(n, w) && Times(n, 1 + w) == n + Times(n, w) && Times(n, w) >= n
  {
    assert n * w >= n;
  }

  lemma {:induction false} IntsAreSmall(c: Config, k: IntKind, vs: seq<Value>)
    requires k.Valid() && Wf(c, IntS(k)) && AllTyped(IntS(k), vs) && EncodeAll(c, IntS(k), vs).Wrote?
    ensures |EncodeAll(c, IntS(k), vs).value| <= Times(|vs|, 1 + k.width)
  {
    hide EncodeInt, SizeInt, Times;
    if vs != [] {
      IntRoundTrip(c.ints, k, vs[0].i, []);
      IntIsSmall(c.ints, k, vs[0].i);
      IntsAreSmall(c, k, vs[1..]);
      TimesStep(|vs|, 1 + k.width);
    }
  }

  lemma SliceIsShort(c: Config, f: Format, v: BitVec)
    requires f.Valid() && v.Valid(f) && Wf(c, f.Slice()) && WellTyped(f.Slice(), ListV(Serialized(f, v)))
    requires Encode(c, f.Slice(), ListV(Serialized(f, v))).Wrote?
    ensures |Encode(c, f.Slice(), ListV(Serialized(f, v))).value| < USIZE / 2 + 17
  {
    hide EncodeAll, EncodeLen, Serialized;
    var vs := Serialized(f, v);
    SeqEncoded(c, f.Slice(), vs);
    LenSizeExact(c, f.len, |vs|);
    LenIsSmall(c, f.len, |vs|);
    IntsAreSmall(c, f.block, vs);
    BlocksAreFew(f, v);
  }

  /** Whenever a bit vector is written, its size was announced exactly: no sum on the way wraps. */
  lemma BitsSize(c: Config, f: Format, v: BitVec)
    requires f.Valid() && v.Valid(f) && EncodeBits(c, f, v).Wrote?
    ensures SizeOfBits(c, f, v) == Wrote(|EncodeBits(c, f, v).value|)
  {
    hide Encode, SizeOfSeq, Serialized, EncodeInt, SizeInt, BlockCount, Wf, AllTyped;
    SliceIsWf(c, f);
    SliceTyped(f, v);
    PowValues();
    IntRoundTrip(c.ints, U64, v.bits, []);
    IntIsSmall(c.ints, U64, v.bits);
    if v.bits != 0 {
      SliceIsShort(c, f, v);
      SliceSize(c, f, Serialized(f, v));
    }
  }

  lemma SliceSize(c: Config, f: Format, vs: seq<Value>)
    requires f.Valid() && Wf(c, f.Slice()) && WellTyped(f.Slice(), ListV(vs)) && Encode(c, f.Slice(), ListV(vs)).Wrote?
    requires |Encode(c, f.Slice(), ListV(vs)).value| < USIZE
    ensures SizeOfSeq(c, IntS(f.block), f.len, vs) == Wrote(|Encode(c, f.Slice(), ListV(vs)).value|)
  {
    hide Encode, SizeOfSeq;
    SizeExact(c, f.Slice(), ListV(vs));
    assert SizeOf(c, f.Slice(), ListV(vs)) == SizeOfSeq(c, IntS(f.block), f.len, vs);
  }

  /** A bit vector without surplus blocks and without dirty padding. */
  predicate Exact(f: Format, v: BitVec)
    requires f.Valid()
  {
    var used := v.bits % f.BlockBits();
    |v.blocks| == BlockCount(v.bits, f.BlockBits()) && (used != 0 ==> v.blocks != [] && v.blocks[|v.blocks| - 1] / Pow2(used) == 0)
  }

  /** Such a bit vector is written block by block as it is. */
  lemma ExactSerialized(f: Format, v: BitVec)
    requires f.Valid() && v.Valid(f) && Exact(f, v)
    ensures Blocks(Serialized(f, v)) == v.blocks
  {
    var used := v.bits % f.BlockBits();
    forall i | 0 <= i < |v.blocks|
      ensures SerializedBlock(f, v, i) == v.blocks[i]
    {
      if i == |v.blocks| - 1 && used != 0 {
        var x, m := v.blocks[i], Pow2(used);
        assert x == x / m * m + x % m;
      }
    }
  }

  lemma SliceReadAgain(c: Config, w: Mode, f: Format, b: bytes)
    requires f.Valid() && !c.ints.varint && |b| < USIZE && Wf(c, f.Slice()) && Decode(c, w, f.Slice(), b).Ok?
    ensures var d := Decode(c, w, f.Slice(), b);
            && WellTyped(f.Slice(), d.value) && Encode(c, f.Slice(), d.value).Wrote?
            && Encode(c, f.Slice(), d.value).value + d.rest == b
  {
    hide Decode, Encode;
    SliceIsWf(c, f);
    SliceRead(c, w, f, b);
    ReadAgain(c, f.Slice(), b);
    WritesAgain(c, f.Slice(), b);
  }

  lemma SameBlocks(vs: seq<Value>, vs': seq<Value>)
    requires forall i | 0 <= i < |vs| :: vs[i].IntV? && vs[i].i >= 0
    requires forall i | 0 <= i < |vs'| :: vs'[i].IntV? && vs'[i].i >= 0
    requires Blocks(vs) == Blocks(vs')
    ensures vs == vs'
  {
    forall i | 0 <= i < |vs|
      ensures vs[i] == vs'[i]
    {
      assert Blocks(vs)[i] == Blocks(vs')[i];
    }
  }

  lemma ExactNothing(f: Format, v: BitVec)
    requires f.Valid() && v.Valid(f) && Exact(f, v)
    ensures v.blocks == [] <==> v.bits == 0
  {
    hide BlockCount;
    CountFits(v.bits, f.BlockBits(), |v.blocks|);
  }

  lemma StorageAgain(c: Config, w: Mode, f: Format, v: BitVec, b: bytes)
    requires f.Valid() && f.strict && !c.ints.varint && |b| < USIZE && v.Valid(f) && Exact(f, v)
    requires DecodeStorage(c, w, f, b).Ok? && DecodeStorage(c, w, f, b).value == v.blocks
    ensures EncodeStorage(c, f, v).Wrote? && EncodeStorage(c, f, v).value + DecodeStorage(c, w, f, b).rest == b
  {
    hide Decode, Encode, Wf, WellTyped, Exact, BlockCount;
    ExactNothing(f, v);
    SliceIsWf(c, f);
    SliceTyped(f, v);
    if b[0] == 0 {
      assert [0] + b[1..] == b;
    } else {
      SliceRead(c, w, f, b[1..]);
      SliceReadAgain(c, w, f, b[1..]);
      ExactSerialized(f, v);
      var d := Decode(c, w, f.Slice(), b[1..]);
      SameBlocks(Serialized(f, v), d.value.vs);
      var e := Encode(c, f.Slice(), d.value).value;
      assert [1] + e + d.rest == [1] + (e + d.rest) == b;
    }
  }

  lemma StorageBlocks(c: Config, w: Mode, f: Format, b: bytes)
    requires f.Valid() && |b| < USIZE && DecodeStorage(c, w, f, b).Ok?
    ensures var bs := DecodeStorage(c, w, f, b).value;
            |bs| < USIZE && forall i | 0 <= i < |bs| :: bs[i] < f.block.Modulus()
  {
    hide Decode;
    if b[0] == 1 {
      SliceRead(c, w, f, b[1..]);
    }
  }

  lemma StrictShape(c: Config, w: Mode, f: Format, b: bytes)
    requires f.Valid() && f.strict && |b| < USIZE && DecodeBits(c, w, f, b).Ok?
    ensures var v := DecodeBits(c, w, f, b).value;
            v.Valid(f) && Exact(f, v)
  {
    hide DecodeStorage, DecodeInt;
    StorageBlocks(c, w, f, b);
    var v := DecodeBits(c, w, f, b).value;
    var s := DecodeStorage(c, w, f, b);
    IntReencode(c.ints, U64, s.rest);
    PowValues();
    CountCovers(v.bits, f.BlockBits());
  }

  lemma CountCovers(bits: nat, per: nat)
    requires per > 0
    ensures bits <= BlockCount(bits, per) * per
    ensures bits % per != 0 ==> BlockCount(bits, per) > 0
  {
    CountIs(bits, per);
    var q, r := bits / per, bits % per;
    assert bits == q * per + r;
    assert (q + 1) * per == q * per + per;
  }

  /** In strict mode with fixed-width integers, writing again any bit vector that was accepted
      gives exactly the bytes that were consumed. */
  lemma StrictReproduces(c: Config, w: Mode, f: Format, b: bytes)
    requires f.Valid() && f.strict && !c.ints.varint && |b| < USIZE && DecodeBits(c, w, f, b).Ok?
    ensures var d := DecodeBits(c, w, f, b);
            && d.value.Valid(f) && Exact(f, d.value)
            && EncodeBits(c, f, d.value).Wrote? && EncodeBits(c, f, d.value).value + d.rest == b
  {
    hide EncodeStorage, DecodeStorage, DecodeInt, EncodeInt, BlockCount, Exact;
    StrictShape(c, w, f, b);
    var s, d := DecodeStorage(c, w, f, b), DecodeBits(c, w, f, b);
    IntAgain(c, c.ints, U64, s.rest);
    StorageAgain(c, w, f, d.value, b);
    var a, n := EncodeStorage(c, f, d.value).value, EncodeInt(c.ints, U64, d.value.bits);
    assert a + n + d.rest == a + (n + d.rest);
  }

  /** The whole storage as a value, surplus blocks and padding included. */
  function Whole(blocks: seq<nat>): (vs: seq<Value>)
    ensures |vs| == |blocks| && forall i | 0 <= i < |vs| :: vs[i] == IntV(blocks[i])
  {
    seq(|blocks|, i requires 0 <= i < |blocks| => IntV(blocks[i]))
  }

  /** The lenient reader accepts any storage the declared bits fit in, and only that: surplus
      blocks and dirty padding do not touch the declared bits. */
  lemma LenientAccepts(c: Config, w: Mode, f: Format, blocks: seq<nat>, bits: nat, rest: bytes)
    requires f.Valid() && !f.strict && bits < USIZE
    requires Wf(c, f.Slice()) && WellTyped(f.Slice(), ListV(Whole(blocks))) && Encode(c, f.Slice(), ListV(Whole(blocks))).Wrote?
    requires U64.InRange(bits)
    requires var b := [1] + Encode(c, f.Slice(), ListV(Whole(blocks))).value + EncodeInt(c.ints, U64, bits) + rest;
             |b| < USIZE
    ensures var b := [1] + Encode(c, f.Slice(), ListV(Whole(blocks))).value + EncodeInt(c.ints, U64, bits) + rest;
            DecodeBits(c, w, f, b) == if bits <= |blocks| * f.BlockBits() then Ok(BitVec(blocks, bits), rest) else Fail(InvalidValue, rest)
  {
    hide Decode, Encode, Wf, WellTyped, DecodeStorage, DecodeInt, EncodeInt, Pow2;
    var e, n := Encode(c, f.Slice(), ListV(Whole(blocks))).value, EncodeInt(c.ints, U64, bits);
    assert [1] + e + n + rest == [1] + e + (n + rest);
    WholeRead(c, w, f, blocks, n + rest);
    IntRoundTrip(c.ints, U64, bits, rest);
  }

  lemma WholeRead(c: Config, w: Mode, f: Format, blocks: seq<nat>, rest: bytes)
    requires f.Valid() && !f.strict
    requires Wf(c, f.Slice()) && WellTyped(f.Slice(), ListV(Whole(blocks))) && Encode(c, f.Slice(), ListV(Whole(blocks))).Wrote?
    requires |[1] + Encode(c, f.Slice(), ListV(Whole(blocks))).value + rest| < USIZE
    ensures DecodeStorage(c, w, f, [1] + Encode(c, f.Slice(), ListV(Whole(blocks))).value + rest) == Ok(blocks, rest)
  {
    hide Decode, Encode, Wf, WellTyped;
    SliceIsWf(c, f);
    var e := Encode(c, f.Slice(), ListV(Whole(blocks))).value;
    assert ([1] + e + rest)[1..] == e + rest;
    CheckedRoundTrip(c, w, f.Slice(), ListV(Whole(blocks)), rest);
    SliceRead(c, w, f, e + rest);
    assert Blocks(Whole(blocks)) == blocks;
  }
}
