/** Integer encodings: fixed width, variable width with tags 251..254, and zigzag for signed kinds. */
module IntEncoding {
  import opened Prim

  /** An integer type: its width in bytes and whether it is signed. `usize` is `u64`. */
  datatype IntKind = IntKind(width: nat, signed: bool) {
    predicate Valid() { width in {1, 2, 4, 8, 16} }

    function Modulus(): (m: int)
      ensures m > 0
    {
      Pow256(width)
    }

    predicate InRange(i: int) {
      if signed then -Modulus() <= 2 * i < Modulus() else 0 <= i < Modulus()
    }

    /** The `as` cast from any integer to the unsigned type of this width. */
    function Cast(i: int): (n: nat)
      ensures n < Modulus()
    {
      i % Modulus()
    }

    /** The `as` cast from the unsigned type of this width. */
    function FromUnsigned(n: nat): int {
      if signed && 2 * n >= Modulus() then n - Modulus() else n
    }

    /** Bitwise complement at this width. */
    function Not(n: nat): int { Modulus() - 1 - n }
  }

  datatype IntConfig = IntConfig(varint: bool, order: Endian)

  // Zigzag

  function Zigzag(k: IntKind, i: int): int {
    if i < 0 then k.Not(k.Cast(i)) * 2 + 1 else k.Cast(i) * 2
  }

  function Unzigzag(k: IntKind, n: nat): int
    requires n < k.Modulus()
  {
    if n % 2 == 0 then k.FromUnsigned(n / 2) else k.FromUnsigned(k.Not(n / 2))
  }

  lemma CastValue(i: int, m: int)
    requires -m <= i < m
    ensures i % m == if i < 0 then i + m else i
  {}

  lemma ModulusEven(k: IntKind)
    requires k.Valid()
    ensures k.Modulus() % 2 == 0
  {
    assert k.Modulus() == 256 * Pow256(k.width - 1);
  }

  /** Zigzag never overflows its unsigned type, even at the minimum value, and is undone by
      `Unzigzag`. */
  lemma ZigzagInverse(k: IntKind, i: int)
    requires k.Valid() && k.signed && k.InRange(i)
    ensures 0 <= Zigzag(k, i) < k.Modulus()
    ensures Unzigzag(k, Zigzag(k, i)) == i
  {
    hide Pow256;
    ModulusEven(k);
    var m, z := k.Modulus(), Zigzag(k, i);
    CastValue(i, m);
    if i < 0 {
      assert z == -2 * i - 1 && z / 2 == -1 - i && z % 2 == 1;
    } else {
      assert z == 2 * i && z / 2 == i && z % 2 == 0;
    }
  }

  /** Every unsigned value is the zigzag image of exactly the signed value it decodes to. */
  lemma ZigzagOnto(k: IntKind, n: nat)
    requires k.Valid() && k.signed && n < k.Modulus()
    ensures k.InRange(Unzigzag(k, n))
    ensures Zigzag(k, Unzigzag(k, n)) == n
  {
    hide Pow256;
    ModulusEven(k);
    var m, h := k.Modulus(), n / 2;
    var i := Unzigzag(k, n);
    if n % 2 == 0 {
      assert i == h && n == 2 * h;
      CastValue(i, m);
    } else {
      assert i == -1 - h && n == 2 * h + 1;
      CastValue(i, m);
      assert k.Not(k.Cast(i)) == h;
    }
  }

  // Fixed width

  lemma FixedInverse(k: IntKind, i: int)
    requires k.Valid() && k.InRange(i)
    ensures k.FromUnsigned(k.Cast(i)) == i
  {
    hide Pow256;
    CastValue(i, k.Modulus());
  }

  lemma FixedOnto(k: IntKind, n: nat)
    requires k.Valid() && n < k.Modulus()
    ensures k.InRange(k.FromUnsigned(n))
    ensures k.Cast(k.FromUnsigned(n)) == n
  {
    hide Pow256;
    CastValue(k.FromUnsigned(n), k.Modulus());
  }

  // Variable width

  const SINGLE_BYTE_MAX: byte := 250
  const U16_BYTE: byte := 251
  const U32_BYTE: byte := 252
  const U64_BYTE: byte := 253
  const U128_BYTE: byte := 254

  predicate PayloadWidth(p: nat) { p in {2, 4, 8, 16} }

  function TagOf(p: nat): byte
    requires PayloadWidth(p)
  {
    if p == 2 then U16_BYTE else if p == 4 then U32_BYTE else if p == 8 then U64_BYTE else U128_BYTE
  }

  /** Tag and payload for the first listed width, from `p` up to `w`, that holds `n`; the last
      width is used without a test. */
  function EncodeFrom(order: Endian, n: nat, w: nat, p: nat): bytes
    requires PayloadWidth(w) && PayloadWidth(p) && p <= w
    decreases w - p
  {
    if p == w || n < Pow256(p) then [TagOf(p)] + ToBytes(order, n, p)
    else EncodeFrom(order, n, w, 2 * p)
  }

  function EncodeVar(order: Endian, n: nat, w: nat): bytes
    requires PayloadWidth(w)
  {
    if n <= SINGLE_BYTE_MAX then [n] else EncodeFrom(order, n, w, 2)
  }

  function SizeVar(n: nat, w: nat): nat {
    if n <= SINGLE_BYTE_MAX then 1
    else if w == 2 || n <= 0xFFFF then 3
    else if w == 4 || n <= 0xFFFF_FFFF then 5
    else if w == 8 || n <= 0xFFFF_FFFF_FFFF_FFFF then 9
    else 17
  }

  function PayloadOf(tag: byte): Option<nat> {
    if tag == U16_BYTE then Some(2)
    else if tag == U32_BYTE then Some(4)
    else if tag == U64_BYTE then Some(8)
    else if tag == U128_BYTE then Some(16)
    else None
  }

  function DecodeVar(order: Endian, w: nat, b: bytes): Parsed<nat> {
    var (tag, r) :- TakeByte(b);
    if tag <= SINGLE_BYTE_MAX then Ok(tag, r)
    else
      match PayloadOf(tag)
      case Some(p) =>
        if p <= w then
          var (payload, r') :- Take(r, p);
          Ok(FromBytes(order, payload), r')
        else Fail(InvalidTagEncoding(tag), r)
      case None => Fail(InvalidTagEncoding(tag), r)
  }

  /** The payload width the encoder picks above `SINGLE_BYTE_MAX` does not depend on `w`. */
  function ShortestPayload(n: nat): (p: nat)
    ensures PayloadWidth(p)
  {
    if n <= 0xFFFF then 2 else if n <= 0xFFFF_FFFF then 4 else if n < USIZE then 8 else 16
  }

  lemma EncodeVarShape(order: Endian, n: nat, w: nat)
    requires PayloadWidth(w) && n < Pow256(w) && n > SINGLE_BYTE_MAX
    ensures ShortestPayload(n) <= w && n < Pow256(ShortestPayload(n))
    ensures EncodeVar(order, n, w) == [TagOf(ShortestPayload(n))] + ToBytes(order, n, ShortestPayload(n))
  {
    PowValues();
    assert EncodeFrom(order, n, w, 2) == if w == 2 || n < Pow256(2) then [TagOf(2)] + ToBytes(order, n, 2) else EncodeFrom(order, n, w, 4);
    if w > 2 && n >= Pow256(2) {
      assert EncodeFrom(order, n, w, 4) == if w == 4 || n < Pow256(4) then [TagOf(4)] + ToBytes(order, n, 4) else EncodeFrom(order, n, w, 8);
    }
  }

  lemma SizeVarExact(order: Endian, n: nat, w: nat)
    requires PayloadWidth(w) && n < Pow256(w)
    ensures |EncodeVar(order, n, w)| == SizeVar(n, w)
  {
    PowValues();
    if n > SINGLE_BYTE_MAX {
      EncodeVarShape(order, n, w);
    }
  }

  /** Encoding the same number at any two widths that hold it gives the same bytes. */
  lemma VarWidthIrrelevant(order: Endian, n: nat, w: nat, w': nat)
    requires PayloadWidth(w) && PayloadWidth(w') && n < Pow256(w) && n < Pow256(w')
    ensures EncodeVar(order, n, w) == EncodeVar(order, n, w')
  {
    if n > SINGLE_BYTE_MAX {
      EncodeVarShape(order, n, w);
      EncodeVarShape(order, n, w');
    }
  }

  /** A tag with a payload width the target admits is read as the payload's value. */
  lemma DecodeTagged(order: Endian, w: nat, p: nat, payload: bytes, rest: bytes)
    requires PayloadWidth(p) && p <= w && |payload| == p
    ensures DecodeVar(order, w, [TagOf(p)] + payload + rest) == Ok(FromBytes(order, payload), rest)
  {
    var b := [TagOf(p)] + payload + rest;
    assert b[1..] == payload + rest;
    assert (payload + rest)[..p] == payload;
    assert (payload + rest)[p..] == rest;
    assert PayloadOf(b[0]) == Some(p);
  }

  lemma VarInverse(order: Endian, n: nat, w: nat, rest: bytes)
    requires PayloadWidth(w) && n < Pow256(w)
    ensures DecodeVar(order, w, EncodeVar(order, n, w) + rest) == Ok(n, rest)
  {
    if n <= SINGLE_BYTE_MAX {
      var b := [n] + rest;
      assert b[0] == n && b[1..] == rest;
    } else {
      EncodeVarShape(order, n, w);
      var p := ShortestPayload(n);
      DecodeTagged(order, w, p, ToBytes(order, n, p), rest);
      OrderRoundTrip(order, n, p);
    }
  }

  /** An accepted input is either one small byte or an admissible tag and its whole payload. */
  lemma DecodedShape(order: Endian, w: nat, b: bytes)
    requires DecodeVar(order, w, b).Ok?
    ensures |b| > 0
    ensures b[0] <= SINGLE_BYTE_MAX ==> DecodeVar(order, w, b) == Ok(b[0], b[1..])
    ensures b[0] > SINGLE_BYTE_MAX ==>
              && PayloadOf(b[0]).Some?
              && var p := PayloadOf(b[0]).value;
              && PayloadWidth(p) && p <= w && b[0] == TagOf(p)
              && 1 + p <= |b|
              && DecodeVar(order, w, b) == Ok(FromBytes(order, b[1..1 + p]), b[1 + p..])
  {
    if b[0] > SINGLE_BYTE_MAX {
      var p := PayloadOf(b[0]).value;
      assert b[1..][..p] == b[1..1 + p];
      assert b[1..][p..] == b[1 + p..];
    }
  }

  lemma PowMonotone(p: nat, w: nat)
    requires p <= w
    ensures Pow256(p) <= Pow256(w)
  {
    if p < w {
      PowMonotone(p, w - 1);
    }
  }

  /** No tag shorter than the one the encoder picks could have carried the value. */
  lemma ShortestIsLeast(n: nat, p: nat)
    requires PayloadWidth(p) && n < Pow256(p)
    ensures ShortestPayload(n) <= p
  {
    PowValues();
  }

  lemma ReencodeTagged(order: Endian, w: nat, p: nat, payload: bytes)
    requires PayloadWidth(w) && PayloadWidth(p) && p <= w && |payload| == p
    ensures var n := FromBytes(order, payload);
            && n < Pow256(w)
            && 0 < |EncodeVar(order, n, w)| <= 1 + p
            && (EncodeVar(order, n, w) == [TagOf(p)] + payload <==> EncodeVar(order, n, w)[0] == TagOf(p))
  {
    hide Pow256, ToBytes, FromBytes;
    var n := FromBytes(order, payload);
    OrderOnto(order, payload);
    PowMonotone(p, w);
    if n > SINGLE_BYTE_MAX {
      EncodeVarShape(order, n, w);
      ShortestIsLeast(n, p);
    }
  }

  /** Re-encoding what was accepted is never longer, and gives back the same bytes exactly when
      the tag read was the tag the encoder would have picked. */
  lemma VarReencode(order: Endian, w: nat, b: bytes)
    requires PayloadWidth(w)
    requires DecodeVar(order, w, b).Ok?
    ensures var d := DecodeVar(order, w, b);
            var used := |b| - |d.rest|;
            && d.value < Pow256(w)
            && 0 < |EncodeVar(order, d.value, w)| <= used <= |b|
            && (EncodeVar(order, d.value, w) == b[..used] <==> EncodeVar(order, d.value, w)[0] == b[0])
  {
    hide DecodeVar, FromBytes, ToBytes;
    DecodedShape(order, w, b);
    if b[0] > SINGLE_BYTE_MAX {
      hide EncodeVar, Pow256;
      var p := PayloadOf(b[0]).value;
      ReencodeTagged(order, w, p, b[1..1 + p]);
      assert b[..1 + p] == [TagOf(p)] + b[1..1 + p];
    } else {
      PowMonotone(1, w);
      PowValues();
    }
  }

  /** A longer tag than needed is accepted, so encodings of this form are not unique. */
  lemma LongTagAccepted()
    ensures DecodeVar(Little, 2, [U16_BYTE, 5, 0]) == Ok(5, [])
    ensures EncodeVar(Little, 5, 2) == [5]
  {
    var b: bytes := [U16_BYTE, 5, 0];
    assert b[1..] == [5, 0] && [5, 0][..2] == [5, 0] && [5, 0][2..] == [];
    assert [5, 0][1..] == [0] && LittleValue([0]) == 0;
  }

  // The configured encoding of one integer

  predicate FixedKind(c: IntConfig, k: IntKind) { k.width == 1 || !c.varint }

  function EncodeInt(c: IntConfig, k: IntKind, i: int): bytes
    requires k.Valid() && k.InRange(i)
  {
    if FixedKind(c, k) then ToBytes(c.order, k.Cast(i), k.width)
    else if k.signed then ZigzagInverse(k, i); EncodeVar(c.order, Zigzag(k, i), k.width)
    else EncodeVar(c.order, i, k.width)
  }

  function SizeInt(c: IntConfig, k: IntKind, i: int): nat
    requires k.Valid() && k.InRange(i)
  {
    if FixedKind(c, k) then k.width
    else if k.signed then ZigzagInverse(k, i); SizeVar(Zigzag(k, i), k.width)
    else SizeVar(i, k.width)
  }

  function DecodeInt(c: IntConfig, k: IntKind, b: bytes): Parsed<int>
    requires k.Valid()
  {
    if FixedKind(c, k) then
      var (payload, r) :- Take(b, k.width);
      Ok(k.FromUnsigned(FromBytes(c.order, payload)), r)
    else
      var (n, r) :- DecodeVar(c.order, k.width, b);
      if !k.signed then Ok(n, r)
      else if n < k.Modulus() then Ok(Unzigzag(k, n), r)
      else assert false by { VarReencode(c.order, k.width, b); } Ok(0, r)
  }

  /** For each width, sign, byte order and encoding: reading undoes writing, and the announced
      size is exact. */
  lemma IntRoundTrip(c: IntConfig, k: IntKind, i: int, rest: bytes)
    requires k.Valid() && k.InRange(i)
    ensures |EncodeInt(c, k, i)| == SizeInt(c, k, i)
    ensures DecodeInt(c, k, EncodeInt(c, k, i) + rest) == Ok(i, rest)
  {
    hide Pow256, ToBytes, FromBytes, EncodeVar, DecodeVar, Zigzag, Unzigzag, SizeVar;
    if FixedKind(c, k) {
      var payload := ToBytes(c.order, k.Cast(i), k.width);
      assert (payload + rest)[..k.width] == payload && (payload + rest)[k.width..] == rest;
      OrderRoundTrip(c.order, k.Cast(i), k.width);
      FixedInverse(k, i);
    } else if k.signed {
      ZigzagInverse(k, i);
      VarInverse(c.order, Zigzag(k, i), k.width, rest);
      SizeVarExact(c.order, Zigzag(k, i), k.width);
    } else {
      VarInverse(c.order, i, k.width, rest);
      SizeVarExact(c.order, i, k.width);
    }
  }

  /** An integer takes at most one byte more than its width. */
  lemma IntIsSmall(c: IntConfig, k: IntKind, i: int)
    requires k.Valid() && k.InRange(i)
    ensures SizeInt(c, k, i) <= 1 + k.width <= 17
  {}

  /** Whatever is accepted is in range, and writing it again never takes more bytes than were
      read; a fixed-width read is reproduced byte for byte. */
  lemma IntReencode(c: IntConfig, k: IntKind, b: bytes)
    requires k.Valid()
    requires DecodeInt(c, k, b).Ok?
    ensures var Ok(i, rest) := DecodeInt(c, k, b);
            var used := |b| - |rest|;
            && k.InRange(i)
            && 0 < |EncodeInt(c, k, i)| <= used <= |b|
            && (EncodeInt(c, k, i) == b[..used] <==> FixedKind(c, k) || EncodeInt(c, k, i)[0] == b[0])
  {
    hide Pow256, ToBytes, FromBytes, EncodeVar, DecodeVar, Zigzag, Unzigzag;
    var Ok(i, rest) := DecodeInt(c, k, b);
    if FixedKind(c, k) {
      var payload := b[..k.width];
      OrderOnto(c.order, payload);
      FixedOnto(k, FromBytes(c.order, payload));
    } else {
      VarReencode(c.order, k.width, b);
      var n := DecodeVar(c.order, k.width, b).value;
      if k.signed {
        ZigzagOnto(k, n);
      }
    }
  }

  lemma VarExtend(order: Endian, w: nat, b: bytes, x: bytes)
    requires PayloadWidth(w)
    ensures Stable(DecodeVar(order, w, b), DecodeVar(order, w, b + x), b, x)
  {
    TakeByteExtend(b, x);
    if b != [] && b[0] > SINGLE_BYTE_MAX && PayloadOf(b[0]).Some? {
      TakeExtend(b[1..], PayloadOf(b[0]).value, x);
    }
  }

  /** Reading depends only on the bytes it consumes: more input changes nothing but the rest. */
  lemma IntExtend(c: IntConfig, k: IntKind, b: bytes, x: bytes)
    requires k.Valid()
    ensures Stable(DecodeInt(c, k, b), DecodeInt(c, k, b + x), b, x)
  {
    if FixedKind(c, k) {
      TakeExtend(b, k.width, x);
    } else {
      VarExtend(c.order, k.width, b, x);
      if DecodeVar(c.order, k.width, b).Ok? {
        VarReencode(c.order, k.width, b);
      }
    }
  }
}
