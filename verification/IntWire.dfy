/** The wire format of integers in plain numbers, as the module documentation lists it. */
module IntWire {
  import opened Prim
  import opened IntEncoding

  lemma PowRule(i: nat)
    ensures Pow256(0) == 1 && Pow256(i + 1) == 256 * Pow256(i)
  {}

  lemma Digits(q: nat, r: nat, t: nat, a: nat, b: nat)
    requires r < b && t < a
    ensures (q * b + r) * a + t == q * Times(a, b) + (Times(r, a) + t)
    ensures Times(r, a) + t < Times(a, b)
  {
    assert (q * b + r) * a == q * b * a + r * a;
    assert q * b * a == q * (a * b);
    TimesGrows(b, r, a);
    assert b * a == a * b;
  }

  lemma DivParts(n: nat, m: nat, t: nat, q: nat, r: nat, a: nat, b: nat)
    requires n == m * a + t && m == q * b + r && r < b && t < a
    ensures Times(a, b) > 0 && n / Times(a, b) == q
  {
    hide Times;
    Digits(q, r, t, a, b);
    DivUnique(n, Times(a, b), q, Times(r, a) + t);
  }

  lemma DivTwice(n: nat, a: nat, b: nat)
    requires a > 0 && b > 0
    ensures Times(a, b) > 0 && n / a / b == n / Times(a, b)
  {
    hide Times;
    DivParts(n, n / a, n % a, n / a / b, n / a % b, a, b);
  }

  /** Byte `i` counted from the end that holds the low digits is digit `i` in base 256. */
  lemma {:induction false} LittleDigit(n: nat, w: nat, i: nat)
    requires i < w
    ensures LittleBytes(n, w)[i] == n / Pow256(i) % 256
    decreases i
  {
    if i == 0 {
      assert Pow256(0) == 1 && n / 1 == n;
    } else {
      LittleDigit(n / 256, w - 1, i - 1);
      DivTwice(n, 256, Pow256(i - 1));
    }
  }

  lemma {:induction false} BigDigit(n: nat, w: nat, i: nat)
    requires i < w
    ensures BigBytes(n, w)[w - 1 - i] == n / Pow256(i) % 256
    decreases i
  {
    if i == 0 {
      assert Pow256(0) == 1 && n / 1 == n;
    } else {
      BigDigit(n / 256, w - 1, i - 1);
      DivTwice(n, 256, Pow256(i - 1));
    }
  }

  /** Little-endian bytes are the digits in base 256, the lowest first; big-endian bytes the lowest
      last. */
  lemma ByteOrder(order: Endian, n: nat, w: nat)
    ensures |ToBytes(order, n, w)| == w
    ensures forall i | 0 <= i < w :: ToBytes(order, n, w)[i] == n / Pow256(if order == Little then i else w - 1 - i) % 256
  {
    hide Pow256;
    forall i | 0 <= i < w
      ensures ToBytes(order, n, w)[i] == n / Pow256(if order == Little then i else w - 1 - i) % 256
    {
      if order == Little { LittleDigit(n, w, i); } else { BigDigit(n, w, w - 1 - i); }
    }
  }

  /** The range of each integer type. */
  lemma Range(k: IntKind, i: int)
    requires k.width in {1, 2, 4, 8, 16}
    ensures k.Valid()
    ensures var half := if k.width == 1 then 0x80
                        else if k.width == 2 then 0x8000
                        else if k.width == 4 then 0x8000_0000
                        else if k.width == 8 then 0x8000_0000_0000_0000
                        else 0x8000_0000_0000_0000_0000_0000_0000_0000;
            k.InRange(i) <==> if k.signed then -half <= i < half else 0 <= i < 2 * half
  {
    PowValues();
  }

  // Variable width

  /** Numbers below 251 are one byte. The others are a tag and the smallest payload of 2, 4, 8 or 16
      bytes that holds them. */
  lemma VarForm(order: Endian, n: nat, w: nat)
    requires w in {2, 4, 8, 16} && n < Pow256(w)
    ensures n < 251 ==> EncodeVar(order, n, w) == [n]
    ensures 251 <= n < 0x1_0000 ==> EncodeVar(order, n, w) == [251] + ToBytes(order, n, 2)
    ensures 0x1_0000 <= n < 0x1_0000_0000 ==> EncodeVar(order, n, w) == [252] + ToBytes(order, n, 4)
    ensures 0x1_0000_0000 <= n < 0x1_0000_0000_0000_0000 ==> EncodeVar(order, n, w) == [253] + ToBytes(order, n, 8)
    ensures 0x1_0000_0000_0000_0000 <= n ==> EncodeVar(order, n, w) == [254] + ToBytes(order, n, 16)
  {
    hide ToBytes, Pow256;
    PowValues();
    if n > SINGLE_BYTE_MAX {
      EncodeVarShape(order, n, w);
    }
  }

  /** The bytes of a variable-length integer, one by one, and the size announced for it. */
  lemma VarBytes(order: Endian, n: nat, w: nat)
    requires w in {2, 4, 8, 16} && n < Pow256(w)
    ensures var b := EncodeVar(order, n, w);
            && SizeVar(n, w) == |b|
            && if n < 251 then b == [n]
               else
                 && |b| == (if n < 0x1_0000 then 3 else if n < 0x1_0000_0000 then 5 else if n < 0x1_0000_0000_0000_0000 then 9 else 17)
                 && b[0] == (if n < 0x1_0000 then 251 else if n < 0x1_0000_0000 then 252 else if n < 0x1_0000_0000_0000_0000 then 253 else 254)
                 && forall i | 1 <= i < |b| :: b[i] == n / Pow256(if order == Little then i - 1 else |b| - 1 - i) % 256
  {
    hide ToBytes, Pow256, EncodeVar;
    VarForm(order, n, w);
    SizeVarExact(order, n, w);
    if n >= 251 {
      var p := |EncodeVar(order, n, w)| - 1;
      ByteOrder(order, n, p);
    }
  }

  lemma PayloadRead(order: Endian, b: bytes, p: nat)
    requires |b| >= 1 + p
    ensures b[1..][..p] == b[1..1 + p] && b[1..][p..] == b[1 + p..]
    ensures var n := FromBytes(order, b[1..1 + p]);
            && n < Pow256(p)
            && forall i | 1 <= i <= p :: b[i] == n / Pow256(if order == Little then i - 1 else p - i) % 256
  {
    hide ToBytes, FromBytes, Pow256;
    var payload := b[1..1 + p];
    OrderOnto(order, payload);
    ByteOrder(order, FromBytes(order, payload), p);
    assert forall i | 1 <= i <= p :: b[i] == payload[i - 1];
  }

  /** Reading goes by the first byte: up to 250 it is the number, 255 is no tag, and the others
      announce a payload, which must not be wider than the type. */
  lemma VarRead(order: Endian, w: nat, b: bytes)
    requires w in {2, 4, 8, 16} && b != []
    ensures b[0] <= 250 ==> DecodeVar(order, w, b) == Ok(b[0], b[1..])
    ensures b[0] == 255 ==> DecodeVar(order, w, b) == Fail(InvalidTagEncoding(255), b[1..])
    ensures 251 <= b[0] <= 254 ==>
              var p, d := if b[0] == 251 then 2 else if b[0] == 252 then 4 else if b[0] == 253 then 8 else 16, DecodeVar(order, w, b);
              if p > w then d == Fail(InvalidTagEncoding(b[0]), b[1..])
              else if |b| < 1 + p then d == Fail(ReadSizeLimit(p), b[1..])
              else
                && d.Ok? && d.rest == b[1 + p..] && d.value < Pow256(p)
                && forall i | 1 <= i <= p :: b[i] == d.value / Pow256(if order == Little then i - 1 else p - i) % 256
  {
    hide FromBytes, Pow256;
    if 251 <= b[0] <= 254 {
      var p := if b[0] == 251 then 2 else if b[0] == 252 then 4 else if b[0] == 253 then 8 else 16;
      if p <= w && |b| >= 1 + p {
        PayloadRead(order, b, p);
      }
    }
  }

  lemma VarReadEmpty(order: Endian, w: nat)
    ensures DecodeVar(order, w, []) == Fail(ReadSizeLimit(1), [])
  {}

  // Zigzag

  /** Zigzag counts 0, -1, 1, -2, 2 and so on, and so does its inverse. */
  lemma ZigzagValue(k: IntKind, i: int)
    requires k.Valid() && k.InRange(i) && k.signed
    ensures Zigzag(k, i) == if i < 0 then -2 * i - 1 else 2 * i
  {
    hide Pow256;
    CastValue(i, k.Modulus());
  }

  lemma UnzigzagValue(k: IntKind, n: nat)
    requires k.Valid() && n < k.Modulus() && k.signed
    ensures Unzigzag(k, n) == if n % 2 == 0 then n / 2 else -(n / 2) - 1
  {
    hide Pow256;
    ModulusEven(k);
  }

  // Every integer type under every configuration

  /** Two's complement bytes when the configuration is fixed-width or the type is one byte wide;
      otherwise variable width, signed numbers in zigzag. */
  lemma IntBytes(c: IntConfig, k: IntKind, i: int)
    requires k.Valid() && k.InRange(i)
    ensures var e := EncodeInt(c, k, i);
            if !c.varint || k.width == 1 then
              && |e| == k.width
              && forall j | 0 <= j < k.width ::
                   e[j] == (if i < 0 then i + Pow256(k.width) else i) / Pow256(if c.order == Little then j else k.width - 1 - j) % 256
            else
              var n := if !k.signed then i else if i < 0 then -2 * i - 1 else 2 * i;
              0 <= n < Pow256(k.width) && e == EncodeVar(c.order, n, k.width)
    ensures |EncodeInt(c, k, i)| == SizeInt(c, k, i)
  {
    hide Pow256, ToBytes, EncodeVar, SizeVar, DecodeInt, DecodeVar;
    IntRoundTrip(c, k, i, []);
    if !c.varint || k.width == 1 {
      CastValue(i, k.Modulus());
      ByteOrder(c.order, k.Cast(i), k.width);
    } else if k.signed {
      ZigzagValue(k, i);
      ZigzagInverse(k, i);
    }
  }

  /** Reading takes the same forms apart. */
  lemma IntRead(c: IntConfig, k: IntKind, b: bytes)
    requires k.Valid()
    ensures !c.varint || k.width == 1 ==>
              if |b| < k.width then DecodeInt(c, k, b) == Fail(ReadSizeLimit(k.width), b)
              else
                var d := DecodeInt(c, k, b);
                && d.Ok? && d.rest == b[k.width..] && k.InRange(d.value)
                && forall j | 0 <= j < k.width ::
                     b[j] == (if d.value < 0 then d.value + Pow256(k.width) else d.value) / Pow256(if c.order == Little then j else k.width - 1 - j) % 256
    ensures c.varint && k.width > 1 ==>
              match DecodeVar(c.order, k.width, b)
              case Ok(n, r) => DecodeInt(c, k, b) == Ok(if !k.signed then n else if n % 2 == 0 then n / 2 else -(n / 2) - 1, r)
              case Fail(e, at) => DecodeInt(c, k, b) == Fail(e, at)
  {
    hide Pow256, ToBytes, FromBytes, EncodeVar, DecodeVar;
    if !c.varint || k.width == 1 {
      if |b| >= k.width {
        var payload := b[..k.width];
        var n := FromBytes(c.order, payload);
        OrderOnto(c.order, payload);
        FixedOnto(k, n);
        ByteOrder(c.order, n, k.width);
        var i := k.FromUnsigned(n);
        assert n == if i < 0 then i + Pow256(k.width) else i;
        assert forall j | 0 <= j < k.width :: b[j] == payload[j];
      }
    } else if DecodeVar(c.order, k.width, b).Ok? {
      VarReencode(c.order, k.width, b);
      if k.signed {
        UnzigzagValue(k, DecodeVar(c.order, k.width, b).value);
      }
    }
  }
}
