/** Bytes, outcomes of reads and writes, and the byte-order conversions shared by every module. */
module Prim {
  type byte = b: int | 0 <= b < 256
  type bytes = seq<byte>

  /** One more than `usize::MAX` on a 64-bit target. */
  const USIZE: nat := 0x1_0000_0000_0000_0000

  datatype Option<+T> = None | Some(value: T)

  datatype ReadError =
    | ReadSizeLimit(needed: nat)
    | InvalidBoolEncoding(value: byte)
    | InvalidTagEncoding(tag: nat)
    | TagEncodingOverflow
    | InvalidUtf8Encoding
    | InvalidUtf8Code(code: nat)
    | InvalidCharLead(lead: byte)
    | PointerSizedReadError
    | PreallocationSizeLimit(size: nat, limit: nat)
    | LengthEncodingOverflow
    | InvalidValue
    | TrailingBytes

  datatype WriteError =
    | WriteSizeLimit(needed: nat)
    | WriteLengthOverflow
    | WritePreallocationLimit(size: nat, limit: nat)
    | WriteTagOverflow
    | ShortIterator

  /** The outcome of reading from a byte slice: a value and the unread rest, or an error
      and the place where the reader was left. */
  datatype Parsed<+T> = Ok(value: T, rest: bytes) | Fail(error: ReadError, at: bytes) {
    predicate IsFailure() { Fail? }

    function PropagateFailure<U>(): Parsed<U>
      requires Fail?
    {
      Fail(error, at)
    }

    function Extract(): (T, bytes)
      requires Ok?
    {
      (value, rest)
    }

    /** Leave a trusted window: whatever happened inside, the parent stands after the window. */
    function After(parent: bytes): Parsed<T> {
      match this
      case Ok(v, _) => Ok(v, parent)
      case Fail(e, _) => Fail(e, parent)
    }
  }

  /** The outcome of a fallible computation on the writing side. */
  datatype Written<+T> = Wrote(value: T) | Refused(error: WriteError) {
    predicate IsFailure() { Refused? }

    function PropagateFailure<U>(): Written<U>
      requires Refused?
    {
      Refused(error)
    }

    function Extract(): T
      requires Wrote?
    {
      value
    }
  }

  /** A product of naturals is a natural. */
  function Times(a: nat, b: nat): nat { a * b }

  /** Addition and multiplication of `usize` without overflow checks, as in release builds. */
  function WrappingAdd(a: nat, b: nat): (n: nat)
    ensures n < USIZE
  {
    (a + b) % USIZE
  }

  function WrappingMul(a: nat, b: nat): (n: nat)
    ensures n < USIZE
  {
    Times(a, b) % USIZE
  }

  lemma TimesGrows(q: nat, n: nat, per: nat)
    requires q > n
    ensures q * per >= n * per + per
  {
    var k: nat := q - n - 1;
    assert q * per == n * per + per + k * per;
    assert k * per >= 0;
  }

  lemma DivUnique(y: nat, p: nat, q: nat, r: nat)
    requires p > 0 && y == q * p + r && r < p
    ensures y / p == q && y % p == r
  {
    var q', r' := y / p, y % p;
    assert y == q' * p + r';
    if q' > q { TimesGrows(q', q, p); } else if q' < q { TimesGrows(q, q', p); }
  }

  /** Wrapping the parts of a sum early changes nothing. */
  lemma WrappedSum(a: nat, b: nat)
    ensures WrappingAdd(a % USIZE, b % USIZE) == WrappingAdd(a, b % USIZE) == WrappingAdd(a % USIZE, b) == (a + b) % USIZE
  {
    var q, r, q', r' := a / USIZE, a % USIZE, b / USIZE, b % USIZE;
    ModPlus(r + r', q + q');
    ModPlus(a + r', q');
    ModPlus(r + b, q);
  }

  lemma ModPlus(n: nat, k: nat)
    ensures (n + k * USIZE) % USIZE == n % USIZE
  {
    DivUnique(n + k * USIZE, USIZE, n / USIZE + k, n % USIZE);
  }

  lemma WrappingAssociates(a: nat, b: nat, d: nat)
    ensures WrappingAdd(a, WrappingAdd(b, d)) == WrappingAdd(WrappingAdd(a, b), d)
  {
    WrappedSum(a, b + d);
    WrappedSum(a + b, d);
  }

  /** Equal as far as a `usize` can tell. */
  predicate SameAddress(n: nat, m: nat) { n % USIZE == m % USIZE }

  lemma SameSum(n: nat, n': nat, m: nat, m': nat)
    requires SameAddress(n, n') && SameAddress(m, m')
    ensures SameAddress(n + m, n' + m')
  {
    hide WrappingAdd;
    WrappedSum(n, m);
    WrappedSum(n', m');
  }

  lemma SameSelf(n: nat)
    ensures SameAddress(n, n)
  {}

  lemma SameSmall(n: nat, m: nat)
    requires SameAddress(n, m) && n < USIZE && m < USIZE
    ensures n == m
  {}

  lemma SameWrapped(n: nat)
    ensures SameAddress(n, n % USIZE)
  {}

  lemma WrappedProduct(a: nat, b: nat)
    ensures WrappingMul(a % USIZE, b) == Times(a, b) % USIZE
  {
    var q, r := a / USIZE, a % USIZE;
    assert a == q * USIZE + r;
    var q', r' := r * b / USIZE, r * b % USIZE;
    assert r * b == q' * USIZE + r';
    assert a * b == (q * b + q') * USIZE + r' by {
      assert (q * USIZE + r) * b == q * b * USIZE + r * b;
    }
    DivUnique(a * b, USIZE, q * b + q', r');
  }

  /** Split off exactly `n` bytes, or report the size that was asked for and stay put. */
  function Take(b: bytes, n: nat): Parsed<bytes> {
    if n <= |b| then Ok(b[..n], b[n..]) else Fail(ReadSizeLimit(n), b)
  }

  function TakeByte(b: bytes): Parsed<byte> {
    if |b| == 0 then Fail(ReadSizeLimit(1), b) else Ok(b[0], b[1..])
  }

  /** `d` was read from `b`, and `d'` from `b` with `x` appended: a success is the same success
      with `x` left over, an error other than running out of bytes is the same error, and where
      `d` ran out of bytes, `d'` fails or needs some of `x`. */
  ghost predicate Stable<T>(d: Parsed<T>, d': Parsed<T>, b: bytes, x: bytes) {
    match d
    case Ok(v, rest) => |rest| <= |b| && d' == Ok(v, rest + x)
    case Fail(e, at) => |at| <= |b| && if e.ReadSizeLimit? then d'.Ok? ==> |d'.rest| < |x| else d'.Fail? && d'.error == e
  }

  lemma TakeExtend(b: bytes, n: nat, x: bytes)
    ensures Stable(Take(b, n), Take(b + x, n), b, x)
  {
    if n <= |b| {
      assert (b + x)[..n] == b[..n] && (b + x)[n..] == b[n..] + x;
    }
  }

  lemma TakeByteExtend(b: bytes, x: bytes)
    ensures Stable(TakeByte(b), TakeByte(b + x), b, x)
  {
    if b != [] {
      assert (b + x)[1..] == b[1..] + x;
    }
  }

  // Byte order

  datatype Endian = Little | Big

  function Pow256(w: nat): (p: nat)
    ensures p > 0
  {
    if w == 0 then 1 else 256 * Pow256(w - 1)
  }

  function LittleBytes(n: nat, w: nat): (b: bytes)
    ensures |b| == w
    decreases w
  {
    if w == 0 then [] else [n % 256] + LittleBytes(n / 256, w - 1)
  }

  function LittleValue(b: bytes): nat {
    if b == [] then 0 else b[0] + 256 * LittleValue(b[1..])
  }

  function BigBytes(n: nat, w: nat): (b: bytes)
    ensures |b| == w
    decreases w
  {
    if w == 0 then [] else BigBytes(n / 256, w - 1) + [n % 256]
  }

  function BigValue(b: bytes): nat {
    if b == [] then 0 else b[|b| - 1] + 256 * BigValue(b[..|b| - 1])
  }

  function ToBytes(order: Endian, n: nat, w: nat): (b: bytes)
    ensures |b| == w
  {
    if order.Little? then LittleBytes(n, w) else BigBytes(n, w)
  }

  function FromBytes(order: Endian, b: bytes): nat {
    if order.Little? then LittleValue(b) else BigValue(b)
  }

  lemma {:induction false} LittleInverse(n: nat, w: nat)
    requires n < Pow256(w)
    ensures LittleValue(LittleBytes(n, w)) == n
    decreases w
  {
    if w > 0 {
      LittleInverse(n / 256, w - 1);
    }
  }

  lemma {:induction false} BigInverse(n: nat, w: nat)
    requires n < Pow256(w)
    ensures BigValue(BigBytes(n, w)) == n
    decreases w
  {
    if w > 0 {
      BigInverse(n / 256, w - 1);
      assert BigBytes(n, w)[..w - 1] == BigBytes(n / 256, w - 1);
    }
  }

  lemma {:induction false} LittleOnto(b: bytes)
    ensures LittleValue(b) < Pow256(|b|)
    ensures LittleBytes(LittleValue(b), |b|) == b
  {
    if b != [] {
      LittleOnto(b[1..]);
      var n := LittleValue(b[1..]);
      assert LittleValue(b) == b[0] + 256 * n;
      assert LittleValue(b) % 256 == b[0] && LittleValue(b) / 256 == n;
      assert b == [b[0]] + b[1..];
    }
  }

  lemma {:induction false} BigOnto(b: bytes)
    ensures BigValue(b) < Pow256(|b|)
    ensures BigBytes(BigValue(b), |b|) == b
  {
    if b != [] {
      var m := |b| - 1;
      BigOnto(b[..m]);
      assert BigValue(b) % 256 == b[m] && BigValue(b) / 256 == BigValue(b[..m]);
      assert b == b[..m] + [b[m]];
    }
  }

  /** In either byte order, `w` bytes and the naturals below 256^w are in bijection. */
  lemma OrderRoundTrip(order: Endian, n: nat, w: nat)
    requires n < Pow256(w)
    ensures FromBytes(order, ToBytes(order, n, w)) == n
  {
    if order.Little? { LittleInverse(n, w); } else { BigInverse(n, w); }
  }

  lemma OrderOnto(order: Endian, b: bytes)
    ensures FromBytes(order, b) < Pow256(|b|)
    ensures ToBytes(order, FromBytes(order, b), |b|) == b
  {
    if order.Little? { LittleOnto(b); } else { BigOnto(b); }
  }

  lemma PowValues()
    ensures Pow256(1) == 0x100
    ensures Pow256(2) == 0x1_0000
    ensures Pow256(4) == 0x1_0000_0000
    ensures Pow256(8) == USIZE
    ensures Pow256(16) == 0x1_0000_0000_0000_0000_0000_0000_0000_0000
  {
    assert Pow256(3) == 0x100_0000;
    assert Pow256(5) == 0x100_0000_0000;
    assert Pow256(6) == 0x1_0000_0000_0000;
    assert Pow256(7) == 0x100_0000_0000_0000;
    assert Pow256(9) == 0x100 * USIZE && Pow256(10) == 0x1_0000 * USIZE && Pow256(11) == 0x100_0000 * USIZE;
    assert Pow256(12) == 0x1_0000_0000 * USIZE && Pow256(13) == 0x100_0000_0000 * USIZE;
    assert Pow256(14) == 0x1_0000_0000_0000 * USIZE && Pow256(15) == 0x100_0000_0000_0000 * USIZE;
  }
}
