/** The hand-written UTF-8 character decoder, set against sections 3 and 4 of RFC 3629. */
module Utf8 {
  import opened Prim

  // RFC 3629, section 4: the well-formed byte sequences of one character

  predicate Tail(b: byte) { 0x80 <= b <= 0xBF }

  /** UTF8-char of section 4, alternative by alternative. */
  predicate WellFormed(s: bytes) {
    match |s|
    case 1 => s[0] <= 0x7F
    case 2 => 0xC2 <= s[0] <= 0xDF && Tail(s[1])
    case 3 => Lead3(s[0], s[1]) && Tail(s[2])
    case 4 => Lead4(s[0], s[1]) && Tail(s[2]) && Tail(s[3])
    case _ => false
  }

  predicate Lead3(b0: byte, b1: byte) {
    || (b0 == 0xE0 && 0xA0 <= b1 <= 0xBF)
    || (0xE1 <= b0 <= 0xEC && Tail(b1))
    || (b0 == 0xED && 0x80 <= b1 <= 0x9F)
    || (0xEE <= b0 <= 0xEF && Tail(b1))
  }

  predicate Lead4(b0: byte, b1: byte) {
    || (b0 == 0xF0 && 0x90 <= b1 <= 0xBF)
    || (0xF1 <= b0 <= 0xF3 && Tail(b1))
    || (b0 == 0xF4 && 0x80 <= b1 <= 0x8F)
  }

  /** UTF8-octets of section 4: what `core::str::from_utf8` accepts. */
  predicate ValidUtf8(b: bytes) {
    b == [] || exists n | 1 <= n <= 4 && n <= |b| :: WellFormed(b[..n]) && ValidUtf8(b[n..])
  }

  // RFC 3629, section 3: the encoder

  predicate Scalar(c: int) { 0 <= c < 0xD800 || 0xE000 <= c < 0x11_0000 }

  function EncodeScalar(c: int): bytes
    requires Scalar(c)
  {
    if c < 0x80 then [c]
    else if c < 0x800 then [0xC0 + c / 64, 0x80 + c % 64]
    else if c < 0x1_0000 then [0xE0 + c / 4096, 0x80 + c / 64 % 64, 0x80 + c % 64]
    else [0xF0 + c / 262144, 0x80 + c / 4096 % 64, 0x80 + c / 64 % 64, 0x80 + c % 64]
  }

  // The decoder. A byte masked with 2^k - 1 is its remainder modulo 2^k, the test
  // `b & 0xC0 == 0x80` is `b / 64 == 2`, and an `or` of disjoint shifted parts is a sum.

  lemma MasksAreArithmetic(b: bv8)
    ensures b & 0xC0 == 0x80 <==> b / 64 == 2
    ensures b & 0x3F == b % 64 && b & 0x1F == b % 32 && b & 0x0F == b % 16 && b & 0x07 == b % 8
  {}

  predicate Continuation(b: byte) { b / 64 == 2 }

  /** `from_utf8(buf).unwrap_err()`, which would panic on a well-formed buffer. */
  function Utf8Error(buf: bytes): ReadError
    requires !ValidUtf8(buf)
  {
    InvalidUtf8Encoding
  }

  function FromCodePoint(code: nat, rest: bytes): Parsed<int> {
    if Scalar(code) then Ok(code, rest) else Fail(InvalidUtf8Code(code), rest)
  }

  function Code2(b0: int, b1: int): int { b0 % 32 * 64 + b1 % 64 }

  function Code3(b0: int, b1: int, b2: int): int { b0 % 16 * 4096 + b1 % 64 * 64 + b2 % 64 }

  function Code4(b0: int, b1: int, b2: int, b3: int): int {
    b0 % 8 * 262144 + b1 % 64 * 4096 + b2 % 64 * 64 + b3 % 64
  }

  function Decode2(b0: byte, b: bytes): Parsed<int>
    requires 0xC2 <= b0 <= 0xDF
  {
    var (b1, r) :- TakeByte(b);
    if !Continuation(b1) then
      IllFormed2(b0, b1);
      Fail(Utf8Error([b0, b1]), r)
    else FromCodePoint(Code2(b0, b1), r)
  }

  function Decode3(b0: byte, b: bytes): Parsed<int>
    requires 0xE0 <= b0 <= 0xEF
  {
    var (t, r) :- Take(b, 2);
    if !Continuation(t[0]) || !Continuation(t[1]) || (b0 == 0xE0 && t[0] < 0xA0) || (b0 == 0xED && t[0] >= 0xA0) then
      IllFormed3(b0, t[0], t[1]);
      Fail(Utf8Error([b0, t[0], t[1]]), r)
    else FromCodePoint(Code3(b0, t[0], t[1]), r)
  }

  function Decode4(b0: byte, b: bytes): Parsed<int>
    requires 0xF0 <= b0 <= 0xF4
  {
    var (t, r) :- Take(b, 3);
    if !Continuation(t[0]) || !Continuation(t[1]) || !Continuation(t[2]) || (b0 == 0xF0 && t[0] < 0x90) || (b0 == 0xF4 && t[0] > 0x8F) then
      IllFormed4(b0, t[0], t[1], t[2]);
      Fail(Utf8Error([b0, t[0], t[1], t[2]]), r)
    else FromCodePoint(Code4(b0, t[0], t[1], t[2]), r)
  }

  function DecodeChar(b: bytes): Parsed<int> {
    var (b0, r) :- TakeByte(b);
    if b0 <= 0x7F then Ok(b0, r)
    else if 0xC2 <= b0 <= 0xDF then Decode2(b0, r)
    else if 0xE0 <= b0 <= 0xEF then Decode3(b0, r)
    else if 0xF0 <= b0 <= 0xF4 then Decode4(b0, r)
    else Fail(InvalidCharLead(b0), r)
  }

  // Every buffer handed to Utf8Error is ill-formed

  /** A buffer whose lead announces its own length is valid only if it is one character. */
  lemma OneCharacter(s: bytes)
    requires |s| > 0
    requires s[0] >= 0xC2
    requires |s| == if s[0] <= 0xDF then 2 else if s[0] <= 0xEF then 3 else 4
    requires ValidUtf8(s)
    ensures WellFormed(s)
  {
    var n :| 1 <= n <= 4 && n <= |s| && WellFormed(s[..n]) && ValidUtf8(s[n..]);
    assert s[..n][0] == s[0];
    assert n == |s| && s[..n] == s;
  }

  lemma IllFormed2(b0: byte, b1: byte)
    requires 0xC2 <= b0 <= 0xDF && !Continuation(b1)
    ensures !ValidUtf8([b0, b1])
  {
    if ValidUtf8([b0, b1]) { OneCharacter([b0, b1]); }
  }

  lemma IllFormed3(b0: byte, b1: byte, b2: byte)
    requires 0xE0 <= b0 <= 0xEF
    requires !Continuation(b1) || !Continuation(b2) || (b0 == 0xE0 && b1 < 0xA0) || (b0 == 0xED && b1 >= 0xA0)
    ensures !ValidUtf8([b0, b1, b2])
  {
    if ValidUtf8([b0, b1, b2]) { OneCharacter([b0, b1, b2]); }
  }

  lemma IllFormed4(b0: byte, b1: byte, b2: byte, b3: byte)
    requires 0xF0 <= b0 <= 0xF4
    requires !Continuation(b1) || !Continuation(b2) || !Continuation(b3) || (b0 == 0xF0 && b1 < 0x90) || (b0 == 0xF4 && b1 > 0x8F)
    ensures !ValidUtf8([b0, b1, b2, b3])
  {
    if ValidUtf8([b0, b1, b2, b3]) { OneCharacter([b0, b1, b2, b3]); }
  }

  // The decoder against the standard

  /** `s` is the well-formed sequence `d` was read from, at the start of `b`. */
  ghost predicate ReadFrom(d: Parsed<int>, s: bytes, b: bytes) {
    && d.Ok? && |s| <= |b| && s == b[..|s|] && d.rest == b[|s|..]
    && WellFormed(s) && Scalar(d.value) && EncodeScalar(d.value) == s
  }

  lemma Accepted2(b: bytes)
    requires |b| > 0 && 0xC2 <= b[0] <= 0xDF && DecodeChar(b).Ok?
    ensures |b| >= 2 && ReadFrom(DecodeChar(b), [b[0], b[1]], b)
  {
    assert b[1..][1..] == b[2..];
  }

  lemma Accepted3(b: bytes)
    requires |b| > 0 && 0xE0 <= b[0] <= 0xEF && DecodeChar(b).Ok?
    ensures |b| >= 3 && ReadFrom(DecodeChar(b), [b[0], b[1], b[2]], b)
  {
    hide Code3, EncodeScalar, Scalar;
    var t := b[1..][..2];
    assert t[0] == b[1] && t[1] == b[2] && b[1..][2..] == b[3..];
    Arithmetic3(b[0], t[0], t[1]);
  }

  lemma Accepted4(b: bytes)
    requires |b| > 0 && 0xF0 <= b[0] <= 0xF4 && DecodeChar(b).Ok?
    ensures |b| >= 4 && ReadFrom(DecodeChar(b), [b[0], b[1], b[2], b[3]], b)
  {
    hide Code4, EncodeScalar, Scalar;
    var t := b[1..][..3];
    assert t[0] == b[1] && t[1] == b[2] && t[2] == b[3] && b[1..][3..] == b[4..];
    Arithmetic4(b[0], t[0], t[1], t[2]);
  }

  /** The bytes an accepted input starts with, and what they decode to. */
  lemma AcceptedShape(b: bytes) returns (s: bytes)
    requires DecodeChar(b).Ok?
    ensures ReadFrom(DecodeChar(b), s, b)
  {
    if b[0] <= 0x7F {
      s := [b[0]];
    } else if b[0] <= 0xDF {
      s := [b[0], b[1]];
      Accepted2(b);
    } else if b[0] <= 0xEF {
      s := [b[0], b[1], b[2]];
      Accepted3(b);
    } else {
      s := [b[0], b[1], b[2], b[3]];
      Accepted4(b);
    }
  }

  /** What the decoder accepts is a well-formed sequence, and encoding the result gives it back. */
  lemma AcceptedIsWellFormed(b: bytes)
    requires DecodeChar(b).Ok?
    ensures var d := DecodeChar(b);
            var used := |b| - |d.rest|;
            && Scalar(d.value)
            && 1 <= used <= 4
            && d.rest == b[used..]
            && EncodeScalar(d.value) == b[..used]
            && WellFormed(b[..used])
  {
    var s := AcceptedShape(b);
  }

  lemma Digits(x: nat, y: nat, z: nat)
    requires y < 64 && z < 64
    ensures (x * 4096 + y * 64 + z) / 4096 == x
    ensures (x * 4096 + y * 64 + z) / 64 % 64 == y
    ensures (x * 4096 + y * 64 + z) % 64 == z
  {
    var c := x * 4096 + y * 64 + z;
    assert c / 64 == x * 64 + y;
  }

  lemma Arithmetic3(b0: byte, b1: byte, b2: byte)
    requires 0xE0 <= b0 <= 0xEF && Continuation(b1) && Continuation(b2)
    requires b0 == 0xE0 ==> b1 >= 0xA0
    requires b0 == 0xED ==> b1 < 0xA0
    ensures Scalar(Code3(b0, b1, b2)) && EncodeScalar(Code3(b0, b1, b2)) == [b0, b1, b2]
  {
    hide Scalar, EncodeScalar;
    Digits(b0 % 16, b1 % 64, b2 % 64);
    ThreeBytes(Code3(b0, b1, b2));
  }

  lemma ThreeBytes(c: nat)
    requires 0x800 <= c < 0x1_0000 && !(0xD800 <= c < 0xE000)
    ensures Scalar(c)
    ensures EncodeScalar(c) == [0xE0 + c / 4096, 0x80 + c / 64 % 64, 0x80 + c % 64]
  {}

  lemma Arithmetic4(b0: byte, b1: byte, b2: byte, b3: byte)
    requires 0xF0 <= b0 <= 0xF4 && Continuation(b1) && Continuation(b2) && Continuation(b3)
    requires b0 == 0xF0 ==> b1 >= 0x90
    requires b0 == 0xF4 ==> b1 <= 0x8F
    ensures Scalar(Code4(b0, b1, b2, b3)) && EncodeScalar(Code4(b0, b1, b2, b3)) == [b0, b1, b2, b3]
  {
    hide Scalar, EncodeScalar;
    Digits4(b0 % 8, b1 % 64, b2 % 64, b3 % 64);
    FourBytes(Code4(b0, b1, b2, b3));
  }

  lemma Digits4(x: nat, y: nat, z: nat, t: nat)
    requires y < 64 && z < 64 && t < 64
    ensures var c := x * 262144 + y * 4096 + z * 64 + t;
            c / 262144 == x && c / 4096 % 64 == y && c / 64 % 64 == z && c % 64 == t
  {
    var c := x * 262144 + y * 4096 + z * 64 + t;
    Digits(x * 64 + y, z, t);
    assert c / 262144 == c / 4096 / 64;
  }

  lemma FourBytes(c: nat)
    requires 0x1_0000 <= c < 0x11_0000
    ensures Scalar(c)
    ensures EncodeScalar(c) == [0xF0 + c / 262144, 0x80 + c / 4096 % 64, 0x80 + c / 64 % 64, 0x80 + c % 64]
  {}

  /** A well-formed sequence at the front of the input is accepted, and exactly it is consumed. */
  lemma WellFormedIsAccepted(s: bytes, rest: bytes)
    requires WellFormed(s)
    ensures DecodeChar(s + rest).Ok?
    ensures DecodeChar(s + rest).rest == rest
  {
    var b := s + rest;
    assert b[0] == s[0];
    if |s| == 1 {
      assert b[1..] == rest;
    } else if |s| == 2 {
      assert b[1..][0] == s[1] && b[1..][1..] == rest;
    } else if |s| == 3 {
      assert b[1..][..2] == [s[1], s[2]] && b[1..][2..] == rest;
      Arithmetic3(s[0], s[1], s[2]);
    } else {
      assert b[1..][..3] == [s[1], s[2], s[3]] && b[1..][3..] == rest;
      Arithmetic4(s[0], s[1], s[2], s[3]);
    }
  }

  /** The decoder accepts exactly the inputs that start with a well-formed sequence. */
  lemma AcceptsExactlyWellFormed(b: bytes)
    ensures DecodeChar(b).Ok? <==> exists n | 1 <= n <= |b| :: WellFormed(b[..n])
  {
    if DecodeChar(b).Ok? {
      AcceptedIsWellFormed(b);
    }
    if n :| 1 <= n <= |b| && WellFormed(b[..n]) {
      WellFormedIsAccepted(b[..n], b[n..]);
      assert b == b[..n] + b[n..];
    }
  }

  /** The section 3 encoder only makes well-formed sequences. */
  lemma EncodedIsWellFormed(c: int)
    requires Scalar(c)
    ensures WellFormed(EncodeScalar(c))
  {
    if c >= 0x1_0000 {
      assert c / 4096 == c / 262144 * 64 + c / 4096 % 64;
    } else if c >= 0x800 {
      assert c / 64 == c / 4096 * 64 + c / 64 % 64;
    }
  }

  /** Decoding inverts the section 3 encoder. */
  lemma CharRoundTrip(c: int, rest: bytes)
    requires Scalar(c)
    ensures DecodeChar(EncodeScalar(c) + rest) == Ok(c, rest)
  {
    EncodedIsWellFormed(c);
    var b := EncodeScalar(c) + rest;
    WellFormedIsAccepted(EncodeScalar(c), rest);
    AcceptedIsWellFormed(b);
    assert b[..|b| - |rest|] == EncodeScalar(c);
    EncodeInjective(c, DecodeChar(b).value);
  }

  /** The code point is determined by its digits in base 64. */
  lemma FromDigits(c: nat)
    ensures c == c / 4096 * 4096 + c / 64 % 64 * 64 + c % 64
    ensures c / 4096 == c / 262144 * 64 + c / 4096 % 64
  {
    assert c == c / 64 * 64 + c % 64 && c / 64 == c / 4096 * 64 + c / 64 % 64;
  }

  lemma EncodeInjective(c: int, d: int)
    requires Scalar(c) && Scalar(d) && EncodeScalar(c) == EncodeScalar(d)
    ensures c == d
  {
    FromDigits(c);
    FromDigits(d);
    var e := EncodeScalar(c);
    assert e[0] == EncodeScalar(d)[0];
    assert |e| > 1 ==> e[1] == EncodeScalar(d)[1];
  }

  // Strings: sequences of scalar values

  ghost predicate Scalars(cs: seq<int>) { forall i | 0 <= i < |cs| :: Scalar(cs[i]) }

  /** The encodings of the characters, one after the other. */
  function EncodeText(cs: seq<int>): bytes
    requires Scalars(cs)
  {
    if cs == [] then [] else EncodeScalar(cs[0]) + EncodeText(cs[1..])
  }

  lemma {:induction false} TextAppends(cs: seq<int>, ds: seq<int>)
    requires Scalars(cs) && Scalars(ds)
    ensures Scalars(cs + ds) && EncodeText(cs + ds) == EncodeText(cs) + EncodeText(ds)
    ensures |cs| == 1 ==> EncodeText(cs) == EncodeScalar(cs[0])
  {
    hide Scalar, EncodeScalar;
    if cs == [] {
      assert cs + ds == ds;
    } else {
      TextAppends(cs[1..], ds);
      assert (cs + ds)[1..] == cs[1..] + ds;
    }
  }

  lemma {:induction false} TextIsValid(cs: seq<int>)
    requires Scalars(cs)
    ensures ValidUtf8(EncodeText(cs))
  {
    hide Scalar, EncodeScalar, WellFormed;
    if cs != [] {
      var e, b := EncodeScalar(cs[0]), EncodeText(cs);
      TextIsValid(cs[1..]);
      EncodedIsWellFormed(cs[0]);
      WellFormedLength(e);
      assert b[..|e|] == e && b[|e|..] == EncodeText(cs[1..]);
    }
  }

  lemma WellFormedLength(s: bytes)
    requires WellFormed(s)
    ensures 1 <= |s| <= 4
  {}

  /** The one scalar value a well-formed sequence encodes. */
  lemma WellFormedIsEncoded(s: bytes) returns (c: int)
    requires WellFormed(s)
    ensures Scalar(c) && EncodeScalar(c) == s
  {
    hide DecodeChar, EncodeScalar, Scalar;
    WellFormedIsAccepted(s, []);
    assert s + [] == s;
    AcceptedIsWellFormed(s);
    c := DecodeChar(s).value;
    assert s[..|s|] == s;
  }

  lemma {:induction false} ValidIsText(b: bytes) returns (cs: seq<int>)
    requires ValidUtf8(b)
    ensures Scalars(cs) && EncodeText(cs) == b
    decreases |b|
  {
    hide Scalar, EncodeScalar, WellFormed;
    if b == [] {
      return [];
    }
    var n :| 1 <= n <= 4 && n <= |b| && WellFormed(b[..n]) && ValidUtf8(b[n..]);
    var c := WellFormedIsEncoded(b[..n]);
    var ds := ValidIsText(b[n..]);
    cs := [c] + ds;
    assert cs[1..] == ds && b == b[..n] + b[n..];
  }

  /** A string is valid exactly when it is the encoding of some sequence of scalar values. */
  lemma ValidIsEncodedText(b: bytes)
    ensures ValidUtf8(b) <==> exists cs: seq<int> | Scalars(cs) :: EncodeText(cs) == b
  {
    hide ValidUtf8, EncodeText;
    if ValidUtf8(b) {
      var cs := ValidIsText(b);
      assert Scalars(cs) && EncodeText(cs) == b;
    }
    if cs: seq<int> :| Scalars(cs) && EncodeText(cs) == b {
      TextIsValid(cs);
    }
  }

  /** The code points computed are always scalar values, so the last conversion cannot fail. */
  lemma NeverInvalidCode(b: bytes)
    requires DecodeChar(b).Fail?
    ensures !DecodeChar(b).error.InvalidUtf8Code?
  {
    if |b| > 2 && 0xE0 <= b[0] <= 0xEF {
      var t := b[1..][..2];
      if Continuation(t[0]) && Continuation(t[1]) && (b[0] == 0xE0 ==> t[0] >= 0xA0) && (b[0] == 0xED ==> t[0] < 0xA0) {
        Arithmetic3(b[0], t[0], t[1]);
      }
    } else if |b| > 3 && 0xF0 <= b[0] <= 0xF4 {
      var t := b[1..][..3];
      if Continuation(t[0]) && Continuation(t[1]) && Continuation(t[2]) && (b[0] == 0xF0 ==> t[0] >= 0x90) && (b[0] == 0xF4 ==> t[0] <= 0x8F) {
        Arithmetic4(b[0], t[0], t[1], t[2]);
      }
    }
  }

  /** How long the sequence is that a first byte announces; 0 if it announces none. */
  function Announced(b0: byte): nat {
    if b0 <= 0x7F then 1 else if b0 < 0xC2 then 0 else if b0 <= 0xDF then 2 else if b0 <= 0xEF then 3 else if b0 <= 0xF4 then 4 else 0
  }

  lemma WellFormedAsAnnounced(s: bytes)
    requires WellFormed(s)
    ensures |s| == Announced(s[0])
  {}

  lemma CutShort(b: bytes)
    requires b != [] && |b| < Announced(b[0])
    ensures DecodeChar(b) == Fail(ReadSizeLimit(Announced(b[0]) - 1), b[1..])
  {}

  lemma Refused(b: bytes)
    requires b != [] && 0 < Announced(b[0]) <= |b| && DecodeChar(b).Fail?
    ensures DecodeChar(b) == Fail(InvalidUtf8Encoding, b[Announced(b[0])..])
  {
    hide Code2, Code3, Code4;
    NeverInvalidCode(b);
    var n := Announced(b[0]);
    assert b[1..][n - 1..] == b[n..];
  }

  /** The first byte announces the length of the sequence, or is refused alone. An input shorter than
      that is cut short; one that starts with a well-formed sequence is decoded; any other is refused
      with the whole sequence consumed. */
  lemma CharDecides(b: bytes)
    requires b != []
    ensures var n := if b[0] <= 0x7F then 1 else if b[0] < 0xC2 then 0 else if b[0] <= 0xDF then 2 else if b[0] <= 0xEF then 3 else if b[0] <= 0xF4 then 4 else 0;
            var d := DecodeChar(b);
            if n == 0 then d == Fail(InvalidCharLead(b[0]), b[1..])
            else if |b| < n then d == Fail(ReadSizeLimit(n - 1), b[1..])
            else if WellFormed(b[..n]) then d.Ok? && d.rest == b[n..] && Scalar(d.value) && EncodeScalar(d.value) == b[..n]
            else d == Fail(InvalidUtf8Encoding, b[n..])
  {
    hide Decode2, Decode3, Decode4, WellFormed, EncodeScalar, Scalar;
    var n := Announced(b[0]);
    if 0 < n <= |b| {
      if DecodeChar(b).Ok? {
        AcceptedIsWellFormed(b);
        WellFormedAsAnnounced(b[..|b| - |DecodeChar(b).rest|]);
      } else {
        Refused(b);
        if WellFormed(b[..n]) {
          assert b[..n] + b[n..] == b;
          WellFormedIsAccepted(b[..n], b[n..]);
        }
      }
    } else if |b| < n {
      CutShort(b);
    }
  }

  lemma Extend2(b0: byte, b: bytes, x: bytes)
    requires 0xC2 <= b0 <= 0xDF
    ensures Stable(Decode2(b0, b), Decode2(b0, b + x), b, x)
  {
    hide Scalar, Code2;
    TakeByteExtend(b, x);
  }

  lemma Extend3(b0: byte, b: bytes, x: bytes)
    requires 0xE0 <= b0 <= 0xEF
    ensures Stable(Decode3(b0, b), Decode3(b0, b + x), b, x)
  {
    hide Scalar, Code3, Continuation;
    TakeExtend(b, 2, x);
  }

  lemma Extend4(b0: byte, b: bytes, x: bytes)
    requires 0xF0 <= b0 <= 0xF4
    ensures Stable(Decode4(b0, b), Decode4(b0, b + x), b, x)
  {
    hide Scalar, Code4, Continuation;
    TakeExtend(b, 3, x);
  }

  /** More input changes nothing but the rest. */
  lemma CharExtend(b: bytes, x: bytes)
    ensures Stable(DecodeChar(b), DecodeChar(b + x), b, x)
  {
    hide Decode2, Decode3, Decode4;
    TakeByteExtend(b, x);
    if b + x != [] {
      var b0, r := (b + x)[0], if b == [] then [] else b[1..];
      var y := if b == [] then x[1..] else x;
      assert (b + x)[1..] == r + y;
      if 0xC2 <= b0 <= 0xDF {
        Extend2(b0, r, y);
        Extend2(b0, r + y, []);
      } else if 0xE0 <= b0 <= 0xEF {
        Extend3(b0, r, y);
        Extend3(b0, r + y, []);
      } else if 0xF0 <= b0 <= 0xF4 {
        Extend4(b0, r, y);
        Extend4(b0, r + y, []);
      }
    }
  }
}
