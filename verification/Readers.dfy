/** In-memory readers: the checked slice, the unchecked window over one, and the limiting wrapper. */
module Readers {
  import opened Prim
  import opened IntEncoding
  import opened Utf8
  import opened TypeMetas
  import opened Schemas
  import opened Lens
  import opened Codec

  datatype Result<+T> = Done(value: T) | Error(error: ReadError) {
    predicate IsFailure() { Error? }

    function PropagateFailure<U>(): Result<U>
      requires Error?
    {
      Error(error)
    }

    function Extract(): T
      requires Done?
    {
      value
    }
  }

  /** A `&[u8]`; a `SliceUnchecked` if `unchecked`; a `LimitReader` over a slice if `limited`. */
  class Reader {
    const unchecked: bool
    const limited: bool
    var buf: bytes
    var remaining: nat

    ghost predicate Valid()
      reads this
    {
      (limited ==> !unchecked) && |buf| < USIZE
    }

    /** The bytes the reader can still deliver. */
    function Avail(): bytes
      reads this
    {
      if limited && remaining < |buf| then buf[..remaining] else buf
    }

    /** Since the given state, no more inner bytes were consumed than were paid for. */
    predicate Paid(buf0: bytes, remaining0: nat)
      reads this
    {
      |buf| <= |buf0| && (limited ==> remaining <= remaining0 && |buf0| - |buf| <= remaining0 - remaining)
    }

    /** The outcome is the one described by `d`, and on success the reader stands at its rest. */
    ghost predicate Matches<T>(o: Result<T>, d: Parsed<T>)
      reads this
    {
      match d
      case Ok(v, rest) => o == Done(v) && Avail() == rest
      case Fail(e, _) => o == Error(e)
    }

    constructor Slice(b: bytes)
      requires |b| < USIZE
      ensures Valid() && !unchecked && !limited && buf == Avail() == b
    {
      unchecked, limited, buf, remaining := false, false, b, 0;
    }

    constructor Window(b: bytes)
      requires |b| < USIZE
      ensures Valid() && unchecked && buf == Avail() == b
    {
      unchecked, limited, buf, remaining := true, false, b, 0;
    }

    constructor Limit(b: bytes, limit: nat)
      requires |b| < USIZE
      ensures Valid() && !unchecked && limited && buf == b && remaining == limit
    {
      unchecked, limited, buf, remaining := false, true, b, limit;
    }

    method ReserveLimit(needed: nat) returns (o: Result<()>)
      requires limited
      modifies this
      ensures buf == old(buf)
      ensures o == if needed > old(remaining) then Error(ReadSizeLimit(needed)) else Done(())
      ensures remaining == if needed > old(remaining) then old(remaining) else old(remaining) - needed
    {
      if needed > remaining {
        return Error(ReadSizeLimit(needed));
      }
      remaining := remaining - needed;
      return Done(());
    }

    /** Split off exactly `n` bytes. An unchecked reader does not look whether they are there. */
    method TakeBytes(n: nat) returns (o: Result<bytes>)
      requires Valid()
      requires unchecked ==> n <= |buf|
      modifies this
      ensures Valid() && Paid(old(buf), old(remaining))
      ensures Matches(o, Take(old(Avail()), n))
    {
      ghost var b := Avail();
      if limited {
        var _ :- ReserveLimit(n);
      }
      if !unchecked && n > |buf| {
        return Error(ReadSizeLimit(n));
      }
      o := Done(buf[..n]);
      buf := buf[n..];
      assert b[..n] == old(buf)[..n] && b[n..] == Avail();
    }

    method TakeOne() returns (o: Result<byte>)
      requires Valid()
      requires unchecked ==> 1 <= |buf|
      modifies this
      ensures Valid() && Paid(old(buf), old(remaining))
      ensures Matches(o, TakeByte(old(Avail())))
    {
      ghost var b := Avail();
      var t :- TakeBytes(1);
      assert b[..1] == [b[0]];
      return Done(t[0]);
    }

    /** Advance this reader by `n` bytes and hand out an unchecked reader over them; on a reader
        that is unchecked already, that is the reader itself. */
    method AsTrustedFor(n: nat) returns (o: Result<Reader>)
      requires Valid()
      requires unchecked ==> n <= |buf|
      modifies this
      ensures Valid() && Paid(old(buf), old(remaining))
      ensures o.Done? <==> n <= |old(Avail())|
      ensures o.Error? ==> o.error == ReadSizeLimit(n)
      ensures o.Done? ==> o.value.Valid() && o.value.unchecked && n <= |o.value.buf|
      ensures o.Done? && unchecked ==> o.value == this && buf == old(buf)
      ensures o.Done? && !unchecked ==> fresh(o.value) && o.value.buf == old(Avail())[..n] && Avail() == old(Avail())[n..]
    {
      if unchecked {
        return Done(this);
      }
      var window :- TakeBytes(n);
      var child := new Reader.Window(window);
      return Done(child);
    }

    method AsTrustedForSeq(len: nat, size: nat) returns (o: Result<Reader>)
      requires Valid()
      requires unchecked ==> Times(len, size) <= |buf|
      modifies this
      ensures Valid() && Paid(old(buf), old(remaining))
      ensures o.Done? <==> Times(len, size) < USIZE && Times(len, size) <= |old(Avail())|
      ensures o.Error? ==> o.error == if Times(len, size) >= USIZE then LengthEncodingOverflow else ReadSizeLimit(Times(len, size))
      ensures o.Done? ==> o.value.Valid() && o.value.unchecked && Times(len, size) <= |o.value.buf|
      ensures o.Done? && unchecked ==> o.value == this && buf == old(buf)
      ensures o.Done? && !unchecked ==>
                && fresh(o.value)
                && o.value.buf == old(Avail())[..Times(len, size)]
                && Avail() == old(Avail())[Times(len, size)..]
    {
      if Times(len, size) >= USIZE {
        return Error(LengthEncodingOverflow);
      }
      o := AsTrustedFor(Times(len, size));
    }
  }

  /** What an unchecked reader demands of its caller: a static schema that fits. */
  predicate Fits(m: TypeMeta, r: Reader)
    reads r
  {
    r.unchecked ==> m.Static? && m.size <= |r.buf|
  }

  // Leaves

  method ReadVar(r: Reader, order: Endian, w: nat) returns (o: Result<nat>)
    requires r.Valid() && !r.unchecked && PayloadWidth(w)
    modifies r
    ensures r.Valid() && r.Paid(old(r.buf), old(r.remaining))
    ensures r.Matches(o, DecodeVar(order, w, old(r.Avail())))
  {
    var tag :- r.TakeOne();
    if tag <= SINGLE_BYTE_MAX {
      return Done(tag);
    }
    match PayloadOf(tag)
    case Some(p) =>
      if p > w {
        return Error(InvalidTagEncoding(tag));
      }
      var payload :- r.TakeBytes(p);
      return Done(FromBytes(order, payload));
    case None =>
      return Error(InvalidTagEncoding(tag));
  }

  method ReadInt(r: Reader, c: IntConfig, k: IntKind) returns (o: Result<int>)
    requires r.Valid() && k.Valid()
    requires r.unchecked ==> FixedKind(c, k) && k.width <= |r.buf|
    modifies r
    ensures r.Valid() && r.Paid(old(r.buf), old(r.remaining))
    ensures r.Matches(o, DecodeInt(c, k, old(r.Avail())))
  {
    ghost var b := r.Avail();
    if FixedKind(c, k) {
      var payload :- r.TakeBytes(k.width);
      return Done(k.FromUnsigned(FromBytes(c.order, payload)));
    }
    var n :- ReadVar(r, c.order, k.width);
    VarReencode(c.order, k.width, b);
    return Done(if k.signed then Unzigzag(k, n) else n);
  }

  method ReadBool(r: Reader) returns (o: Result<Value>)
    requires r.Valid() && (r.unchecked ==> 1 <= |r.buf|)
    modifies r
    ensures r.Valid() && r.Paid(old(r.buf), old(r.remaining))
    ensures r.Matches(o, DecodeBool(old(r.Avail())))
  {
    var b :- r.TakeOne();
    if b == 0 {
      return Done(BoolV(false));
    } else if b == 1 {
      return Done(BoolV(true));
    }
    return Error(InvalidBoolEncoding(b));
  }

  method ReadChar(r: Reader) returns (o: Result<int>)
    requires r.Valid() && !r.unchecked
    modifies r
    ensures r.Valid() && r.Paid(old(r.buf), old(r.remaining))
    ensures r.Matches(o, DecodeChar(old(r.Avail())))
  {
    hide Scalar;
    var codePoint: int;
    var b0 :- r.TakeOne();
    if b0 <= 0x7F {
      return Done(b0);
    } else if 0xC2 <= b0 <= 0xDF {
      var b1 :- r.TakeOne();
      if !Continuation(b1) {
        IllFormed2(b0, b1);
        return Error(Utf8Error([b0, b1]));
      }
      codePoint := Code2(b0, b1);
    } else if 0xE0 <= b0 <= 0xEF {
      var t :- r.TakeBytes(2);
      if !Continuation(t[0]) || !Continuation(t[1]) || (b0 == 0xE0 && t[0] < 0xA0) || (b0 == 0xED && t[0] >= 0xA0) {
        IllFormed3(b0, t[0], t[1]);
        return Error(Utf8Error([b0, t[0], t[1]]));
      }
      codePoint := Code3(b0, t[0], t[1]);
    } else if 0xF0 <= b0 <= 0xF4 {
      var t :- r.TakeBytes(3);
      if !Continuation(t[0]) || !Continuation(t[1]) || !Continuation(t[2]) || (b0 == 0xF0 && t[0] < 0x90) || (b0 == 0xF4 && t[0] > 0x8F) {
        IllFormed4(b0, t[0], t[1], t[2]);
        return Error(Utf8Error([b0, t[0], t[1], t[2]]));
      }
      codePoint := Code4(b0, t[0], t[1], t[2]);
    } else {
      return Error(InvalidCharLead(b0));
    }
    if !Scalar(codePoint) {
      return Error(InvalidUtf8Code(codePoint));
    }
    return Done(codePoint);
  }

  method ReadLen(r: Reader, c: Config, len: SeqLen) returns (o: Result<nat>)
    requires r.Valid() && !r.unchecked && len.kind.Valid()
    modifies r
    ensures r.Valid() && r.Paid(old(r.buf), old(r.remaining))
    ensures r.Matches(o, DecodeLen(c, len, old(r.Avail())))
  {
    var i :- ReadInt(r, LenInts(c, len), len.kind);
    if i < 0 || i >= USIZE {
      return Error(PointerSizedReadError);
    }
    return Done(i);
  }

  method ReadLenChecked(r: Reader, c: Config, len: SeqLen, size: nat) returns (o: Result<nat>)
    requires r.Valid() && !r.unchecked && len.kind.Valid()
    modifies r
    ensures r.Valid() && r.Paid(old(r.buf), old(r.remaining))
    ensures r.Matches(o, DecodeLenChecked(c, len, size, old(r.Avail())))
  {
    var n :- ReadLen(r, c, len);
    match PreallocCheck(c, len, size, n)
    case Fits => return Done(n);
    case Exceeds(needed, limit) => return Error(PreallocationSizeLimit(needed, limit));
  }

  method ReadStr(r: Reader, c: Config, len: SeqLen, check: bool) returns (o: Result<Value>)
    requires r.Valid() && !r.unchecked && len.kind.Valid()
    modifies r
    ensures r.Valid() && r.Paid(old(r.buf), old(r.remaining))
    ensures r.Matches(o, DecodeStr(c, len, check, old(r.Avail())))
  {
    var n: nat;
    if check {
      n :- ReadLenChecked(r, c, len, 1);
    } else {
      n :- ReadLen(r, c, len);
    }
    var s :- r.TakeBytes(n);
    if !ValidUtf8(s) {
      return Error(InvalidUtf8Encoding);
    }
    return Done(StrV(s));
  }

  method ReadTag(r: Reader, c: Config, tag: Option<IntKind>) returns (o: Result<int>)
    requires r.Valid() && TagKind(c, tag).Valid() && Fits(IntMeta(c, TagKind(c, tag)), r)
    modifies r
    ensures r.Valid() && r.Paid(old(r.buf), old(r.remaining))
    ensures r.Matches(o, DecodeTag(c, tag, old(r.Avail())))
  {
    var t :- ReadInt(r, c.ints, TagKind(c, tag));
    if tag.None? && (t < 0 || t >= U32_LIMIT) {
      return Error(TagEncodingOverflow);
    }
    return Done(t);
  }
}
