/** The entry points that read, with their size limit. */
module Deserialize {
  import opened Prim
  import opened Schemas
  import opened Codec
  import opened Extension
  import opened Windows
  import opened Readers
  import opened Reads

  /** The input as far as the size limit lets it be seen. */
  function Truncated(src: bytes, limit: Option<nat>): bytes {
    match limit
    case None => src
    case Some(n) => if n < |src| then src[..n] else src
  }

  /** What is deserialized from an input under a limit. */
  ghost function Outcome(c: Config, s: Schema, src: bytes, limit: Option<nat>): Result<Value>
    requires Wf(c, s)
  {
    match Decode(c, Windowed, s, Truncated(src, limit))
    case Ok(v, _) => Done(v)
    case Fail(e, _) => Error(e)
  }

  lemma Agreement(c: Config, s: Schema, src: bytes, limit: Option<nat>)
    requires Wf(c, s) && Roomy(c, s) && NoDefault(s) && |src| < USIZE
    ensures var t := Truncated(src, limit);
            var d := Decode(c, Windowed, s, t);
            if d.Ok? then |d.rest| <= |t| && Decode(c, Plain, s, src) == Ok(d.value, d.rest + src[|t|..])
            else t == src ==> Decode(c, Plain, s, src).Fail?
  {
    hide Decode, Wf, Roomy, NoDefault;
    var t := Truncated(src, limit);
    assert src[..|t|] == t && t + src[|t|..] == src;
    WindowedAgrees(c, s, t);
    Extend(c, Plain, s, t, src[|t|..]);
  }

  /** A limit is met exactly by the inputs that decode without one and consume no more than it. */
  lemma LimitIsExact(c: Config, s: Schema, src: bytes, limit: nat)
    requires Wf(c, s) && Roomy(c, s) && NoDefault(s) && |src| < USIZE
    ensures var d := Decode(c, Plain, s, src);
            Outcome(c, s, src, Some(limit)).Done? <==> d.Ok? && |src| - |d.rest| <= limit
    ensures Outcome(c, s, src, Some(limit)).Done? ==> Outcome(c, s, src, Some(limit)).value == Decode(c, Plain, s, src).value
  {
    hide Decode;
    var t := Truncated(src, Some(limit));
    assert src[..|t|] == t && t + src[|t|..] == src;
    WindowedAgrees(c, s, t);
    Extend(c, Plain, s, t, src[|t|..]);
    assert t + [] == t;
    Extend(c, Plain, s, t, []);
  }

  /** From a slice, the limit truncates the slice. */
  method FromSlice(c: Config, s: Schema, src: bytes, limit: Option<nat>) returns (o: Result<Value>)
    requires Wf(c, s) && Roomy(c, s) && NoDefault(s) && |src| < USIZE
    ensures o == Outcome(c, s, src, limit)
  {
    hide Decode, Wf, Roomy, NoDefault;
    var len := match limit case Some(n) => (if n < |src| then n else |src|) case None => |src|;
    assert src[..len] == Truncated(src, limit);
    var reader := new Reader.Slice(src[..len]);
    o := Read(reader, c, s);
  }

  method ReaderFor(src: bytes, limit: Option<nat>) returns (r: Reader)
    requires |src| < USIZE
    ensures fresh(r) && r.Valid() && !r.unchecked && r.buf == src && r.Avail() == Truncated(src, limit)
    ensures r.limited == limit.Some? && (r.limited ==> r.remaining == limit.value)
  {
    if limit.Some? {
      r := new Reader.Limit(src, limit.value);
    } else {
      r := new Reader.Slice(src);
    }
  }

  /** From a reader, a limiting wrapper pays for every read in advance: the value or the error is
      the same, and no more inner bytes are consumed than the limit allows. */
  method FromReader(c: Config, s: Schema, src: bytes, limit: Option<nat>) returns (o: Result<Value>, consumed: nat)
    requires Wf(c, s) && Roomy(c, s) && NoDefault(s) && |src| < USIZE
    ensures o == Outcome(c, s, src, limit)
    ensures consumed <= |src| && (limit.Some? ==> consumed <= limit.value)
  {
    var reader := ReaderFor(src, limit);
    o := Read(reader, c, s);
    consumed := |src| - |reader.buf|;
  }

  /** The whole input must be used up, and must not be longer than the limit. */
  method Exactly(c: Config, s: Schema, src: bytes, limit: Option<nat>) returns (o: Result<Value>)
    requires Wf(c, s) && Roomy(c, s) && NoDefault(s) && |src| < USIZE
    ensures forall v :: o == Done(v) <==> Decode(c, Plain, s, src) == Ok(v, []) && (limit.Some? ==> |src| <= limit.value)
  {
    hide Decode, Wf, Roomy, NoDefault;
    Agreement(c, s, src, limit);
    var rest := src;
    var len := match limit case Some(n) => (if n < |src| then n else |src|) case None => |src|;
    assert src[..len] == Truncated(src, limit);
    var limited := new Reader.Slice(src[..len]);
    var value :- Read(limited, c, s);
    var consumed := len - |limited.buf|;
    rest := src[consumed..];
    if rest == [] {
      return Done(value);
    }
    return Error(TrailingBytes);
  }
}
