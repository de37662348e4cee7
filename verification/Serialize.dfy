/** The entry points that write. */
module Serialize {
  import opened Prim
  import opened Schemas
  import opened Codec
  import opened StaticSize
  import opened Writers
  import opened Writes
  import opened WindowSizes

  /** Into a caller's buffer, if every window covers what is written into it. A buffer with room for
      the encoding is never too small, and the size announced for it is then exact. */
  method Into(c: Config, s: Schema, v: Value, dst: array<Slot>) returns (o: Written<nat>)
    requires Wf(c, s) && WellTyped(s, v) && Sized(c, s, v) && dst.Length < USIZE
    modifies dst
    ensures var e := Encode(c, s, v);
            && (o.Wrote? <==> e.Wrote? && |e.value| <= dst.Length)
            && (o.Wrote? ==> SizeOf(c, s, v) == o && o.value == |e.value| && dst[..] == Overwrite(old(dst[..]), 0, e.value))
            && (o.Refused? ==> o.error.WriteSizeLimit? || e == Refused(o.error))
  {
    hide Encode, SizeOf, Sized;
    var w := new Writer(dst, false, 0, dst.Length);
    var _ :- Write(w, c, s, v);
    SizeExact(c, s, v);
    return Wrote(w.lo);
  }

  /** Into a vector of the announced capacity, for which the allocator supplied `extra` bytes more
      than were asked for. It succeeds exactly when there is an encoding shorter than the address
      space. The vector's length is computed from what is left of its spare capacity, which is right
      exactly when there was nothing extra. */
  method ToVec(c: Config, s: Schema, v: Value, extra: nat) returns (o: Written<nat>, buffer: array<Slot>)
    requires Wf(c, s) && WellTyped(s, v) && Sized(c, s, v)
    requires SizeOf(c, s, v).Wrote? ==> SizeOf(c, s, v).value + extra < USIZE
    ensures fresh(buffer)
    ensures o.Wrote? <==> Encode(c, s, v).Wrote? && |Encode(c, s, v).value| < USIZE
    ensures o.Wrote? ==>
              var b := Encode(c, s, v).value;
              && |b| <= buffer.Length && buffer[..|b|] == Filled(b)
              && (o.value == |b| <==> extra == 0)
  {
    hide Encode, SizeOf, Sized;
    buffer := new Slot[0];
    if Encode(c, s, v).Wrote? {
      SizeExact(c, s, v);
    }
    var capacity :- SizeOf(c, s, v);
    buffer := new Slot[capacity + extra](_ => None);
    var w := new Writer(buffer, false, 0, buffer.Length);
    var _ :- Write(w, c, s, v);
    var len := w.hi - w.lo;
    o := Wrote((capacity - len) % USIZE);
    assert buffer[..w.lo] == Filled(Encode(c, s, v).value);
  }
}
