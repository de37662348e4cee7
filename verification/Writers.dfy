/** Writers into possibly uninitialised memory: the checked slice and the unchecked window over one. */
module Writers {
  import opened Prim
  import opened IntEncoding
  import opened Schemas
  import opened Lens

  /** A byte of memory, if it was ever initialised. */
  type Slot = Option<byte>

  function Filled(b: bytes): (m: seq<Slot>)
    ensures |m| == |b| && forall i | 0 <= i < |b| :: m[i] == Some(b[i])
  {
    seq(|b|, i requires 0 <= i < |b| => Some(b[i]))
  }

  /** The bytes of memory that is initialised throughout. */
  function BytesOf(m: seq<Slot>): (b: bytes)
    requires forall i | 0 <= i < |m| :: m[i].Some?
    ensures Filled(b) == m
  {
    seq(|m|, i requires 0 <= i < |m| => m[i].value)
  }

  function Overwrite(m: seq<Slot>, at: nat, b: bytes): (r: seq<Slot>)
    requires at + |b| <= |m|
    ensures |r| == |m|
  {
    m[..at] + Filled(b) + m[at + |b|..]
  }

  lemma OverwriteAppend(m: seq<Slot>, at: nat, a: bytes, b: bytes)
    requires at + |a| + |b| <= |m|
    ensures Overwrite(Overwrite(m, at, a), at + |a|, b) == Overwrite(m, at, a + b)
  {
    assert Filled(a + b) == Filled(a) + Filled(b);
  }

  lemma OverwriteNothing(m: seq<Slot>, at: nat)
    requires at <= |m|
    ensures Overwrite(m, at, []) == m
  {}

  /** What a write leaves behind in memory `m`, `m0` before it, when the writer moved from `lo0`
      to `lo` and ends at `hi`. It succeeds exactly when the encoding exists and fits; then those
      bytes, and no others, were written. A failed write may have written some, but never outside
      the writer. */
  ghost predicate Emitted(o: Written<()>, e: Written<bytes>, m0: seq<Slot>, m: seq<Slot>, lo0: nat, lo: nat, hi: nat) {
    && |m| == |m0|
    && lo0 <= lo <= hi <= |m0|
    && m[..lo0] == m0[..lo0]
    && m[hi..] == m0[hi..]
    && (o.Wrote? <==> e.Wrote? && lo0 + |e.value| <= hi)
    && (o.Wrote? ==> lo == lo0 + |e.value| && m == Overwrite(m0, lo0, e.value))
    && (o.Refused? ==> o.error.WriteSizeLimit? || e == Refused(o.error))
  }

  /** One encoding behind another. */
  function Both(e: Written<bytes>, e': Written<bytes>): Written<bytes> {
    var b :- e;
    var b' :- e';
    Wrote(b + b')
  }

  lemma BothAssociates(a: Written<bytes>, b: Written<bytes>, d: Written<bytes>)
    ensures Both(a, Both(b, d)) == Both(Both(a, b), d)
  {
    if a.Wrote? && b.Wrote? && d.Wrote? {
      assert a.value + (b.value + d.value) == a.value + b.value + d.value;
    }
  }

  lemma BothNothing(e: Written<bytes>)
    ensures Both(Wrote([]), e) == e == Both(e, Wrote([]))
  {
    if e.Wrote? {
      assert [] + e.value == e.value == e.value + [];
    }
  }

  lemma BothEmitted(o: Written<()>, e: Written<bytes>, e': Written<bytes>, m0: seq<Slot>, m1: seq<Slot>, m: seq<Slot>,
                    lo0: nat, lo1: nat, lo: nat, hi: nat)
    requires Emitted(Wrote(()), e, m0, m1, lo0, lo1, hi) && Emitted(o, e', m1, m, lo1, lo, hi)
    ensures Emitted(o, Both(e, e'), m0, m, lo0, lo, hi)
  {
    assert m[..lo0] == m[..lo1][..lo0] && m1[..lo0] == m1[..lo1][..lo0];
    if o.Wrote? {
      OverwriteAppend(m0, lo0, e.value, e'.value);
    }
  }

  lemma FirstRefused(o: Written<()>, e: Written<bytes>, e': Written<bytes>, m0: seq<Slot>, m: seq<Slot>, lo0: nat, lo: nat, hi: nat)
    requires o.Refused? && Emitted(o, e, m0, m, lo0, lo, hi)
    ensures Emitted(o, Both(e, e'), m0, m, lo0, lo, hi)
  {}

  /** What was written inside a window of exactly the right size was written by the parent. */
  lemma WindowEmitted(o: Written<()>, e: Written<bytes>, m0: seq<Slot>, m: seq<Slot>, lo0: nat, lo: nat, n: nat, hi: nat)
    requires lo0 + n <= hi <= |m0| && (e.Wrote? ==> |e.value| == n)
    requires Emitted(o, e, m0, m, lo0, lo, lo0 + n)
    ensures Emitted(o, e, m0, m, lo0, lo0 + n, hi)
  {
    assert m[hi..] == m[lo0 + n..][hi - lo0 - n..] && m0[hi..] == m0[lo0 + n..][hi - lo0 - n..];
  }

  /** A `&mut [MaybeUninit<u8>]`; a `SliceMutUnchecked` if `unchecked`. */
  class Writer {
    const mem: array<Slot>
    const unchecked: bool
    const hi: nat
    var lo: nat

    predicate Valid()
      reads this
    {
      lo <= hi <= mem.Length
    }

    /** Since the writer stood at `lo0` in memory `m0`, it wrote what `e` describes. */
    ghost predicate Did(o: Written<()>, e: Written<bytes>, m0: seq<Slot>, lo0: nat)
      reads this, mem
    {
      Valid() && Emitted(o, e, m0, mem[..], lo0, lo, hi)
    }

    constructor (mem: array<Slot>, unchecked: bool, lo: nat, hi: nat)
      requires lo <= hi <= mem.Length
      ensures Valid() && this.mem == mem && this.unchecked == unchecked && this.lo == lo && this.hi == hi
    {
      this.mem, this.unchecked, this.lo, this.hi := mem, unchecked, lo, hi;
    }

    /** Write all of `src`. A checked writer that has no room for it is left empty; an unchecked
        one does not look. */
    method Put(src: bytes) returns (o: Written<()>)
      requires Valid() && (unchecked ==> |src| <= hi - lo)
      modifies this`lo, mem
      ensures Did(o, Wrote(src), old(mem[..]), old(lo))
      ensures o.Refused? ==> mem[..] == old(mem[..]) && lo == hi && o.error == WriteSizeLimit(|src|)
    {
      if !unchecked && |src| > hi - lo {
        lo := hi;
        return Refused(WriteSizeLimit(|src|));
      }
      forall i | 0 <= i < |src| {
        mem[lo + i] := Some(src[i]);
      }
      lo := lo + |src|;
      assert mem[..] == Overwrite(old(mem[..]), old(lo), src);
      return Wrote(());
    }

    /** Advance this writer by `n` bytes and hand out an unchecked writer over them; on a writer
        that is unchecked already, that is the writer itself. */
    method AsTrustedFor(n: nat) returns (o: Written<Writer>)
      requires Valid() && (unchecked ==> n <= hi - lo)
      modifies this`lo
      ensures Valid()
      ensures o.Wrote? <==> n <= hi - old(lo)
      ensures o.Refused? ==> lo == hi && o.error == WriteSizeLimit(n)
      ensures o.Wrote? ==> o.value.Valid() && o.value.unchecked && o.value.mem == mem && o.value.lo == old(lo)
      ensures o.Wrote? && unchecked ==> o.value == this
      ensures o.Wrote? && !unchecked ==> fresh(o.value) && o.value.hi == lo == old(lo) + n
    {
      if unchecked {
        return Wrote(this);
      }
      if n > hi - lo {
        lo := hi;
        return Refused(WriteSizeLimit(n));
      }
      var child := new Writer(mem, true, lo, lo + n);
      lo := lo + n;
      return Wrote(child);
    }
  }

  // Integers, lengths and tags

  method WriteVarFrom(w: Writer, order: Endian, n: nat, width: nat, p: nat) returns (o: Written<()>)
    requires w.Valid() && PayloadWidth(width) && PayloadWidth(p) && p <= width
    requires w.unchecked ==> |EncodeFrom(order, n, width, p)| <= w.hi - w.lo
    modifies w`lo, w.mem
    ensures w.Did(o, Wrote(EncodeFrom(order, n, width, p)), old(w.mem[..]), old(w.lo))
    decreases width - p
  {
    hide Pow256, ToBytes;
    if p == width || n < Pow256(p) {
      ghost var m0, lo0 := w.mem[..], w.lo;
      var window :- w.AsTrustedFor(p + 1);
      o := window.Put([TagOf(p)]);
      assert o.Wrote?;
      ghost var m1, lo1 := w.mem[..], window.lo;
      o := window.Put(ToBytes(order, n, p));
      BothEmitted(o, Wrote([TagOf(p)]), Wrote(ToBytes(order, n, p)), m0, m1, w.mem[..], lo0, lo1, window.lo, window.hi);
      if window != w {
        WindowEmitted(o, Wrote([TagOf(p)] + ToBytes(order, n, p)), m0, w.mem[..], lo0, window.lo, p + 1, w.hi);
      }
    } else {
      o := WriteVarFrom(w, order, n, width, 2 * p);
    }
  }

  method WriteVar(w: Writer, order: Endian, n: nat, width: nat) returns (o: Written<()>)
    requires w.Valid() && PayloadWidth(width) && (w.unchecked ==> |EncodeVar(order, n, width)| <= w.hi - w.lo)
    modifies w`lo, w.mem
    ensures w.Did(o, Wrote(EncodeVar(order, n, width)), old(w.mem[..]), old(w.lo))
  {
    if n <= SINGLE_BYTE_MAX {
      o := w.Put([n]);
    } else {
      o := WriteVarFrom(w, order, n, width, 2);
    }
  }

  method WriteInt(w: Writer, c: IntConfig, k: IntKind, i: int) returns (o: Written<()>)
    requires w.Valid() && k.Valid() && k.InRange(i) && (w.unchecked ==> |EncodeInt(c, k, i)| <= w.hi - w.lo)
    modifies w`lo, w.mem
    ensures w.Did(o, Wrote(EncodeInt(c, k, i)), old(w.mem[..]), old(w.lo))
  {
    if FixedKind(c, k) {
      o := w.Put(ToBytes(c.order, k.Cast(i), k.width));
    } else if k.signed {
      ZigzagInverse(k, i);
      o := WriteVar(w, c.order, Zigzag(k, i), k.width);
    } else {
      o := WriteVar(w, c.order, i, k.width);
    }
  }

  method WriteLen(w: Writer, c: Config, len: SeqLen, n: nat) returns (o: Written<()>)
    requires w.Valid() && len.kind.Valid()
    requires w.unchecked && EncodeLen(c, len, n).Wrote? ==> |EncodeLen(c, len, n).value| <= w.hi - w.lo
    modifies w`lo, w.mem
    ensures w.Did(o, EncodeLen(c, len, n), old(w.mem[..]), old(w.lo))
  {
    if !len.kind.InRange(n) {
      return Refused(WriteLengthOverflow);
    }
    o := WriteInt(w, LenInts(c, len), len.kind, n);
  }

  method WriteTag(w: Writer, c: Config, tag: Option<IntKind>, t: nat) returns (o: Written<()>)
    requires w.Valid() && TagKind(c, tag).Valid()
    requires w.unchecked && EncodeTag(c, tag, t).Wrote? ==> |EncodeTag(c, tag, t).value| <= w.hi - w.lo
    modifies w`lo, w.mem
    ensures w.Did(o, EncodeTag(c, tag, t), old(w.mem[..]), old(w.lo))
  {
    if !TagKind(c, tag).InRange(t) {
      return Refused(WriteTagOverflow);
    }
    o := WriteInt(w, c.ints, TagKind(c, tag), t);
  }
}
