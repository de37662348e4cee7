/** The code that writes and reads bit vectors. */
module BitVecCode {
  import opened Prim
  import opened IntEncoding
  import opened Schemas
  import opened Lens
  import opened Codec
  import opened StaticSize
  import opened Readers
  import opened Reads
  import opened Writers
  import opened Writes
  import opened WindowSizes
  import opened BitVecs

  lemma {:induction false} IntsAreSized(c: Config, k: IntKind, vs: seq<Value>)
    requires Wf(c, IntS(k)) && AllTyped(IntS(k), vs)
    ensures AllSized(c, IntS(k), vs)
  {
    if vs != [] {
      IntsAreSized(c, k, vs[1..]);
    }
  }

  lemma BlocksNeeded(c: Config, k: IntKind, n: nat)
    requires Times(n, k.width) < USIZE && Meta(c, Writing, IntS(k)).Static?
    ensures var size := Meta(c, Writing, IntS(k)).size;
            WrappingMul(size, n) == Times(n, size) == Times(size, n)
  {
    TimesCommutes(Meta(c, Writing, IntS(k)).size, n);
  }

  /** Write the blocks in use one by one, inside a window if they have a static size. */
  method WriteBlocks(w: Writer, c: Config, k: IntKind, vs: seq<Value>) returns (o: Written<()>)
    requires w.Valid() && !w.unchecked && Wf(c, IntS(k)) && AllTyped(IntS(k), vs)
    requires Times(|vs|, k.width) < USIZE
    modifies w`lo, w.mem
    ensures w.Did(o, EncodeAll(c, IntS(k), vs), old(w.mem[..]), old(w.lo))
  {
    hide Encode, EncodeAll, AllTyped, AllSized, WellTyped, Wf, Meta, Times, WrappingMul;
    IntsAreSized(c, k, vs);
    match Meta(c, Writing, IntS(k))
    case Static(size, _) =>
      BlocksNeeded(c, k, |vs|);
      ghost var m0, lo0, e := w.mem[..], w.lo, EncodeAll(c, IntS(k), vs);
      if e.Wrote? { SizedWriteAll(c, IntS(k), vs); }
      var needed := WrappingMul(size, |vs|);
      var window :- w.AsTrustedFor(needed);
      o := WriteAll(window, c, IntS(k), vs);
      WindowEmitted(o, e, m0, w.mem[..], lo0, window.lo, needed, w.hi);
    case Dynamic =>
      o := WriteAll(w, c, IntS(k), vs);
  }

  method WriteLenAndBlocks(w: Writer, c: Config, f: Format, vs: seq<Value>) returns (o: Written<()>)
    requires w.Valid() && !w.unchecked && f.Valid() && Wf(c, IntS(f.block)) && AllTyped(IntS(f.block), vs)
    requires Times(|vs|, f.block.width) < USIZE
    modifies w`lo, w.mem
    ensures w.Did(o, Both(EncodeLen(c, f.len, |vs|), EncodeAll(c, IntS(f.block), vs)), old(w.mem[..]), old(w.lo))
  {
    hide EncodeLen, EncodeAll;
    ghost var m0, lo0 := w.mem[..], w.lo;
    ghost var a, b := EncodeLen(c, f.len, |vs|), EncodeAll(c, IntS(f.block), vs);
    o := WriteLen(w, c, f.len, |vs|);
    if o.Refused? {
      FirstRefused(o, a, b, m0, w.mem[..], lo0, w.lo, w.hi);
      return;
    }
    ghost var m1, lo1 := w.mem[..], w.lo;
    o := WriteBlocks(w, c, f.block, vs);
    BothEmitted(o, a, b, m0, m1, w.mem[..], lo0, lo1, w.lo, w.hi);
  }

  lemma StorageParts(c: Config, f: Format, v: BitVec)
    requires f.Valid() && v.Valid(f) && v.bits > 0
    ensures var vs := Serialized(f, v);
            && Wf(c, IntS(f.block)) && AllTyped(IntS(f.block), vs) && |vs| == BlockCount(v.bits, f.BlockBits()) > 0
            && EncodeStorage(c, f, v) == match WriteCheck(c, f.len, f.block.width, |vs|)
                                         case Refused(e) => Refused(e)
                                         case Wrote(_) => Both(Wrote([1]), Both(EncodeLen(c, f.len, |vs|), EncodeAll(c, IntS(f.block), vs)))
  {
    SliceIsWf(c, f);
    SliceTyped(f, v);
    CountFits(v.bits, f.BlockBits(), |v.blocks|);
  }

  method WriteStorage(w: Writer, c: Config, f: Format, v: BitVec) returns (o: Written<()>)
    requires w.Valid() && !w.unchecked && f.Valid() && v.Valid(f)
    modifies w`lo, w.mem
    ensures w.Did(o, EncodeStorage(c, f, v), old(w.mem[..]), old(w.lo))
  {
    CountFits(v.bits, f.BlockBits(), |v.blocks|);
    var n := BlockCount(v.bits, f.BlockBits());
    if n == 0 {
      o := w.Put([0]);
      return;
    }
    hide EncodeStorage, EncodeLen, EncodeAll;
    StorageParts(c, f, v);
    BlocksAreFew(f, v);
    ghost var m0, lo0, vs := w.mem[..], w.lo, Serialized(f, v);
    var _ :- WriteCheck(c, f.len, f.block.width, n);
    ghost var rest := Both(EncodeLen(c, f.len, |vs|), EncodeAll(c, IntS(f.block), vs));
    o := w.Put([1]);
    if o.Refused? {
      FirstRefused(o, Wrote([1]), rest, m0, w.mem[..], lo0, w.lo, w.hi);
      return;
    }
    ghost var m1, lo1 := w.mem[..], w.lo;
    o := WriteLenAndBlocks(w, c, f, Serialized(f, v));
    BothEmitted(o, Wrote([1]), rest, m0, m1, w.mem[..], lo0, lo1, w.lo, w.hi);
  }

  method WriteBits(w: Writer, c: Config, f: Format, v: BitVec) returns (o: Written<()>)
    requires w.Valid() && !w.unchecked && f.Valid() && v.Valid(f)
    modifies w`lo, w.mem
    ensures w.Did(o, EncodeBits(c, f, v), old(w.mem[..]), old(w.lo))
  {
    hide EncodeStorage, EncodeInt;
    PowValues();
    ghost var m0, lo0 := w.mem[..], w.lo;
    ghost var a, b := EncodeStorage(c, f, v), Wrote(EncodeInt(c.ints, U64, v.bits));
    assert EncodeBits(c, f, v) == Both(a, b);
    o := WriteStorage(w, c, f, v);
    if o.Refused? {
      FirstRefused(o, a, b, m0, w.mem[..], lo0, w.lo, w.hi);
      return;
    }
    ghost var m1, lo1 := w.mem[..], w.lo;
    o := WriteInt(w, c.ints, U64, v.bits);
    BothEmitted(o, a, b, m0, m1, w.mem[..], lo0, lo1, w.lo, w.hi);
  }

  method ReadStorage(r: Reader, c: Config, f: Format) returns (o: Result<seq<nat>>)
    requires r.Valid() && !r.unchecked && f.Valid() && |r.Avail()| < USIZE
    modifies r
    ensures r.Valid() && r.Paid(old(r.buf), old(r.remaining))
    ensures r.Matches(o, DecodeStorage(c, Windowed, f, old(r.Avail())))
  {
    hide Decode;
    SliceIsWf(c, f);
    var tag :- r.TakeOne();
    if tag == 0 {
      return Done([]);
    } else if tag == 1 {
      SliceRead(c, Windowed, f, r.Avail());
      var v :- Read(r, c, f.Slice());
      if f.strict && v.vs == [] {
        return Error(InvalidValue);
      }
      return Done(Blocks(v.vs));
    }
    return Error(InvalidTagEncoding(tag));
  }

  method ReadBits(r: Reader, c: Config, f: Format) returns (o: Result<BitVec>)
    requires r.Valid() && !r.unchecked && f.Valid() && |r.Avail()| < USIZE
    modifies r
    ensures r.Valid() && r.Paid(old(r.buf), old(r.remaining))
    ensures r.Matches(o, DecodeBits(c, Windowed, f, old(r.Avail())))
  {
    hide DecodeStorage, DecodeInt, PaddingSet, BlockCount;
    var blocks :- ReadStorage(r, c, f);
    ghost var b := r.Avail();
    var bits :- ReadInt(r, c.ints, U64);
    IntReencode(c.ints, U64, b);
    if f.strict {
      if |blocks| != BlockCount(bits, f.BlockBits()) {
        return Error(InvalidValue);
      }
      if PaddingSet(blocks, bits, f.BlockBits()) {
        return Error(InvalidValue);
      }
    } else if bits > |blocks| * f.BlockBits() {
      return Error(InvalidValue);
    }
    return Done(BitVec(blocks, bits));
  }
}
