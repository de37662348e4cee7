/** The code that writes: methods that move a writer, proved against the encoding functions. */
module Writes {
  import opened Prim
  import opened IntEncoding
  import opened Utf8
  import opened TypeMetas
  import opened Schemas
  import opened Lens
  import opened Memory
  import opened Codec
  import opened StaticSize
  import opened ZeroCopy
  import opened Writers
  import opened WindowSizes

  /** An iterator that reports a length and yields what it yields. */
  class ElemIter {
    const len: nat
    var items: seq<Value>

    constructor (len: nat, items: seq<Value>)
      ensures this.len == len && this.items == items
    {
      this.len, this.items := len, items;
    }

    method Next() returns (x: Option<Value>)
      modifies this
      ensures if old(items) == [] then x == None && items == [] else x == Some(old(items)[0]) && items == old(items)[1..]
    {
      if items == [] {
        return None;
      }
      x := Some(items[0]);
      items := items[1..];
    }
  }

  /** The first `n` elements one after the other, or an error if there are not that many. */
  function EncodeUpTo(c: Config, e: Schema, n: nat, items: seq<Value>): Written<bytes>
    requires Wf(c, e) && AllTyped(e, items)
    decreases n
  {
    if n == 0 then Wrote([])
    else if items == [] then Refused(ShortIterator)
    else Both(Encode(c, e, items[0]), EncodeUpTo(c, e, n - 1, items[1..]))
  }

  lemma {:induction false} TakeTyped(e: Schema, items: seq<Value>, n: nat)
    requires AllTyped(e, items) && n <= |items|
    ensures AllTyped(e, items[..n])
    decreases n
  {
    if n > 0 {
      TakeTyped(e, items[1..], n - 1);
      assert items[..n][1..] == items[1..][..n - 1];
    }
  }

  lemma {:induction false} TakeSized(c: Config, e: Schema, items: seq<Value>, n: nat)
    requires Wf(c, e) && AllTyped(e, items) && AllSized(c, e, items) && n <= |items| && AllTyped(e, items[..n])
    ensures AllSized(c, e, items[..n])
    decreases n
  {
    hide Sized, WellTyped, Wf;
    if n > 0 {
      assert items[..n][1..] == items[1..][..n - 1];
      TakeSized(c, e, items[1..], n - 1);
    }
  }

  /** Whatever the iterator reports: success means at least that many elements were there, and
      exactly that many were encoded. */
  lemma {:induction false} UpToIsAll(c: Config, e: Schema, n: nat, items: seq<Value>)
    requires Wf(c, e) && AllTyped(e, items)
    ensures n > |items| ==> EncodeUpTo(c, e, n, items).Refused?
    ensures n <= |items| ==> AllTyped(e, items[..n]) && EncodeUpTo(c, e, n, items) == EncodeAll(c, e, items[..n])
    decreases n
  {
    hide Encode, Wf, WellTyped;
    if n > 0 && items != [] {
      UpToIsAll(c, e, n - 1, items[1..]);
      if n <= |items| {
        TakeTyped(e, items, n);
        assert items[..n][1..] == items[1..][..n - 1];
      }
    }
  }

  lemma StopsShort(e: Written<bytes>, m0: seq<Slot>, m: seq<Slot>, lo0: nat, lo: nat, hi: nat)
    requires Emitted(Wrote(()), e, m0, m, lo0, lo, hi)
    ensures Emitted(Refused(ShortIterator), Both(e, Refused(ShortIterator)), m0, m, lo0, lo, hi)
  {}

  lemma StartsEmpty(m0: seq<Slot>, lo0: nat, hi: nat)
    requires lo0 <= hi <= |m0|
    ensures Emitted(Wrote(()), Wrote([]), m0, m0, lo0, lo0, hi)
  {
    OverwriteNothing(m0, lo0);
  }

  lemma UpToNone(c: Config, e: Schema, items: seq<Value>)
    requires Wf(c, e) && AllTyped(e, items)
    ensures EncodeUpTo(c, e, 0, items) == Wrote([])
  {}

  lemma UpToStep(c: Config, e: Schema, n: nat, items: seq<Value>)
    requires n > 0 && Wf(c, e) && AllTyped(e, items)
    ensures items == [] ==> EncodeUpTo(c, e, n, items) == Refused(ShortIterator)
    ensures items != [] ==> EncodeUpTo(c, e, n, items) == Both(Encode(c, e, items[0]), EncodeUpTo(c, e, n - 1, items[1..]))
  {}

  method WriteElem(w: Writer, c: Config, e: Schema, v: Value) returns (o: Written<()>)
    requires w.Valid() && Wf(c, e) && WellTyped(e, v)
    requires w.unchecked ==> Meta(c, Writing, e).Static? && Meta(c, Writing, e).size <= w.hi - w.lo
    requires Sized(c, e, v)
    modifies w`lo, w.mem
    ensures w.Did(o, Encode(c, e, v), old(w.mem[..]), old(w.lo))
    ensures w.unchecked && o.Wrote? ==> w.lo == old(w.lo) + Meta(c, Writing, e).size
    decreases e, 1, 0
  {
    if w.unchecked && Encode(c, e, v).Wrote? {
      SizedWrite(c, e, v);
    }
    o := Write(w, c, e, v);
  }

  /** Write `n` elements, driven by the count and not by the iterator. */
  method WriteElems(w: Writer, c: Config, e: Schema, n: nat, it: ElemIter) returns (o: Written<()>)
    requires w.Valid() && Wf(c, e) && AllTyped(e, it.items)
    requires w.unchecked ==> Meta(c, Writing, e).Static? && Times(n, Meta(c, Writing, e).size) <= w.hi - w.lo
    requires AllSized(c, e, it.items)
    modifies w`lo, w.mem, it
    ensures w.Did(o, EncodeUpTo(c, e, n, old(it.items)), old(w.mem[..]), old(w.lo))
    decreases e, 1, n + 1
  {
    hide Encode, EncodeUpTo, Wf, Meta, WellTyped, Sized, Both, Emitted, Times;
    ghost var m0, lo0 := w.mem[..], w.lo;
    ghost var e0 := EncodeUpTo(c, e, n, it.items);
    ghost var done: Written<bytes> := Wrote([]);
    StartsEmpty(m0, lo0, w.hi);
    BothNothing(e0);
    for i := 0 to n
      invariant AllTyped(e, it.items) && AllSized(c, e, it.items)
      invariant w.unchecked ==> Times(n - i, Meta(c, Writing, e).size) <= w.hi - w.lo
      invariant w.Did(Wrote(()), done, m0, lo0)
      invariant e0 == Both(done, EncodeUpTo(c, e, n - i, it.items))
    {
      ghost var m1, lo1 := w.mem[..], w.lo;
      UpToStep(c, e, n - i, it.items);
      var item := it.Next();
      if item.None? {
        StopsShort(done, m0, w.mem[..], lo0, w.lo, w.hi);
        return Refused(ShortIterator);
      }
      ghost var x := Encode(c, e, item.value);
      ghost var more := EncodeUpTo(c, e, n - i - 1, it.items);
      BothAssociates(done, x, more);
      if w.unchecked {
        TimesStep(n - i, Meta(c, Writing, e).size);
      }
      o := WriteElem(w, c, e, item.value);
      BothEmitted(o, done, x, m0, m1, w.mem[..], lo0, lo1, w.lo, w.hi);
      if o.Refused? {
        FirstRefused(o, Both(done, x), more, m0, w.mem[..], lo0, w.lo, w.hi);
        return o;
      }
      assert o.value == ();
      done := Both(done, x);
    }
    UpToNone(c, e, it.items);
    BothNothing(done);
    return Wrote(());
  }

  method Write(w: Writer, c: Config, s: Schema, v: Value) returns (o: Written<()>)
    requires w.Valid() && Wf(c, s) && WellTyped(s, v)
    requires w.unchecked ==> Meta(c, Writing, s).Static? && Meta(c, Writing, s).size <= w.hi - w.lo
    requires Sized(c, s, v)
    modifies w`lo, w.mem
    ensures w.Did(o, Encode(c, s, v), old(w.mem[..]), old(w.lo))
    decreases s, 0, 0
  {
    match s
    case IntS(k) => o := WriteInt(w, c.ints, k, v.i);
    case BoolS => o := w.Put(if v.b then [1] else [0]);
    case CharS => o := w.Put(EncodeScalar(v.c));
    case StrS(len, _, check, _) => o := WriteStr(w, c, s, v);
    case OptS(e, _) => o := WriteOption(w, c, s, v);
    case ArrS(n, e) => o := WriteArray(w, c, s, v);
    case SeqS(_, _, _, _) => o := WriteSeq(w, c, s, v);
    case MapS(_, _, _, _) => o := WriteMap(w, c, s, v);
    case StructS(_, fs) => o := WriteStruct(w, c, s, v);
    case EnumS(_, _, _) => o := WriteEnum(w, c, s, v);
    case BoxS(e) => o := Write(w, c, e, v);
    case DefaultOnEmptyS(e, _) => o := Write(w, c, e, v);
    case DiscardS(e, d) => o := Write(w, c, e, d);
    case DiscardSeqS(_, len) => o := WriteLen(w, c, len, 0);
  }

  method WriteStr(w: Writer, c: Config, s: Schema, v: Value) returns (o: Written<()>)
    requires w.Valid() && s.StrS? && Wf(c, s) && WellTyped(s, v) && !w.unchecked
    modifies w`lo, w.mem
    ensures w.Did(o, Encode(c, s, v), old(w.mem[..]), old(w.lo))
  {
    ghost var m0, lo0 := w.mem[..], w.lo;
    if s.writeCheck {
      var _ :- WriteCheck(c, s.len, 1, |v.s|);
    }
    ghost var e := EncodeLen(c, s.len, |v.s|);
    o := WriteLen(w, c, s.len, |v.s|);
    assert Encode(c, s, v) == Both(e, Wrote(v.s));
    if o.Refused? {
      FirstRefused(o, e, Wrote(v.s), m0, w.mem[..], lo0, w.lo, w.hi);
      return;
    }
    ghost var m1, lo1 := w.mem[..], w.lo;
    o := w.Put(v.s);
    BothEmitted(o, e, Wrote(v.s), m0, m1, w.mem[..], lo0, lo1, w.lo, w.hi);
  }

  method WriteOption(w: Writer, c: Config, s: Schema, v: Value) returns (o: Written<()>)
    requires w.Valid() && s.OptS? && Wf(c, s) && WellTyped(s, v) && !w.unchecked
    requires Sized(c, s, v)
    modifies w`lo, w.mem
    ensures w.Did(o, Encode(c, s, v), old(w.mem[..]), old(w.lo))
    decreases s.inner, 5, 0
  {
    if v.NoneV? {
      o := w.Put([0]);
      return;
    }
    ghost var m0, lo0 := w.mem[..], w.lo;
    ghost var e := Encode(c, s.inner, v.v);
    assert Encode(c, s, v) == Both(Wrote([1]), e);
    o := w.Put([1]);
    if o.Refused? {
      FirstRefused(o, Wrote([1]), e, m0, w.mem[..], lo0, w.lo, w.hi);
      return;
    }
    ghost var m1, lo1 := w.mem[..], w.lo;
    o := Write(w, c, s.inner, v.v);
    BothEmitted(o, Wrote([1]), e, m0, m1, w.mem[..], lo0, lo1, w.lo, w.hi);
  }

  /** Drive the elements of a slice through an iterator over it. */
  method WriteAll(w: Writer, c: Config, e: Schema, vs: seq<Value>) returns (o: Written<()>)
    requires w.Valid() && Wf(c, e) && AllTyped(e, vs)
    requires w.unchecked ==> Meta(c, Writing, e).Static? && Times(|vs|, Meta(c, Writing, e).size) <= w.hi - w.lo
    requires AllSized(c, e, vs)
    modifies w`lo, w.mem
    ensures w.Did(o, EncodeAll(c, e, vs), old(w.mem[..]), old(w.lo))
    decreases e, 2, |vs|
  {
    UpToIsAll(c, e, |vs|, vs);
    assert vs[..|vs|] == vs;
    var it := new ElemIter(|vs|, vs);
    o := WriteElems(w, c, e, |vs|, it);
  }

  method WriteArray(w: Writer, c: Config, s: Schema, v: Value) returns (o: Written<()>)
    requires w.Valid() && s.ArrS? && Wf(c, s) && WellTyped(s, v)
    requires w.unchecked ==> Meta(c, Writing, s).Static? && Meta(c, Writing, s).size <= w.hi - w.lo
    requires Sized(c, s, v)
    modifies w`lo, w.mem
    ensures w.Did(o, Encode(c, s, v), old(w.mem[..]), old(w.lo))
    decreases s.elem, 5, 0
  {
    hide EncodeAll, ImageAll;
    ghost var m0, lo0 := w.mem[..], w.lo;
    match Meta(c, Writing, s)
    case Static(_, true) =>
      var pad: byte := *;
      ImageAllIsEncoding(c, pad, s.elem, v.vs);
      SizedWrite(c, s, v);
      o := w.Put(ImageAll(c, pad, s.elem, v.vs));
    case Static(size, false) =>
      if Encode(c, s, v).Wrote? { SizedWrite(c, s, v); }
      var window :- w.AsTrustedFor(size);
      o := WriteAll(window, c, s.elem, v.vs);
      if window != w {
        WindowEmitted(o, Encode(c, s, v), m0, w.mem[..], lo0, window.lo, size, w.hi);
      }
    case Dynamic =>
      o := WriteAll(w, c, s.elem, v.vs);
  }

  method WriteSeq(w: Writer, c: Config, s: Schema, v: Value) returns (o: Written<()>)
    requires w.Valid() && s.SeqS? && Wf(c, s) && WellTyped(s, v) && !w.unchecked
    requires Sized(c, s, v)
    modifies w`lo, w.mem
    ensures w.Did(o, Encode(c, s, v), old(w.mem[..]), old(w.lo))
    decreases s.elem, 6, 0
  {
    if s.writeCheck {
      var _ :- WriteCheck(c, s.len, LayoutOf(s.elem).size, |v.vs|);
    }
    assert Encode(c, s, v) == Both(EncodeLen(c, s.len, |v.vs|), EncodeAll(c, s.elem, v.vs));
    o := WriteElemSlice(w, c, s.elem, s.len, v.vs);
  }

  /** Copy zero-copy elements out of memory in bulk, or go through the iterator. */
  method WriteElemSlice(w: Writer, c: Config, e: Schema, len: SeqLen, vs: seq<Value>) returns (o: Written<()>)
    requires w.Valid() && len.kind.Valid() && Wf(c, e) && AllTyped(e, vs) && !w.unchecked
    requires ElemsFit(c, e, len, |vs|) && AllSized(c, e, vs)
    modifies w`lo, w.mem
    ensures w.Did(o, Both(EncodeLen(c, len, |vs|), EncodeAll(c, e, vs)), old(w.mem[..]), old(w.lo))
    decreases e, 5, 0
  {
    if IsZeroCopy(Meta(c, Writing, e)) {
      o := WriteInBulk(w, c, e, len, vs);
    } else {
      UpToIsAll(c, e, |vs|, vs);
      assert vs[..|vs|] == vs;
      var it := new ElemIter(|vs|, vs);
      o := WriteElemIter(w, c, e, len, it);
    }
  }

  lemma NeededIsRoom(c: Config, len: SeqLen, n: nat)
    requires len.kind.Valid()
    ensures LenBytesNeeded(c, len, n).Refused? ==> EncodeLen(c, len, n) == Refused(LenBytesNeeded(c, len, n).error)
    ensures EncodeLen(c, len, n).Wrote? ==> LenBytesNeeded(c, len, n) == Wrote(|EncodeLen(c, len, n).value|)
  {
    if EncodeLen(c, len, n).Wrote? {
      LenSizeExact(c, len, n);
    }
  }

  /** The length and then the memory of all elements, inside one window. */
  method WriteInBulk(w: Writer, c: Config, e: Schema, len: SeqLen, vs: seq<Value>) returns (o: Written<()>)
    requires w.Valid() && len.kind.Valid() && Wf(c, e) && AllTyped(e, vs) && !w.unchecked
    requires IsZeroCopy(Meta(c, Writing, e))
    requires ElemsFit(c, e, len, |vs|)
    modifies w`lo, w.mem
    ensures w.Did(o, Both(EncodeLen(c, len, |vs|), EncodeAll(c, e, vs)), old(w.mem[..]), old(w.lo))
  {
    hide EncodeAll, ImageAll, EncodeLen, LenBytesNeeded, AllTyped, WrappingAdd, WrappingMul;
    ghost var m0, lo0 := w.mem[..], w.lo;
    var pad: byte := *;
    ImageAllIsEncoding(c, pad, e, vs);
    ImageAllSize(c, pad, e, vs);
    ZeroCopySize(c, Writing, e);
    NeededIsRoom(c, len, |vs|);
    if LenBytesNeeded(c, len, |vs|).Wrote? {
      WindowCovers(c, len, |vs|, Meta(c, Writing, e).size);
    }
    var needed :- WindowFor(c, len, |vs|, Meta(c, Writing, e).size);
    var window :- w.AsTrustedFor(needed);
    ghost var a, b := EncodeLen(c, len, |vs|), EncodeAll(c, e, vs);
    o := WriteLen(window, c, len, |vs|);
    if o.Refused? {
      FirstRefused(o, a, b, m0, w.mem[..], lo0, window.lo, window.hi);
    } else {
      ghost var m1, lo1 := w.mem[..], window.lo;
      o := window.Put(ImageAll(c, pad, e, vs));
      BothEmitted(o, a, b, m0, m1, w.mem[..], lo0, lo1, window.lo, window.hi);
    }
    WindowEmitted(o, Both(a, b), m0, w.mem[..], lo0, window.lo, needed, w.hi);
  }

  /** Write a length and that many elements of an iterator that may be wrong about its length: where
      the window covers that many, never past it, and successful only if exactly that many were
      written. */
  method WriteElemIter(w: Writer, c: Config, e: Schema, len: SeqLen, it: ElemIter) returns (o: Written<()>)
    requires w.Valid() && len.kind.Valid() && Wf(c, e) && AllTyped(e, it.items) && !w.unchecked
    requires ElemsFit(c, e, len, it.len) && AllSized(c, e, it.items)
    modifies w`lo, w.mem, it
    ensures w.Did(o, Both(EncodeLen(c, len, it.len), EncodeUpTo(c, e, it.len, old(it.items))), old(w.mem[..]), old(w.lo))
    decreases e, 4, 0
  {
    hide Wf, AllTyped, EncodeUpTo, EncodeLen, LenBytesNeeded;
    match Meta(c, Writing, e)
    case Dynamic =>
      o := WriteLenAndElems(w, c, e, len, it);
    case Static(size, _) =>
      ghost var m0, lo0 := w.mem[..], w.lo;
      ghost var r := Both(EncodeLen(c, len, it.len), EncodeUpTo(c, e, it.len, it.items));
      NeededIsRoom(c, len, it.len);
      UpToSize(c, e, it.len, it.items);
      if LenBytesNeeded(c, len, it.len).Wrote? {
        WindowCovers(c, len, it.len, size);
      }
      var needed :- WindowFor(c, len, it.len, size);
      var window :- w.AsTrustedFor(needed);
      o := WriteLenAndElems(window, c, e, len, it);
      WindowEmitted(o, r, m0, w.mem[..], lo0, window.lo, needed, w.hi);
  }

  lemma {:induction false} UpToSize(c: Config, e: Schema, n: nat, items: seq<Value>)
    requires Wf(c, e) && AllTyped(e, items) && AllSized(c, e, items) && Meta(c, Writing, e).Static?
    ensures EncodeUpTo(c, e, n, items).Wrote? ==> |EncodeUpTo(c, e, n, items).value| == Times(n, Meta(c, Writing, e).size)
  {
    UpToIsAll(c, e, n, items);
    if EncodeUpTo(c, e, n, items).Wrote? {
      TakeSized(c, e, items, n);
      SizedWriteAll(c, e, items[..n]);
    }
  }

  method WriteLenAndElems(w: Writer, c: Config, e: Schema, len: SeqLen, it: ElemIter) returns (o: Written<()>)
    requires w.Valid() && len.kind.Valid() && Wf(c, e) && AllTyped(e, it.items)
    requires w.unchecked ==>
               && Meta(c, Writing, e).Static?
               && LenBytesNeeded(c, len, it.len).Wrote?
               && LenBytesNeeded(c, len, it.len).value + Times(it.len, Meta(c, Writing, e).size) <= w.hi - w.lo
    requires AllSized(c, e, it.items)
    modifies w`lo, w.mem, it
    ensures w.Did(o, Both(EncodeLen(c, len, it.len), EncodeUpTo(c, e, it.len, old(it.items))), old(w.mem[..]), old(w.lo))
    decreases e, 3, 0
  {
    hide EncodeUpTo, EncodeLen, LenBytesNeeded;
    ghost var m0, lo0 := w.mem[..], w.lo;
    ghost var a, b := EncodeLen(c, len, it.len), EncodeUpTo(c, e, it.len, it.items);
    NeededIsRoom(c, len, it.len);
    o := WriteLen(w, c, len, it.len);
    if o.Refused? {
      FirstRefused(o, a, b, m0, w.mem[..], lo0, w.lo, w.hi);
      return;
    }
    ghost var m1, lo1 := w.mem[..], w.lo;
    o := WriteElems(w, c, e, it.len, it);
    BothEmitted(o, a, b, m0, m1, w.mem[..], lo0, lo1, w.lo, w.hi);
  }

  method WriteMap(w: Writer, c: Config, s: Schema, v: Value) returns (o: Written<()>)
    requires w.Valid() && s.MapS? && Wf(c, s) && WellTyped(s, v) && !w.unchecked
    requires Sized(c, s, v)
    modifies w`lo, w.mem
    ensures w.Did(o, Encode(c, s, v), old(w.mem[..]), old(w.lo))
    decreases s.entry, 5, 0
  {
    var p, es := s.entry, v.entries;
    var _ :- WriteCheck(c, s.len, s.entrySize, |es|);
    assert Encode(c, s, v) == Both(EncodeLen(c, s.len, |es|), EncodeEntries(c, p, es));
    match (Meta(c, Writing, p.key), Meta(c, Writing, p.val))
    case (Static(_, _), Static(_, _)) =>
      o := WriteEntriesIn(w, c, p, s.len, es);
    case _ =>
      o := WriteLenAndEntries(w, c, p, s.len, es);
  }

  method WriteEntriesIn(w: Writer, c: Config, p: EntrySchema, len: SeqLen, es: seq<Entry>) returns (o: Written<()>)
    requires w.Valid() && len.kind.Valid() && Wf(c, p.key) && Wf(c, p.val) && EntriesTyped(p, es) && !w.unchecked
    requires Meta(c, Writing, p.key).Static? && Meta(c, Writing, p.val).Static?
    requires EntriesFit(c, p, len, |es|) && EntriesSized(c, p, es)
    modifies w`lo, w.mem
    ensures w.Did(o, Both(EncodeLen(c, len, |es|), EncodeEntries(c, p, es)), old(w.mem[..]), old(w.lo))
    decreases p, 4, 0
  {
    hide EncodeEntries, EncodeLen, LenBytesNeeded, EntriesTyped, EntriesSized, Meta, Wf, Times, WrappingAdd, WrappingMul;
    ghost var m0, lo0 := w.mem[..], w.lo;
    ghost var e := Both(EncodeLen(c, len, |es|), EncodeEntries(c, p, es));
    NeededIsRoom(c, len, |es|);
    if EncodeEntries(c, p, es).Wrote? { SizedWriteEntries(c, p, es); }
    var k, v := Meta(c, Writing, p.key).size, Meta(c, Writing, p.val).size;
    if LenBytesNeeded(c, len, |es|).Wrote? {
      EntryWindowCovers(c, len, |es|, k, v);
    }
    var needed :- WindowFor(c, len, |es|, WrappingAdd(k, v));
    var window :- w.AsTrustedFor(needed);
    o := WriteLenAndEntries(window, c, p, len, es);
    WindowEmitted(o, e, m0, w.mem[..], lo0, window.lo, needed, w.hi);
  }

  method WriteLenAndEntries(w: Writer, c: Config, p: EntrySchema, len: SeqLen, es: seq<Entry>) returns (o: Written<()>)
    requires w.Valid() && len.kind.Valid() && Wf(c, p.key) && Wf(c, p.val) && EntriesTyped(p, es)
    requires w.unchecked ==>
               && Meta(c, Writing, p.key).Static? && Meta(c, Writing, p.val).Static?
               && LenBytesNeeded(c, len, |es|).Wrote?
               && LenBytesNeeded(c, len, |es|).value + Times(|es|, Meta(c, Writing, p.key).size + Meta(c, Writing, p.val).size) <= w.hi - w.lo
    requires EntriesSized(c, p, es)
    modifies w`lo, w.mem
    ensures w.Did(o, Both(EncodeLen(c, len, |es|), EncodeEntries(c, p, es)), old(w.mem[..]), old(w.lo))
    decreases p, 3, 0
  {
    hide EncodeEntries, EncodeLen, LenBytesNeeded;
    ghost var m0, lo0 := w.mem[..], w.lo;
    ghost var a, b := EncodeLen(c, len, |es|), EncodeEntries(c, p, es);
    NeededIsRoom(c, len, |es|);
    o := WriteLen(w, c, len, |es|);
    if o.Refused? {
      FirstRefused(o, a, b, m0, w.mem[..], lo0, w.lo, w.hi);
      return;
    }
    ghost var m1, lo1 := w.mem[..], w.lo;
    o := WriteEntries(w, c, p, es);
    BothEmitted(o, a, b, m0, m1, w.mem[..], lo0, lo1, w.lo, w.hi);
  }

  function EncodeEntry(c: Config, p: EntrySchema, x: Entry): Written<bytes>
    requires Wf(c, p.key) && Wf(c, p.val) && WellTyped(p.key, x.key) && WellTyped(p.val, x.val)
  {
    Both(Encode(c, p.key, x.key), Encode(c, p.val, x.val))
  }

  lemma EntriesStep(c: Config, p: EntrySchema, es: seq<Entry>)
    requires es != [] && Wf(c, p.key) && Wf(c, p.val) && EntriesTyped(p, es)
    ensures EncodeEntries(c, p, es) == Both(EncodeEntry(c, p, es[0]), EncodeEntries(c, p, es[1..]))
  {}

  method WriteEntries(w: Writer, c: Config, p: EntrySchema, es: seq<Entry>) returns (o: Written<()>)
    requires w.Valid() && Wf(c, p.key) && Wf(c, p.val) && EntriesTyped(p, es)
    requires w.unchecked ==>
               && Meta(c, Writing, p.key).Static? && Meta(c, Writing, p.val).Static?
               && Times(|es|, Meta(c, Writing, p.key).size + Meta(c, Writing, p.val).size) <= w.hi - w.lo
    requires EntriesSized(c, p, es)
    modifies w`lo, w.mem
    ensures w.Did(o, EncodeEntries(c, p, es), old(w.mem[..]), old(w.lo))
    decreases p, 2, 0
  {
    hide Encode, EncodeEntry, Sized;
    ghost var m0, lo0 := w.mem[..], w.lo;
    ghost var done: Written<bytes> := Wrote([]);
    OverwriteNothing(m0, lo0);
    BothNothing(EncodeEntries(c, p, es));
    for i := 0 to |es|
      invariant EntriesTyped(p, es[i..]) && EntriesSized(c, p, es[i..])
      invariant w.unchecked ==> Times(|es| - i, Meta(c, Writing, p.key).size + Meta(c, Writing, p.val).size) <= w.hi - w.lo
      invariant w.Did(Wrote(()), done, m0, lo0)
      invariant EncodeEntries(c, p, es) == Both(done, EncodeEntries(c, p, es[i..]))
    {
      assert es[i..][1..] == es[i + 1..] && es[i..][0] == es[i];
      EntriesStep(c, p, es[i..]);
      ghost var m1, lo1 := w.mem[..], w.lo;
      ghost var x, more := EncodeEntry(c, p, es[i]), EncodeEntries(c, p, es[i + 1..]);
      BothAssociates(done, x, more);
      if w.unchecked {
        TimesStep(|es| - i, Meta(c, Writing, p.key).size + Meta(c, Writing, p.val).size);
      }
      o := WriteEntry(w, c, p, es[i]);
      BothEmitted(o, done, x, m0, m1, w.mem[..], lo0, lo1, w.lo, w.hi);
      if o.Refused? {
        FirstRefused(o, Both(done, x), more, m0, w.mem[..], lo0, w.lo, w.hi);
        return o;
      }
      done := Both(done, x);
    }
    assert es[|es|..] == [];
    BothNothing(done);
    return Wrote(());
  }

  method WriteEntry(w: Writer, c: Config, p: EntrySchema, x: Entry) returns (o: Written<()>)
    requires w.Valid() && Wf(c, p.key) && Wf(c, p.val) && WellTyped(p.key, x.key) && WellTyped(p.val, x.val)
    requires w.unchecked ==>
               && Meta(c, Writing, p.key).Static? && Meta(c, Writing, p.val).Static?
               && Meta(c, Writing, p.key).size + Meta(c, Writing, p.val).size <= w.hi - w.lo
    requires Sized(c, p.key, x.key) && Sized(c, p.val, x.val)
    modifies w`lo, w.mem
    ensures w.Did(o, EncodeEntry(c, p, x), old(w.mem[..]), old(w.lo))
    ensures w.unchecked && o.Wrote? ==> w.lo == old(w.lo) + Meta(c, Writing, p.key).size + Meta(c, Writing, p.val).size
    decreases p, 1, 0
  {
    hide Encode;
    ghost var m0, lo0 := w.mem[..], w.lo;
    ghost var a, b := Encode(c, p.key, x.key), Encode(c, p.val, x.val);
    if w.unchecked {
      if a.Wrote? { SizedWrite(c, p.key, x.key); }
      if b.Wrote? { SizedWrite(c, p.val, x.val); }
    }
    o := Write(w, c, p.key, x.key);
    if o.Refused? {
      FirstRefused(o, a, b, m0, w.mem[..], lo0, w.lo, w.hi);
      return;
    }
    ghost var m1, lo1 := w.mem[..], w.lo;
    o := Write(w, c, p.val, x.val);
    BothEmitted(o, a, b, m0, m1, w.mem[..], lo0, lo1, w.lo, w.hi);
  }

  method WriteStruct(w: Writer, c: Config, s: Schema, v: Value) returns (o: Written<()>)
    requires w.Valid() && s.StructS? && Wf(c, s) && WellTyped(s, v)
    requires w.unchecked ==> Meta(c, Writing, s).Static? && Meta(c, Writing, s).size <= w.hi - w.lo
    requires Sized(c, s, v)
    modifies w`lo, w.mem
    ensures w.Did(o, Encode(c, s, v), old(w.mem[..]), old(w.lo))
    decreases s.fields, 5, 0
  {
    match Meta(c, Writing, s)
    case Static(size, _) =>
      ghost var m0, lo0 := w.mem[..], w.lo;
      if Encode(c, s, v).Wrote? { SizedWrite(c, s, v); }
      JoinCovers(FieldMetas(c, Writing, s.fields));
      var window :- w.AsTrustedFor(size);
      o := WriteFields(window, c, s.fields, v.vs);
      if window != w {
        WindowEmitted(o, Encode(c, s, v), m0, w.mem[..], lo0, window.lo, size, w.hi);
      }
    case Dynamic =>
      o := WriteFields(w, c, s.fields, v.vs);
  }

  method WriteFields(w: Writer, c: Config, fs: seq<Field>, vs: seq<Value>) returns (o: Written<()>)
    requires w.Valid() && WfFields(c, fs) && FieldsTyped(fs, vs)
    requires w.unchecked ==> Join(FieldMetas(c, Writing, fs)).Static? && Total(FieldMetas(c, Writing, fs)) <= w.hi - w.lo
    requires FieldsSized(c, fs, vs)
    modifies w`lo, w.mem
    ensures w.Did(o, EncodeFields(c, fs, vs), old(w.mem[..]), old(w.lo))
    decreases fs, 0, 0
  {
    hide Encode;
    ghost var m0, lo0 := w.mem[..], w.lo;
    if fs == [] {
      OverwriteNothing(m0, lo0);
      return Wrote(());
    }
    if fs[0].skip.Some? {
      o := WriteFields(w, c, fs[1..], vs[1..]);
      return;
    }
    assert fs[0].schema < fs[0];
    ghost var a, b := Encode(c, fs[0].schema, vs[0]), EncodeFields(c, fs[1..], vs[1..]);
    assert EncodeFields(c, fs, vs) == Both(a, b);
    if w.unchecked {
      JoinCons(Meta(c, Writing, fs[0].schema), FieldMetas(c, Writing, fs[1..]));
      if a.Wrote? { SizedWrite(c, fs[0].schema, vs[0]); }
    }
    o := Write(w, c, fs[0].schema, vs[0]);
    if o.Refused? {
      FirstRefused(o, a, b, m0, w.mem[..], lo0, w.lo, w.hi);
      return;
    }
    ghost var m1, lo1 := w.mem[..], w.lo;
    o := WriteFields(w, c, fs[1..], vs[1..]);
    BothEmitted(o, a, b, m0, m1, w.mem[..], lo0, lo1, w.lo, w.hi);
  }

  method WriteEnum(w: Writer, c: Config, s: Schema, v: Value) returns (o: Written<()>)
    requires w.Valid() && s.EnumS? && Wf(c, s) && WellTyped(s, v)
    requires w.unchecked ==> Meta(c, Writing, s).Static? && Meta(c, Writing, s).size <= w.hi - w.lo
    requires Sized(c, s, v)
    modifies w`lo, w.mem
    ensures w.Did(o, Encode(c, s, v), old(w.mem[..]), old(w.lo))
    decreases s.variants, 5, 0
  {
    hide EncodeFields;
    WfVariant(c, s.tag, s.variants, 0, v.variant);
    var fs := s.variants[v.variant].fields;
    var t := Discriminant(s.variants[v.variant], v.variant);
    assert Encode(c, s, v) == Both(EncodeTag(c, s.tag, t), EncodeFields(c, fs, v.vs));
    if w.unchecked {
      StaticEnum(c, Writing, s, v.variant);
      JoinCons(IntMeta(c, TagKind(c, s.tag)), FieldMetas(c, Writing, fs));
    }
    o := WriteVariant(w, c, s.tag, t, fs, v.vs);
  }

  lemma VariantSize(c: Config, tag: Option<IntKind>, t: nat, fs: seq<Field>, vs: seq<Value>)
    requires TagKind(c, tag).Valid() && WfFields(c, fs) && FieldsTyped(fs, vs) && FieldsSized(c, fs, vs)
    requires Join([IntMeta(c, TagKind(c, tag))] + FieldMetas(c, Writing, fs)).Static?
    ensures EncodeTag(c, tag, t).Wrote? ==> |EncodeTag(c, tag, t).value| == IntMeta(c, TagKind(c, tag)).size
    ensures var e := Both(EncodeTag(c, tag, t), EncodeFields(c, fs, vs));
            e.Wrote? ==> |e.value| == Total([IntMeta(c, TagKind(c, tag))] + FieldMetas(c, Writing, fs))
  {
    JoinCons(IntMeta(c, TagKind(c, tag)), FieldMetas(c, Writing, fs));
    if EncodeFields(c, fs, vs).Wrote? {
      SizedWriteFields(c, fs, vs);
    }
  }

  /** Tag and fields, inside one window if all of them are static. */
  method WriteVariant(w: Writer, c: Config, tag: Option<IntKind>, t: nat, fs: seq<Field>, vs: seq<Value>) returns (o: Written<()>)
    requires w.Valid() && TagKind(c, tag).Valid() && WfFields(c, fs) && FieldsTyped(fs, vs)
    requires var m := Join([IntMeta(c, TagKind(c, tag))] + FieldMetas(c, Writing, fs));
             w.unchecked ==> m.Static? && m.size <= w.hi - w.lo
    requires Holds([IntMeta(c, TagKind(c, tag))] + FieldMetas(c, Writing, fs)) && FieldsSized(c, fs, vs)
    modifies w`lo, w.mem
    ensures w.Did(o, Both(EncodeTag(c, tag, t), EncodeFields(c, fs, vs)), old(w.mem[..]), old(w.lo))
    decreases fs, 2, 0
  {
    hide EncodeFields, EncodeTag;
    match Join([IntMeta(c, TagKind(c, tag))] + FieldMetas(c, Writing, fs))
    case Static(size, _) =>
      ghost var m0, lo0 := w.mem[..], w.lo;
      ghost var e := Both(EncodeTag(c, tag, t), EncodeFields(c, fs, vs));
      VariantSize(c, tag, t, fs, vs);
      JoinCovers([IntMeta(c, TagKind(c, tag))] + FieldMetas(c, Writing, fs));
      var window :- w.AsTrustedFor(size);
      o := WriteTagAndFields(window, c, tag, t, fs, vs);
      if window != w {
        WindowEmitted(o, e, m0, w.mem[..], lo0, window.lo, size, w.hi);
      }
    case Dynamic =>
      o := WriteTagAndFields(w, c, tag, t, fs, vs);
  }

  method WriteTagAndFields(w: Writer, c: Config, tag: Option<IntKind>, t: nat, fs: seq<Field>, vs: seq<Value>) returns (o: Written<()>)
    requires w.Valid() && TagKind(c, tag).Valid() && WfFields(c, fs) && FieldsTyped(fs, vs)
    requires var ms := [IntMeta(c, TagKind(c, tag))] + FieldMetas(c, Writing, fs);
             w.unchecked ==> Join(ms).Static? && Total(ms) <= w.hi - w.lo
    requires FieldsSized(c, fs, vs)
    modifies w`lo, w.mem
    ensures w.Did(o, Both(EncodeTag(c, tag, t), EncodeFields(c, fs, vs)), old(w.mem[..]), old(w.lo))
    decreases fs, 1, 0
  {
    hide EncodeFields, EncodeTag;
    ghost var m0, lo0 := w.mem[..], w.lo;
    ghost var a, b := EncodeTag(c, tag, t), EncodeFields(c, fs, vs);
    if w.unchecked {
      VariantSize(c, tag, t, fs, vs);
      JoinCons(IntMeta(c, TagKind(c, tag)), FieldMetas(c, Writing, fs));
    }
    o := WriteTag(w, c, tag, t);
    if o.Refused? {
      FirstRefused(o, a, b, m0, w.mem[..], lo0, w.lo, w.hi);
      return;
    }
    ghost var m1, lo1 := w.mem[..], w.lo;
    o := WriteFields(w, c, fs, vs);
    BothEmitted(o, a, b, m0, m1, w.mem[..], lo0, lo1, w.lo, w.hi);
  }
}
