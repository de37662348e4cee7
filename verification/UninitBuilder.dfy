/** The generated builder for a struct in uninitialised storage: a bit set of initialised fields. */
module UninitBuilders {
  import opened Prim
  import opened BitSets

  // The bit set

  /** The bits of the smallest unsigned type with a bit for every field. */
  function Width(fields: nat): nat {
    if fields <= 8 then 8 else if fields <= 16 then 16 else if fields <= 32 then 32 else if fields <= 64 then 64 else 128
  }

  /** It holds a bit for each of up to 128 fields, and no smaller type does. */
  lemma WidthFits(fields: nat, width: nat)
    requires fields <= 128 && width in {8, 16, 32, 64, 128}
    ensures Width(fields) in {8, 16, 32, 64, 128} && fields <= Width(fields)
    ensures fields <= width ==> Width(fields) <= width
  {}

  /** `1 << n` in an unsigned type of `width` bits. */
  function Shift(width: nat, n: nat): nat
    requires n < width
  {
    Pow2(n) % Pow2(width)
  }

  lemma ShiftIsPow2(width: nat, n: nat)
    requires n < width
    ensures Shift(width, n) == Pow2(n)
  {
    hide Pow2;
    Pow2Grows(n, width);
  }

  /** The largest value of the type if every bit stands for a field, else a shifted one minus one. */
  function FullMask(fields: nat, width: nat): (m: int)
    requires fields <= width
    ensures m == Pow2(fields) - 1
  {
    if fields == width then Pow2(width) - 1 else ShiftIsPow2(width, fields); Shift(width, fields) - 1
  }

  function Below(n: nat): (s: set<nat>)
    ensures forall i :: i in s <==> 0 <= i < n
  {
    if n == 0 then {} else Below(n - 1) + {n - 1}
  }

  // The builder

  /** The storage holds one identified value per field, where there is one. */
  class Builder {
    const inner: array<Option<nat>>
    var initSet: nat
    /** `mem::forget` was called: the end of the scope does not drop the builder. */
    var forgotten: bool

    ghost predicate Valid()
      reads this, inner
    {
      && 0 < inner.Length <= 128
      && initSet < Pow2(inner.Length)
      && forall i: nat | i < inner.Length && Bit(initSet, i) :: inner[i].Some?
    }

    ghost function Marked(): (m: set<nat>)
      reads this
    {
      set i: nat | i < inner.Length && Bit(initSet, i)
    }

    ghost function Present(): set<nat>
      reads inner
    {
      set i: nat | i < inner.Length && inner[i].Some?
    }

    constructor (inner: array<Option<nat>>)
      requires 0 < inner.Length <= 128
      ensures Valid() && this.inner == inner && Marked() == {} && !forgotten
    {
      this.inner := inner;
      initSet, forgotten := 0, false;
      new;
      forall i: nat
        ensures !Bit(0, i)
      {
        NoBits(i);
      }
    }

    method Mark(i: nat)
      requires Valid() && i < inner.Length && inner[i].Some?
      modifies this
      ensures Valid() && Marked() == old(Marked()) + {i}
    {
      SetBitBound(initSet, i, inner.Length);
      forall j: nat
        ensures Bit(SetBit(initSet, i), j) <==> j == i || Bit(initSet, j)
      {
        SetBitBits(initSet, i, j);
      }
      initSet := SetBit(initSet, i);
    }

    /** Overwrite a field; what was there is not dropped. */
    method WriteField(i: nat, v: nat)
      requires Valid() && i < inner.Length
      modifies this, inner
      ensures Valid() && Marked() == old(Marked()) + {i}
      ensures inner[..] == old(inner[..])[i := Some(v)]
    {
      inner[i] := Some(v);
      Mark(i);
    }

    /** Read or initialise a field. A failure leaves its storage in no particular state, and its
        mark unchanged; that is sound only for a field not marked yet. */
    method ReadField(i: nat, outcome: Option<nat>)
      requires Valid() && i < inner.Length && i !in Marked()
      modifies this, inner
      ensures Valid() && Marked() == old(Marked()) + (if outcome.Some? then {i} else {})
      ensures inner[..] == old(inner[..])[i := outcome]
    {
      inner[i] := outcome;
      if outcome.Some? {
        Mark(i);
      }
    }

    /** Write through the `MaybeUninit` projection, unseen by the builder. */
    method WriteUnmarked(i: nat, v: nat)
      requires Valid() && i < inner.Length
      modifies inner
      ensures Valid() && inner[..] == old(inner[..])[i := Some(v)]
    {
      inner[i] := Some(v);
    }

    /** Fully initialised exactly when every field is marked, also when there is a field for every
        bit of the set. */
    method IsInit() returns (b: bool)
      requires Valid()
      ensures b <==> Marked() == Below(inner.Length)
    {
      FullSet(initSet, inner.Length);
      b := initSet == FullMask(inner.Length, Width(inner.Length));
      if Marked() == Below(inner.Length) {
        forall i: nat | i < inner.Length
          ensures Bit(initSet, i)
        {
          assert i in Below(inner.Length);
        }
        assert AllBits(initSet, inner.Length);
      }
    }

    /** Dropping the builder drops exactly the marked fields, each once, last declared first. The
        fields are returned in the order they were dropped, beside their values. */
    method Drop() returns (drops: seq<nat>, order: seq<nat>)
      requires Valid()
      ensures forall j, k | 0 <= j < k < |order| :: order[j] > order[k]
      ensures forall i :: i in order <==> i in Marked()
      ensures |drops| == |order| && forall j | 0 <= j < |order| :: order[j] < inner.Length && inner[order[j]] == Some(drops[j])
    {
      drops, order := [], [];
      var i := inner.Length;
      while i > 0
        invariant 0 <= i <= inner.Length
        invariant forall j, k | 0 <= j < k < |order| :: order[j] > order[k]
        invariant forall x :: x in order <==> x in Marked() && x >= i
        invariant |drops| == |order| && forall j | 0 <= j < |order| :: order[j] < inner.Length && inner[order[j]] == Some(drops[j])
      {
        i := i - 1;
        if Bit(initSet, i) {
          assert forall j | 0 <= j < |order| :: order[j] in order;
          drops, order := drops + [inner[i].value], order + [i];
        }
      }
    }

    /** Forget the builder. The storage is the value once every field is marked. */
    method Finish()
      requires Valid()
      modifies `forgotten
      ensures Valid() && forgotten && Marked() == old(Marked())
      ensures Marked() == Below(inner.Length) ==> Present() == Marked()
    {
      forgotten := true;
    }

    /** The builder goes out of scope: it drops every marked field, or nothing once finished. */
    method EndScope() returns (drops: seq<nat>, order: seq<nat>)
      requires Valid()
      ensures forall j, k | 0 <= j < k < |order| :: order[j] > order[k]
      ensures forall i :: i in order <==> !forgotten && i in Marked()
      ensures |drops| == |order| && forall j | 0 <= j < |order| :: order[j] < inner.Length && inner[order[j]] == Some(drops[j])
    {
      if forgotten {
        return [], [];
      }
      drops, order := Drop();
    }
  }

  // Runs

  datatype Call =
    | Write(i: nat, v: nat)
    | Read(i: nat, outcome: Option<nat>)
    | Unmarked(i: nat, v: nat)
    | AssumeInit(i: nat)

  /** The fields marked and the fields present after a call. */
  function MarkedBy(m: set<nat>, c: Call): set<nat> {
    match c
    case Write(i, _) => m + {i}
    case Read(i, outcome) => if outcome.Some? then m + {i} else m
    case Unmarked(_, _) => m
    case AssumeInit(i) => m + {i}
  }

  function PresentBy(p: set<nat>, c: Call): set<nat> {
    match c
    case Write(i, _) => p + {i}
    case Read(i, outcome) => if outcome.Some? then p + {i} else p - {i}
    case Unmarked(i, _) => p + {i}
    case AssumeInit(_) => p
  }

  function MarkedAfter(m: set<nat>, calls: seq<Call>): set<nat>
    decreases calls
  {
    if calls == [] then m else MarkedAfter(MarkedBy(m, calls[0]), calls[1..])
  }

  /** No field is read again once marked, and what is assumed to be there is there. */
  predicate Legal(n: nat, m: set<nat>, p: set<nat>, calls: seq<Call>)
    decreases calls
  {
    calls == [] ||
    (&& calls[0].i < n
     && (calls[0].Read? ==> calls[0].i !in m)
     && (calls[0].AssumeInit? ==> calls[0].i in p)
     && Legal(n, MarkedBy(m, calls[0]), PresentBy(p, calls[0]), calls[1..]))
  }

  /** Runs are legal that read a field only if nothing was done to it before, and assume nothing. */
  lemma {:induction false} LegalWhenUntouched(n: nat, m: set<nat>, p: set<nat>, calls: seq<Call>)
    requires forall k | 0 <= k < |calls| :: calls[k].i < n && !calls[k].AssumeInit?
    requires forall k | 0 <= k < |calls| :: calls[k].Read? ==> calls[k].i !in m
    requires forall j, k | 0 <= j < k < |calls| :: calls[k].Read? ==> calls[j].i != calls[k].i
    ensures Legal(n, m, p, calls)
    decreases calls
  {
    if calls != [] {
      var rest := calls[1..];
      forall k | 0 <= k < |rest|
        ensures rest[k] == calls[k + 1]
        ensures rest[k].Read? ==> rest[k].i !in MarkedBy(m, calls[0])
      {
        assert calls[k + 1].Read? ==> calls[0].i != calls[k + 1].i;
      }
      LegalWhenUntouched(n, MarkedBy(m, calls[0]), PresentBy(p, calls[0]), rest);
    }
  }

  method Perform(b: Builder, c: Call)
    requires b.Valid() && c.i < b.inner.Length
    requires (c.Read? ==> c.i !in b.Marked()) && (c.AssumeInit? ==> c.i in b.Present())
    modifies b, b.inner
    ensures b.Valid() && b.Marked() == MarkedBy(old(b.Marked()), c) && b.Present() == PresentBy(old(b.Present()), c)
  {
    ghost var was := b.inner[..];
    match c
    case Write(i, v) => b.WriteField(i, v);
      assert b.inner[..] == was[i := Some(v)];
    case Read(i, outcome) => b.ReadField(i, outcome);
      assert b.inner[..] == was[i := outcome];
    case Unmarked(i, v) => b.WriteUnmarked(i, v);
      assert b.inner[..] == was[i := Some(v)];
    case AssumeInit(i) => b.Mark(i);
  }

  /** Over any legal run the builder tracks exactly the fields marked, all of them present. */
  method Run(b: Builder, calls: seq<Call>)
    requires b.Valid() && Legal(b.inner.Length, b.Marked(), b.Present(), calls)
    modifies b, b.inner
    ensures b.Valid() && b.Marked() == MarkedAfter(old(b.Marked()), calls)
  {
    ghost var m0 := b.Marked();
    for i := 0 to |calls|
      invariant b.Valid() && Legal(b.inner.Length, b.Marked(), b.Present(), calls[i..])
      invariant MarkedAfter(m0, calls) == MarkedAfter(b.Marked(), calls[i..])
    {
      assert calls[i..][0] == calls[i] && calls[i..][1..] == calls[i + 1..];
      Perform(b, calls[i]);
    }
  }
}
