/** Partial initialisation: which values a read has built and which it has dropped. Whether a leaf
    can be read, how long a sequence is and which variant comes next are left open, so that every
    statement is about every input. */
module DropGuards {
  import opened Prim
  import opened Schemas

  /** A value with an identity, and the values it owns. */
  datatype Obj = Obj(id: nat, parts: seq<Obj>)

  /** The order in which dropping a value drops it and its parts, in declaration order. */
  function Ids(x: Obj): seq<nat> { [x.id] + IdsAll(x.parts) }

  function IdsAll(xs: seq<Obj>): seq<nat> {
    if xs == [] then [] else Ids(xs[0]) + IdsAll(xs[1..])
  }

  /** The order in which a guard drops the values built so far: the last one first. */
  function Reversed(xs: seq<Obj>): seq<nat> {
    if xs == [] then [] else Ids(xs[|xs| - 1]) + Reversed(xs[..|xs| - 1])
  }

  lemma {:induction false} IdsAppend(xs: seq<Obj>, x: Obj)
    ensures IdsAll(xs + [x]) == IdsAll(xs) + Ids(x)
  {
    if xs == [] {
      assert [] + [x] == [x] && [x][1..] == [];
    } else {
      IdsAppend(xs[1..], x);
      assert (xs + [x])[1..] == xs[1..] + [x];
    }
  }

  lemma NoIds()
    ensures IdsAll([]) == Reversed([]) == []
  {}

  lemma IdsOfFew(x: Obj, y: Obj)
    ensures IdsAll([x]) == Ids(x)
    ensures IdsAll([x, y]) == Ids(x) + Ids(y)
  {
    assert IdsAll([x]) == Ids(x) + IdsAll([]);
    assert [x, y][1..] == [y];
    assert IdsAll([y]) == Ids(y) + IdsAll([]);
  }

  /** A guard drops exactly what a container of the same values would. */
  lemma {:induction false} ReversedSame(xs: seq<Obj>)
    ensures multiset(Reversed(xs)) == multiset(IdsAll(xs))
  {
    hide Ids, IdsAll;
    if xs == [] {
      NoIds();
    } else {
      var front, last := xs[..|xs| - 1], xs[|xs| - 1];
      ReversedSame(front);
      IdsAppend(front, last);
      assert xs == front + [last];
      SwapSame(Reversed(front), IdsAll(front), Ids(last));
    }
  }

  lemma SwapSame(a: seq<nat>, b: seq<nat>, c: seq<nat>)
    requires multiset(a) == multiset(b)
    ensures multiset(c + a) == multiset(b + c)
  {
    assert multiset(c + a) == multiset(c) + multiset(a) && multiset(b + c) == multiset(b) + multiset(c);
  }

  /** Each identity from `a` up to `b`, once. */
  function Once(a: nat, b: nat): multiset<nat> {
    if a >= b then multiset{} else Once(a, b - 1) + multiset{b - 1}
  }

  lemma {:induction false} OnceEach(a: nat, b: nat, i: nat)
    ensures Once(a, b)[i] == if a <= i < b then 1 else 0
    decreases b
  {
    if a < b {
      OnceEach(a, b - 1, i);
    }
  }

  lemma Associates(a: multiset<nat>, b: multiset<nat>, c: multiset<nat>)
    ensures a + (b + c) == a + b + c
  {}

  lemma {:induction false} OnceJoin(a: nat, b: nat, c: nat)
    requires a <= b <= c
    ensures Once(a, b) + Once(b, c) == Once(a, c)
    decreases c
  {
    if b < c {
      OnceJoin(a, b, c - 1);
      Associates(Once(a, b), Once(b, c - 1), multiset{c - 1});
    } else {
      assert Once(b, c) == multiset{};
    }
  }

  function Live(o: Option<Obj>): seq<nat> {
    match o
    case None => []
    case Some(x) => Ids(x)
  }

  /** Reading never discards a value it was able to read. */
  predicate Keeps(s: Schema)
    decreases s
  {
    match s
    case OptS(e, _) => Keeps(e)
    case ArrS(_, e) => Keeps(e)
    case SeqS(e, _, _, _) => Keeps(e)
    case StructS(_, fs) => KeepsFields(fs)
    case EnumS(_, vs, _) => KeepsVariants(vs)
    case BoxS(e) => Keeps(e)
    case MapS(_, _, _, _) => false
    case DefaultOnEmptyS(_, _) => false
    case DiscardS(_, _) => false
    case DiscardSeqS(_, _) => false
    case _ => true
  }

  predicate KeepsFields(fs: seq<Field>)
    decreases fs
  {
    fs == [] || (assert fs[0].schema < fs[0]; (fs[0].skip.Some? || Keeps(fs[0].schema)) && KeepsFields(fs[1..]))
  }

  predicate KeepsVariants(vs: seq<Variant>)
    decreases vs
  {
    vs == [] || (KeepsFields(vs[0].fields) && KeepsVariants(vs[1..]))
  }

  lemma {:induction false} KeepsField(fs: seq<Field>, i: nat)
    requires KeepsFields(fs) && i < |fs| && fs[i].skip.None?
    ensures Keeps(fs[i].schema)
  {
    if i > 0 {
      KeepsField(fs[1..], i - 1);
    }
  }

  lemma {:induction false} KeepsVariant(vs: seq<Variant>, i: nat)
    requires KeepsVariants(vs) && i < |vs|
    ensures KeepsFields(vs[i].fields)
  {
    if i > 0 {
      KeepsVariant(vs[1..], i - 1);
    }
  }

  /** Between two states of a ledger, every value built was either dropped or is one of `live`, and
      exactly once. */
  ghost predicate Account(live: seq<nat>, next0: nat, drops0: seq<nat>, next: nat, drops: seq<nat>) {
    next0 <= next && drops0 <= drops && multiset(drops[|drops0|..]) + multiset(live) == Once(next0, next)
  }

  lemma AccountOpen(next: nat, drops: seq<nat>)
    ensures Account([], next, drops, next, drops)
  {}

  lemma AccountThen(live: seq<nat>, more: seq<nat>, n0: nat, d0: seq<nat>, n1: nat, d1: seq<nat>, n: nat, d: seq<nat>)
    requires Account(live, n0, d0, n1, d1) && Account(more, n1, d1, n, d)
    ensures Account(live + more, n0, d0, n, d) && d0 <= d
  {
    hide Once;
    OnceJoin(n0, n1, n);
    AppendSums(d1[|d0|..], live, Once(n0, n1), d[|d1|..], more, Once(n1, n));
    assert d[|d0|..] == d1[|d0|..] + d[|d1|..];
  }

  lemma AppendSums(a: seq<nat>, b: seq<nat>, m: multiset<nat>, a': seq<nat>, b': seq<nat>, m': multiset<nat>)
    requires multiset(a) + multiset(b) == m && multiset(a') + multiset(b') == m'
    ensures multiset(a + a') + multiset(b + b') == m + m'
  {
    assert multiset(a + a') == multiset(a) + multiset(a') && multiset(b + b') == multiset(b) + multiset(b');
  }

  lemma AccountBuild(live: seq<nat>, parts: seq<Obj>, n0: nat, d0: seq<nat>, n: nat, d: seq<nat>)
    requires Account(live + IdsAll(parts), n0, d0, n, d)
    ensures Account(live + Ids(Obj(n, parts)), n0, d0, n + 1, d)
  {}

  lemma AccountDrop(live: seq<nat>, gone: seq<nat>, order: seq<nat>, n0: nat, d0: seq<nat>, n: nat, d: seq<nat>)
    requires Account(live + gone, n0, d0, n, d) && multiset(gone) == multiset(order)
    ensures Account(live, n0, d0, n, d + order)
  {
    assert (d + order)[|d0|..] == d[|d0|..] + order;
  }

  lemma AccountAs(live: seq<nat>, live': seq<nat>, n0: nat, d0: seq<nat>, n: nat, d: seq<nat>)
    requires Account(live, n0, d0, n, d) && multiset(live) == multiset(live')
    ensures Account(live', n0, d0, n, d)
  {}

  /** A value that is alive was built in between. */
  lemma AccountGrows(live: seq<nat>, n0: nat, d0: seq<nat>, n: nat, d: seq<nat>)
    requires Account(live, n0, d0, n, d)
    ensures |d| >= |d0| && (live != [] ==> n > n0)
  {
    if live != [] {
      EachOnce(live, n0, d0, n, d, live[0]);
      assert live[0] in multiset(live);
    }
  }

  /** In plain terms: a value built in between is dropped once if it is not alive, never if it is. */
  lemma EachOnce(live: seq<nat>, n0: nat, d0: seq<nat>, n: nat, d: seq<nat>, i: nat)
    requires Account(live, n0, d0, n, d)
    ensures multiset(d[|d0|..])[i] + multiset(live)[i] == if n0 <= i < n then 1 else 0
  {
    OnceEach(n0, n, i);
  }

  /** Counts the values built and lists the values dropped, in order. */
  class Ledger {
    var next: nat
    var drops: seq<nat>

    constructor ()
      ensures next == 0 && drops == []
    {
      next, drops := 0, [];
    }

    method Build(parts: seq<Obj>) returns (x: Obj)
      modifies this
      ensures x == Obj(old(next), parts) && next == old(next) + 1 && drops == old(drops)
    {
      x := Obj(next, parts);
      next := next + 1;
    }

    method Drop(x: Obj)
      modifies this
      ensures drops == old(drops) + Ids(x) && next == old(next)
    {
      drops := drops + Ids(x);
    }
  }

  function LiveAll(o: Option<seq<Obj>>): seq<nat> {
    match o
    case None => []
    case Some(xs) => IdsAll(xs)
  }

  // What a value of a schema owns

  /** The parts a value has once it is fully initialised: what is skipped, discarded or made up as a
      default is there, but owns nothing that was read. */
  ghost predicate Shaped(s: Schema, x: Obj)
    decreases s, 0
  {
    match s
    case OptS(e, _) => x.parts == [] || (|x.parts| == 1 && Shaped(e, x.parts[0]))
    case ArrS(n, e) => |x.parts| == n && ShapedAll(e, x.parts)
    case SeqS(e, _, _, _) => ShapedAll(e, x.parts)
    case MapS(p, _, _, _) => ShapedEntries(p, x.parts)
    case StructS(_, fs) => ShapedFields(fs, x.parts)
    case EnumS(_, vs, _) => exists k | 0 <= k < |vs| :: ShapedFields(vs[k].fields, x.parts)
    case BoxS(e) => |x.parts| == 1 && Shaped(e, x.parts[0])
    case DefaultOnEmptyS(e, _) => x.parts == [] || Shaped(e, x)
    case _ => x.parts == []
  }

  ghost predicate ShapedAll(e: Schema, xs: seq<Obj>)
    decreases e, 1
  {
    forall i | 0 <= i < |xs| :: Shaped(e, xs[i])
  }

  /** Keys and values in turn. */
  ghost predicate ShapedEntries(p: EntrySchema, xs: seq<Obj>)
    decreases p, 1
  {
    && |xs| % 2 == 0
    && forall i | 0 <= i < |xs| :: Shaped(if i % 2 == 0 then p.key else p.val, xs[i])
  }

  ghost predicate ShapedField(f: Field, x: Obj)
    decreases f, 1
  {
    if f.skip.Some? then x.parts == [] else Shaped(f.schema, x)
  }

  ghost predicate ShapedFields(fs: seq<Field>, xs: seq<Obj>)
    decreases fs, 1
  {
    |xs| == |fs| && forall i | 0 <= i < |fs| :: ShapedField(fs[i], xs[i])
  }

  // Guards

  /** The largest count the type of the counter can hold: the smallest of `u8`, `u16`, `u32` and
      `u64` that holds one less than the number of fields. The macro rejects structs with more. */
  function CounterMax(fields: nat): nat {
    if fields <= 0x100 then 0xFF
    else if fields <= 0x1_0000 then 0xFFFF
    else if fields <= 0x1_0000_0000 then 0xFFFF_FFFF
    else USIZE - 1
  }

  /** The counter type holds every index of a field, and no smaller one does. */
  lemma CounterFits(fields: nat, max: nat)
    requires Admitted(fields) && max in {0xFF, 0xFFFF, 0xFFFF_FFFF, 0xFFFF_FFFF_FFFF_FFFF}
    ensures CounterMax(fields) in {0xFF, 0xFFFF, 0xFFFF_FFFF, 0xFFFF_FFFF_FFFF_FFFF}
    ensures fields <= CounterMax(fields) + 1
    ensures fields <= max + 1 ==> CounterMax(fields) <= max
  {}

  predicate Admitted(fields: nat) { fields <= USIZE }

  /** The arm of a struct's or tuple's guard for `count` initialised fields; there is one for every
      count below the number of fields. */
  method DropFields(l: Ledger, slots: array<Option<Obj>>, count: nat, ghost built: seq<Obj>)
    requires count < slots.Length && |built| == count
    requires forall i | 0 <= i < count :: slots[i] == Some(built[i])
    modifies l
    ensures l.drops == old(l.drops) + Reversed(built) && l.next == old(l.next)
  {
    var i := count;
    assert built[..count] == built;
    while i > 0
      invariant 0 <= i <= count && l.next == old(l.next)
      invariant l.drops + Reversed(built[..i]) == old(l.drops) + Reversed(built)
    {
      i := i - 1;
      ghost var x, d := built[i], l.drops;
      assert built[..i + 1][..i] == built[..i];
      assert Reversed(built[..i + 1]) == Ids(x) + Reversed(built[..i]);
      l.Drop(slots[i].value);
      assert d + (Ids(x) + Reversed(built[..i])) == d + Ids(x) + Reversed(built[..i]);
    }
    assert l.drops + [] == l.drops;
  }

  /** A slice's guard drops the initialised elements first to last. */
  method DropSlice(l: Ledger, slots: array<Option<Obj>>, count: nat, ghost built: seq<Obj>)
    requires count <= slots.Length && |built| == count
    requires forall i | 0 <= i < count :: slots[i] == Some(built[i])
    modifies l
    ensures l.drops == old(l.drops) + IdsAll(built) && l.next == old(l.next)
  {
    assert built[0..] == built;
    for i := 0 to count
      invariant l.next == old(l.next)
      invariant l.drops + IdsAll(built[i..]) == old(l.drops) + IdsAll(built)
    {
      ghost var x, more, d := built[i], built[i + 1..], l.drops;
      assert built[i..][1..] == more;
      l.Drop(slots[i].value);
      assert d + (Ids(x) + IdsAll(more)) == d + Ids(x) + IdsAll(more);
    }
    assert l.drops + [] == l.drops;
  }

  // Reading

  /** What every read keeps: nothing built is lost or dropped twice, a failure leaves nothing
      alive, and a success drops nothing it was not told to discard. */
  ghost predicate Clean(live: seq<nat>, ok: bool, keeps: bool, n0: nat, d0: seq<nat>, n: nat, d: seq<nat>) {
    && Account(if ok then live else [], n0, d0, n, d)
    && (ok && keeps ==> d == d0)
  }

  method ReadLeaf(l: Ledger) returns (o: Option<Obj>)
    modifies l
    ensures Clean(Live(o), o.Some?, true, old(l.next), old(l.drops), l.next, l.drops)
    ensures o.Some? ==> o.value.parts == []
  {
    hide Account, Once;
    AccountOpen(l.next, l.drops);
    var enough, accepted := *, *;
    if !enough {
      return None;
    }
    AccountBuild([], [], l.next, l.drops, l.next, l.drops);
    ghost var n0, d0 := l.next, l.drops;
    var x := l.Build([]);
    assert [] + Ids(x) == Ids(x);
    if !accepted {
      AccountDrop([], Ids(x), Ids(x), n0, d0, l.next, l.drops);
      l.Drop(x);
      return None;
    }
    return Some(x);
  }

  /** Complete a value from its parts. */
  method Complete(l: Ledger, parts: seq<Obj>, ghost n0: nat, ghost d0: seq<nat>) returns (x: Obj)
    requires Account(IdsAll(parts), n0, d0, l.next, l.drops)
    modifies l
    ensures Account(Ids(x), n0, d0, l.next, l.drops) && x == Obj(old(l.next), parts)
    ensures l.next == old(l.next) + 1 && l.drops == old(l.drops)
  {
    hide Account, Once;
    assert [] + IdsAll(parts) == IdsAll(parts);
    AccountBuild([], parts, n0, d0, l.next, l.drops);
    x := l.Build(parts);
    assert [] + Ids(x) == Ids(x);
  }

  method Discard(l: Ledger, x: Obj, ghost live: seq<nat>, ghost n0: nat, ghost d0: seq<nat>)
    requires Account(live + Ids(x), n0, d0, l.next, l.drops)
    modifies l
    ensures Account(live, n0, d0, l.next, l.drops) && l.drops == old(l.drops) + Ids(x) && l.next == old(l.next)
  {
    hide Account, Once;
    AccountDrop(live, Ids(x), Ids(x), n0, d0, l.next, l.drops);
    l.Drop(x);
  }

  /** Read any schema: on failure every value built is dropped exactly once, on success none is
      except those the schema discards. */
  method ReadObj(l: Ledger, s: Schema) returns (o: Option<Obj>)
    modifies l
    ensures Clean(Live(o), o.Some?, Keeps(s), old(l.next), old(l.drops), l.next, l.drops)
    ensures o.Some? ==> Shaped(s, o.value)
    decreases s, 0, 0
  {
    hide Account, Once;
    match s
    case OptS(e, _) =>
      var tag: nat :| true;
      o := ReadOption(l, e, tag);
    case ArrS(n, e) => o := ReadArray(l, e, n);
    case SeqS(e, _, _, _) =>
      var n: nat :| true;
      o := ReadVec(l, e, n);
    case MapS(p, _, _, _) =>
      var n: nat :| true;
      o := ReadMap(l, p, n);
    case StructS(_, fs) =>
      o := ReadStruct(l, fs);
    case EnumS(_, vs, _) =>
      var k: nat :| true;
      o := ReadEnum(l, vs, k);
    case BoxS(e) => o := ReadBox(l, e);
    case DefaultOnEmptyS(e, _) => o := ReadDefault(l, e);
    case DiscardS(e, _) => o := ReadDiscard(l, e);
    case DiscardSeqS(e, _) =>
      var n: nat :| true;
      o := ReadDiscardSeq(l, e, n);
    case _ => o := ReadLeaf(l);
  }

  /** The byte read first decides: 0 is `None`, 1 is followed by the value, any other is refused. */
  method ReadOption(l: Ledger, e: Schema, tag: nat) returns (o: Option<Obj>)
    modifies l
    ensures Clean(Live(o), o.Some?, Keeps(e), old(l.next), old(l.drops), l.next, l.drops)
    ensures tag == 0 ==> o.Some? && o.value.parts == []
    ensures tag == 1 && o.Some? ==> |o.value.parts| == 1 && Shaped(e, o.value.parts[0])
    ensures tag > 1 ==> o.None?
    decreases e, 5, 0
  {
    hide Account, Once;
    AccountOpen(l.next, l.drops);
    if tag > 1 {
      return None;
    } else if tag == 0 {
      var x := Complete(l, [], l.next, l.drops);
      return Some(x);
    }
    ghost var n0, d0 := l.next, l.drops;
    var inner := ReadObj(l, e);
    if inner.None? {
      return None;
    }
    IdsOfFew(inner.value, inner.value);
    var x := Complete(l, [inner.value], n0, d0);
    return Some(x);
  }

  /** The memory of a box is freed by its guard, or becomes the box. */
  method ReadBox(l: Ledger, e: Schema) returns (o: Option<Obj>)
    modifies l
    ensures Clean(Live(o), o.Some?, Keeps(e), old(l.next), old(l.drops), l.next, l.drops)
    ensures o.Some? ==> |o.value.parts| == 1 && Shaped(e, o.value.parts[0])
    decreases e, 5, 0
  {
    hide Account, Once;
    ghost var n0, d0 := l.next, l.drops;
    AccountOpen(l.next, l.drops);
    var mem := Complete(l, [], n0, d0);
    ghost var n1, d1 := l.next, l.drops;
    var inner := ReadObj(l, e);
    AccountThen(Ids(mem), Live(inner), n0, d0, n1, d1, l.next, l.drops);
    if inner.None? {
      assert Ids(mem) + [] == [] + Ids(mem);
      Discard(l, mem, [], n0, d0);
      return None;
    }
    IdsOfFew(inner.value, inner.value);
    var x := Adopt(mem, [inner.value]);
    AccountAs(Ids(mem) + Live(inner), Ids(x), n0, d0, l.next, l.drops);
    return Some(x);
  }

  /** Reserved memory turns into a value once its parts are initialised. */
  function Adopt(mem: Obj, parts: seq<Obj>): (x: Obj)
    requires mem.parts == []
    ensures multiset(Ids(x)) == multiset(Ids(mem) + IdsAll(parts))
  {
    Obj(mem.id, parts)
  }

  method ReadArray(l: Ledger, e: Schema, n: nat) returns (o: Option<Obj>)
    modifies l
    ensures Clean(Live(o), o.Some?, Keeps(e), old(l.next), old(l.drops), l.next, l.drops)
    ensures o.Some? ==> |o.value.parts| == n && ShapedAll(e, o.value.parts)
    decreases e, 5, 0
  {
    hide Account, Once;
    ghost var n0, d0 := l.next, l.drops;
    var elems := ReadElems(l, e, n);
    if elems.None? {
      return None;
    }
    var x := Complete(l, elems.value, n0, d0);
    return Some(x);
  }

  /** A vector owns its reserved buffer from the start and its elements only at the end. */
  method ReadVec(l: Ledger, e: Schema, n: nat) returns (o: Option<Obj>)
    modifies l
    ensures Clean(Live(o), o.Some?, Keeps(e), old(l.next), old(l.drops), l.next, l.drops)
    ensures o.Some? ==> |o.value.parts| == n && ShapedAll(e, o.value.parts)
    decreases e, 5, 0
  {
    hide Account, Once;
    AccountOpen(l.next, l.drops);
    var accepted := *;
    if !accepted {
      return None;
    }
    ghost var n0, d0 := l.next, l.drops;
    var buffer := Complete(l, [], n0, d0);
    ghost var n1, d1 := l.next, l.drops;
    var elems := ReadElems(l, e, n);
    AccountThen(Ids(buffer), LiveAll(elems), n0, d0, n1, d1, l.next, l.drops);
    if elems.None? {
      assert Ids(buffer) + [] == [] + Ids(buffer);
      Discard(l, buffer, [], n0, d0);
      return None;
    }
    var x := Adopt(buffer, elems.value);
    AccountAs(Ids(buffer) + LiveAll(elems), Ids(x), n0, d0, l.next, l.drops);
    return Some(x);
  }

  /** Fill `n` slots in bulk, or one by one under the slice guard. */
  method ReadElems(l: Ledger, e: Schema, n: nat) returns (o: Option<seq<Obj>>)
    modifies l
    ensures Clean(LiveAll(o), o.Some?, Keeps(e), old(l.next), old(l.drops), l.next, l.drops)
    ensures o.Some? ==> |o.value| == n && ShapedAll(e, o.value)
    decreases e, 4, n
  {
    hide Account, Once;
    AccountOpen(l.next, l.drops);
    var bulk, enough := *, *;
    if !enough {
      return None;
    } else if bulk && Copyable(e) {
      var xs := BulkElems(l, e, n);
      o := Some(xs);
    } else {
      o := FillElems(l, e, n);
    }
  }

  /** What can be copied in bulk: integers, and arrays and structs of nothing else. */
  predicate Copyable(s: Schema)
    decreases s
  {
    match s
    case IntS(_) => true
    case ArrS(_, e) => Copyable(e)
    case StructS(_, fs) => CopyableFields(fs)
    case _ => false
  }

  predicate CopyableFields(fs: seq<Field>)
    decreases fs
  {
    fs == [] || (assert fs[0].schema < fs[0]; (fs[0].skip.Some? || Copyable(fs[0].schema)) && CopyableFields(fs[1..]))
  }

  lemma {:induction false} CopyableField(fs: seq<Field>, i: nat)
    requires CopyableFields(fs) && i < |fs| && fs[i].skip.None?
    ensures Copyable(fs[i].schema)
  {
    if i > 0 {
      CopyableField(fs[1..], i - 1);
    }
  }

  /** The values that come into being where bytes are copied. */
  method CopyObj(l: Ledger, s: Schema) returns (x: Obj)
    requires Copyable(s)
    modifies l
    ensures Clean(Ids(x), true, true, old(l.next), old(l.drops), l.next, l.drops) && Shaped(s, x)
    decreases s, 0, 0
  {
    hide Account, Once;
    ghost var n0, d0 := l.next, l.drops;
    AccountOpen(n0, d0);
    var parts: seq<Obj> := [];
    match s {
      case ArrS(n, e) => parts := BulkElems(l, e, n);
      case StructS(_, fs) => parts := CopyFields(l, fs);
      case _ =>
    }
    x := Complete(l, parts, n0, d0);
  }

  method CopyFields(l: Ledger, fs: seq<Field>) returns (xs: seq<Obj>)
    requires CopyableFields(fs)
    modifies l
    ensures Clean(IdsAll(xs), true, true, old(l.next), old(l.drops), l.next, l.drops) && ShapedFields(fs, xs)
    decreases fs, 1, 0
  {
    hide Account, Once, Ids, IdsAll;
    NoIds();
    ghost var n0, d0 := l.next, l.drops;
    xs := [];
    AccountOpen(n0, d0);
    for i := 0 to |fs|
      invariant |xs| == i && forall k | 0 <= k < i :: ShapedField(fs[k], xs[k])
      invariant Clean(IdsAll(xs), true, true, n0, d0, l.next, l.drops)
    {
      ghost var n1, d1 := l.next, l.drops;
      var x: Obj;
      if fs[i].skip.Some? {
        AccountOpen(n1, d1);
        x := Complete(l, [], n1, d1);
      } else {
        assert fs[i] in fs && fs[i].schema < fs[i];
        CopyableField(fs, i);
        x := CopyObj(l, fs[i].schema);
      }
      AccountThen(IdsAll(xs), Ids(x), n0, d0, n1, d1, l.next, l.drops);
      IdsAppend(xs, x);
      xs := xs + [x];
    }
  }

  method BulkElems(l: Ledger, e: Schema, n: nat) returns (xs: seq<Obj>)
    requires Copyable(e)
    modifies l
    ensures Clean(IdsAll(xs), true, true, old(l.next), old(l.drops), l.next, l.drops)
    ensures |xs| == n && ShapedAll(e, xs)
    decreases e, 3, n
  {
    hide Account, Once, Ids, IdsAll;
    NoIds();
    ghost var n0, d0 := l.next, l.drops;
    xs := [];
    AccountOpen(n0, d0);
    for i := 0 to n
      invariant |xs| == i && ShapedAll(e, xs) && Clean(IdsAll(xs), true, true, n0, d0, l.next, l.drops)
    {
      ghost var n1, d1 := l.next, l.drops;
      var x := CopyObj(l, e);
      AccountThen(IdsAll(xs), Ids(x), n0, d0, n1, d1, l.next, l.drops);
      IdsAppend(xs, x);
      xs := xs + [x];
    }
  }

  method FillElems(l: Ledger, e: Schema, n: nat) returns (o: Option<seq<Obj>>)
    modifies l
    ensures Clean(LiveAll(o), o.Some?, Keeps(e), old(l.next), old(l.drops), l.next, l.drops)
    ensures o.Some? ==> |o.value| == n && ShapedAll(e, o.value)
    decreases e, 3, n
  {
    hide Account, Once, Ids, IdsAll, Shaped, Reversed, Keeps;
    NoIds();
    ghost var n0, d0 := l.next, l.drops;
    var slots := new Option<Obj>[n](_ => None);
    var initializedLen := 0;
    ghost var built: seq<Obj> := [];
    AccountOpen(n0, d0);
    for i := 0 to n
      invariant initializedLen == i == |built|
      invariant forall k | 0 <= k < i :: slots[k] == Some(built[k])
      invariant ShapedAll(e, built)
      invariant Clean(IdsAll(built), true, Keeps(e), n0, d0, l.next, l.drops)
    {
      ghost var n1, d1 := l.next, l.drops;
      var x := ReadObj(l, e);
      AccountThen(IdsAll(built), Live(x), n0, d0, n1, d1, l.next, l.drops);
      if x.None? {
        assert IdsAll(built) + [] == [] + IdsAll(built);
        AccountDrop([], IdsAll(built), IdsAll(built), n0, d0, l.next, l.drops);
        DropSlice(l, slots, initializedLen, built);
        return None;
      }
      slots[i] := x;
      IdsAppend(built, x.value);
      built := built + [x.value];
      initializedLen := initializedLen + 1;
    }
    var xs := seq(n, i requires 0 <= i < n reads slots requires slots[i].Some? => slots[i].value);
    assert xs == built;
    return Some(xs);
  }

  method ReadStruct(l: Ledger, fs: seq<Field>) returns (o: Option<Obj>)
    modifies l
    ensures Clean(Live(o), o.Some?, KeepsFields(fs), old(l.next), old(l.drops), l.next, l.drops)
    ensures o.Some? ==> ShapedFields(fs, o.value.parts)
    decreases fs, 5, 0
  {
    hide Account, Once;
    ghost var n0, d0 := l.next, l.drops;
    AccountOpen(n0, d0);
    var enough := *;
    if !enough {
      return None;
    }
    var dst := new Option<Obj>[|fs|](_ => None);
    ghost var built, inner;
    var ok;
    ok, built, inner := ReadInPlace(l, fs, dst);
    if !ok {
      return None;
    }
    var parts := seq(|fs|, i requires 0 <= i < |fs| reads dst requires dst[i].Some? => dst[i].value);
    assert parts == built;
    var x := Complete(l, parts, n0, d0);
    return Some(x);
  }

  /** Read fields in place. A failure first drops what the failing field had built, then the
      fields it left initialised in `dst`, the last one first; for no number of fields the
      macro admits does the counter overflow its type, and the guard always has an arm for it. */
  method ReadInPlace(l: Ledger, fs: seq<Field>, dst: array<Option<Obj>>) returns (ok: bool, ghost built: seq<Obj>, ghost inner: seq<nat>)
    requires dst.Length == |fs| && forall i | 0 <= i < |fs| :: dst[i].None?
    modifies l, dst
    ensures Clean(IdsAll(built), ok, KeepsFields(fs), old(l.next), old(l.drops), l.next, l.drops)
    ensures ok ==> ShapedFields(fs, built)
    ensures |built| <= |fs| && forall i | 0 <= i < |fs| :: dst[i] == if i < |built| then Some(built[i]) else None
    ensures !ok ==> l.drops == old(l.drops) + inner + Reversed(built)
    decreases fs, 4, 0
  {
    hide Account, Once, Ids, IdsAll, Reversed;
    NoIds();
    ghost var n0, d0 := l.next, l.drops;
    AccountOpen(n0, d0);
    built, inner := [], [];
    var initCount := 0;
    for i := 0 to |fs|
      invariant |built| == i && initCount == if i == |fs| && i > 0 then i - 1 else i
      invariant forall k | 0 <= k < |fs| :: dst[k] == if k < i then Some(built[k]) else None
      invariant forall k | 0 <= k < i :: ShapedField(fs[k], built[k])
      invariant Clean(IdsAll(built), true, KeepsFields(fs), n0, d0, l.next, l.drops)
    {
      ghost var n1, d1 := l.next, l.drops;
      var x := ReadField(l, fs, i);
      AccountThen(IdsAll(built), Live(x), n0, d0, n1, d1, l.next, l.drops);
      if x.None? {
        assert IdsAll(built) + [] == [] + IdsAll(built);
        ReversedSame(built);
        AccountDrop([], IdsAll(built), Reversed(built), n0, d0, l.next, l.drops);
        inner := l.drops[|d0|..];
        DropFields(l, dst, initCount, built);
        return false, built, inner;
      }
      dst[i] := x;
      IdsAppend(built, x.value);
      built := built + [x.value];
      if i != |fs| - 1 {
        assert Admitted(|fs|) ==> initCount < CounterMax(|fs|);
        initCount := initCount + 1;
      }
    }
    return true, built, inner;
  }

  /** A skipped field is built from its default without reading. */
  method ReadField(l: Ledger, fs: seq<Field>, i: nat) returns (o: Option<Obj>)
    requires i < |fs|
    modifies l
    ensures Clean(Live(o), o.Some?, KeepsFields(fs), old(l.next), old(l.drops), l.next, l.drops)
    ensures o.Some? ==> ShapedField(fs[i], o.value)
    decreases fs, 0, 0
  {
    hide Account, Once;
    if fs[i].skip.Some? {
      AccountOpen(l.next, l.drops);
      var x := Complete(l, [], l.next, l.drops);
      return Some(x);
    }
    assert fs[i] in fs && fs[i].schema < fs[i];
    if KeepsFields(fs) {
      KeepsField(fs, i);
    }
    o := ReadObj(l, fs[i].schema);
  }

  /** The fields of a variant are read into locals, dropped in reverse when one of them fails. */
  method ReadEnum(l: Ledger, vs: seq<Variant>, k: nat) returns (o: Option<Obj>)
    modifies l
    ensures Clean(Live(o), o.Some?, KeepsVariants(vs), old(l.next), old(l.drops), l.next, l.drops)
    ensures o.Some? ==> k < |vs| && ShapedFields(vs[k].fields, o.value.parts)
    decreases vs, 5, 0
  {
    hide Account, Once;
    AccountOpen(l.next, l.drops);
    ghost var n0, d0 := l.next, l.drops;
    var accepted := *;
    if k >= |vs| || !accepted {
      return None;
    }
    if KeepsVariants(vs) {
      KeepsVariant(vs, k);
    }
    var fields := ReadLocals(l, vs[k].fields, 0);
    if fields.None? {
      return None;
    }
    var x := Complete(l, fields.value, n0, d0);
    return Some(x);
  }

  method ReadLocals(l: Ledger, fs: seq<Field>, i: nat) returns (o: Option<seq<Obj>>)
    requires i <= |fs|
    modifies l
    ensures Clean(LiveAll(o), o.Some?, KeepsFields(fs), old(l.next), old(l.drops), l.next, l.drops)
    ensures o.Some? ==> |o.value| == |fs| - i && forall j | i <= j < |fs| :: ShapedField(fs[j], o.value[j - i])
    decreases fs, 4, |fs| - i
  {
    hide Account, Once;
    ghost var n0, d0 := l.next, l.drops;
    if i == |fs| {
      AccountOpen(n0, d0);
      return Some([]);
    }
    var x := ReadField(l, fs, i);
    if x.None? {
      return None;
    }
    ghost var n1, d1 := l.next, l.drops;
    var xs := ReadLocals(l, fs, i + 1);
    AccountThen(Ids(x.value), LiveAll(xs), n0, d0, n1, d1, l.next, l.drops);
    if xs.None? {
      assert Ids(x.value) + [] == [] + Ids(x.value);
      Discard(l, x.value, [], n0, d0);
      return None;
    }
    assert ([x.value] + xs.value)[1..] == xs.value;
    return Some([x.value] + xs.value);
  }

  method ReadDefault(l: Ledger, e: Schema) returns (o: Option<Obj>)
    modifies l
    ensures Clean(Live(o), o.Some?, false, old(l.next), old(l.drops), l.next, l.drops)
    ensures o.Some? ==> o.value.parts == [] || Shaped(e, o.value)
    decreases e, 5, 0
  {
    hide Account, Once;
    ghost var n0, d0 := l.next, l.drops;
    o := ReadObj(l, e);
    var sizeLimit := *;
    if o.None? && sizeLimit {
      var x := Complete(l, [], n0, d0);
      return Some(x);
    }
  }

  method ReadDiscard(l: Ledger, e: Schema) returns (o: Option<Obj>)
    modifies l
    ensures Clean(Live(o), o.Some?, false, old(l.next), old(l.drops), l.next, l.drops)
    ensures o.Some? ==> o.value.parts == []
    decreases e, 5, 0
  {
    hide Account, Once;
    ghost var n0, d0 := l.next, l.drops;
    var x := ReadObj(l, e);
    if x.None? {
      return None;
    }
    assert [] + Ids(x.value) == Ids(x.value);
    Discard(l, x.value, [], n0, d0);
    var y := Complete(l, [], n0, d0);
    return Some(y);
  }

  /** Every element is built, and dropped before the next one is read. */
  method ReadDiscardSeq(l: Ledger, e: Schema, n: nat) returns (o: Option<Obj>)
    modifies l
    ensures Clean(Live(o), o.Some?, false, old(l.next), old(l.drops), l.next, l.drops)
    ensures o.Some? ==> o.value.parts == [] && l.next >= old(l.next) + n && |l.drops| >= |old(l.drops)| + n
    decreases e, 5, 0
  {
    hide Account, Once;
    ghost var n0, d0 := l.next, l.drops;
    AccountOpen(n0, d0);
    var accepted := *;
    if !accepted {
      return None;
    }
    for i := 0 to n
      invariant Account([], n0, d0, l.next, l.drops)
      invariant l.next >= n0 + i && |l.drops| >= |d0| + i
    {
      ghost var n1, d1 := l.next, l.drops;
      var x := ReadObj(l, e);
      AccountGrows(Live(x), n1, d1, l.next, l.drops);
      AccountThen([], Live(x), n0, d0, n1, d1, l.next, l.drops);
      assert [] + Live(x) == Live(x);
      if x.None? {
        return None;
      }
      Discard(l, x.value, [], n0, d0);
    }
    var y := Complete(l, [], n0, d0);
    return Some(y);
  }

  lemma Shuffle(a: multiset<nat>, b: multiset<nat>, c: multiset<nat>, d: multiset<nat>, e: multiset<nat>)
    requires b + c == d + e
    ensures (a + b) + c == (a + d) + e
  {
    assert (a + b) + c == a + (b + c) == a + (d + e);
  }

  lemma {:induction false} IdsReplace(xs: seq<Obj>, i: nat, x: Obj)
    requires i < |xs|
    ensures multiset(IdsAll(xs[i := x])) + multiset(Ids(xs[i])) == multiset(IdsAll(xs)) + multiset(Ids(x))
  {
    hide Ids, IdsAll;
    var ys, h := xs[i := x], multiset(Ids(xs[0]));
    var t, t' := multiset(IdsAll(xs[1..])), multiset(IdsAll(ys[1..]));
    IdsHead(xs);
    IdsHead(ys);
    if i > 0 {
      IdsReplace(xs[1..], i - 1, x);
      assert ys[1..] == xs[1..][i - 1 := x];
      Shuffle(h, t', multiset(Ids(xs[i])), t, multiset(Ids(x)));
    } else {
      assert ys[1..] == xs[1..];
      Swap(multiset(Ids(x)), t, h);
    }
  }

  lemma Swap(a: multiset<nat>, b: multiset<nat>, c: multiset<nat>)
    ensures (a + b) + c == (c + b) + a
  {}

  lemma IdsHead(xs: seq<Obj>)
    requires xs != []
    ensures multiset(IdsAll(xs)) == multiset(Ids(xs[0])) + multiset(IdsAll(xs[1..]))
  {
    hide Ids;
  }

  /** Entries are inserted as they come. An equal key keeps its place: the new key and the value
      it replaces are dropped. */
  method ReadMap(l: Ledger, p: EntrySchema, n: nat) returns (o: Option<Obj>)
    modifies l
    ensures Clean(Live(o), o.Some?, false, old(l.next), old(l.drops), l.next, l.drops)
    ensures o.Some? ==> ShapedEntries(p, o.value.parts) && |o.value.parts| <= 2 * n && (n > 0 ==> o.value.parts != [])
    decreases p, 5, 0
  {
    hide Account, Once;
    ghost var n0, d0 := l.next, l.drops;
    AccountOpen(n0, d0);
    var accepted := *;
    if !accepted {
      return None;
    }
    var map_ := Complete(l, [], n0, d0);
    for i := 0 to n
      invariant Account(Ids(map_), n0, d0, l.next, l.drops) && ShapedEntries(p, map_.parts)
      invariant |map_.parts| <= 2 * i && (i > 0 ==> map_.parts != [])
    {
      ghost var n1, d1 := l.next, l.drops;
      var e := ReadEntry(l, p);
      AccountThen(Ids(map_), LiveAll(e), n0, d0, n1, d1, l.next, l.drops);
      if e.None? {
        assert Ids(map_) + [] == [] + Ids(map_);
        Discard(l, map_, [], n0, d0);
        return None;
      }
      assert e.value == [e.value[0], e.value[1]];
      var at: Option<nat> :| at.Some? ==> at.value < |map_.parts| / 2;
      map_ := InsertEntry(l, p, map_, at, e.value[0], e.value[1], n0, d0);
    }
    return Some(map_);
  }

  method ReadEntry(l: Ledger, p: EntrySchema) returns (o: Option<seq<Obj>>)
    modifies l
    ensures Clean(LiveAll(o), o.Some?, false, old(l.next), old(l.drops), l.next, l.drops)
    ensures o.Some? ==> |o.value| == 2 && Shaped(p.key, o.value[0]) && Shaped(p.val, o.value[1])
    decreases p, 4, 0
  {
    hide Account, Once;
    ghost var n0, d0 := l.next, l.drops;
    var k := ReadObj(l, p.key);
    if k.None? {
      return None;
    }
    ghost var n1, d1 := l.next, l.drops;
    var v := ReadObj(l, p.val);
    AccountThen(Ids(k.value), Live(v), n0, d0, n1, d1, l.next, l.drops);
    if v.None? {
      assert Ids(k.value) + [] == [] + Ids(k.value);
      Discard(l, k.value, [], n0, d0);
      return None;
    }
    IdsOfFew(k.value, v.value);
    return Some([k.value, v.value]);
  }

  lemma ReplaceEntry(m: Obj, j: nat, k: Obj, v: Obj)
    requires j < |m.parts|
    ensures multiset(Ids(m) + IdsAll([k, v])) == multiset(Ids(Obj(m.id, m.parts[j := v])) + Ids(m.parts[j]) + Ids(k))
  {
    hide IdsAll;
    IdsOfFew(k, v);
    IdsReplace(m.parts, j, v);
    var i, ks := multiset([m.id]), multiset(Ids(k));
    var p, p' := multiset(IdsAll(m.parts)), multiset(IdsAll(m.parts[j := v]));
    var x, vs := multiset(Ids(m.parts[j])), multiset(Ids(v));
    assert (i + p) + (ks + vs) == i + ks + (p + vs);
    assert ((i + p') + x) + ks == i + ks + (p' + x);
  }

  lemma Regroup(a: seq<nat>, b: seq<nat>, c: seq<nat>, d: seq<nat>)
    ensures a + ((b + c) + d) == (a + b) + (c + d)
  {}

  lemma AddEntry(m: Obj, k: Obj, v: Obj)
    ensures Ids(Obj(m.id, m.parts + [k] + [v])) == Ids(m) + IdsAll([k, v])
  {
    hide IdsAll;
    IdsOfFew(k, v);
    IdsAppend(m.parts, k);
    IdsAppend(m.parts + [k], v);
    Regroup([m.id], IdsAll(m.parts), Ids(k), Ids(v));
  }

  /** `at` is the entry with an equal key, if there is one. */
  method InsertEntry(l: Ledger, p: EntrySchema, m: Obj, at: Option<nat>, k: Obj, v: Obj, ghost n0: nat, ghost d0: seq<nat>) returns (m': Obj)
    requires Account(Ids(m) + IdsAll([k, v]), n0, d0, l.next, l.drops)
    requires ShapedEntries(p, m.parts) && Shaped(p.key, k) && Shaped(p.val, v)
    requires at.Some? ==> at.value < |m.parts| / 2
    modifies l
    ensures Account(Ids(m'), n0, d0, l.next, l.drops) && ShapedEntries(p, m'.parts)
    ensures at.None? ==> m'.parts == m.parts + [k, v] && l.drops == old(l.drops)
    ensures at.Some? ==> m'.parts == m.parts[2 * at.value + 1 := v] && l.drops == old(l.drops) + Ids(k) + Ids(m.parts[2 * at.value + 1])
  {
    hide Account, Once;
    hide Ids, IdsAll, Shaped;
    if at.Some? {
      var j := 2 * at.value + 1;
      m' := Obj(m.id, m.parts[j := v]);
      ReplaceEntry(m, j, k, v);
      AccountAs(Ids(m) + IdsAll([k, v]), Ids(m') + Ids(m.parts[j]) + Ids(k), n0, d0, l.next, l.drops);
      Discard(l, k, Ids(m') + Ids(m.parts[j]), n0, d0);
      Discard(l, m.parts[j], Ids(m'), n0, d0);
    } else {
      m' := Obj(m.id, m.parts + [k] + [v]);
      AddEntry(m, k, v);
    }
  }
}
