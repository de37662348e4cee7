/** A cursor over a growable vector: writes overwrite at the position, gaps are filled with zeros,
    and the vector's length is moved over memory that may not be initialised. */
module Cursors {
  import opened Prim
  import opened Writers

  function Zeros(n: nat): (b: bytes)
    ensures |b| == n
  {
    seq(n, _ => 0)
  }

  /** Old bytes, zeros in any gap, then the written bytes, then old bytes again. */
  function Overlay(old_: bytes, pos: nat, src: bytes): (b: bytes) {
    (if pos <= |old_| then old_[..pos] else old_ + Zeros(pos - |old_|))
    + src
    + (if pos + |src| < |old_| then old_[pos + |src|..] else [])
  }

  /** The same, byte by byte. */
  lemma OverlayBytes(c: bytes, pos: nat, src: bytes, i: nat)
    requires i < |Overlay(c, pos, src)|
    ensures |Overlay(c, pos, src)| == if pos + |src| < |c| then |c| else pos + |src|
    ensures Overlay(c, pos, src)[i]
            == if pos <= i < pos + |src| then src[i - pos] else if i < |c| then c[i] else 0
  {}

  /** Writing in chunks is writing at once. */
  lemma OverlayChunks(c: bytes, pos: nat, a: bytes, b: bytes)
    ensures Overlay(Overlay(c, pos, a), pos + |a|, b) == Overlay(c, pos, a + b)
  {
    var x, y := Overlay(Overlay(c, pos, a), pos + |a|, b), Overlay(c, pos, a + b);
    forall i | 0 <= i < |x|
      ensures i < |y| && x[i] == y[i]
    {
      OverlayBytes(Overlay(c, pos, a), pos + |a|, b, i);
      OverlayBytes(c, pos, a + b, i);
      if i < |Overlay(c, pos, a)| {
        OverlayBytes(c, pos, a, i);
      }
    }
  }

  class Cursor {
    var mem: array<Slot>
    var len: nat
    var pos: nat
    /** Where the trusted window handed out last ends, until the cursor is used again. */
    ghost var window: Option<nat>

    /** The length covers initialised bytes only; so does any gap in front of an open window. */
    ghost predicate Valid()
      reads this, mem
    {
      && len <= mem.Length
      && (forall i | 0 <= i < len :: mem[i].Some?)
      && (window.Some? ==> pos <= window.value <= mem.Length && forall i | len <= i < pos :: mem[i] == Some(0))
    }

    /** What the vector holds. */
    ghost function Contents(): (b: bytes)
      requires Valid()
      reads this, mem
      ensures Filled(b) == mem[..len]
    {
      BytesOf(mem[..len])
    }

    constructor (mem: array<Slot>, len: nat, pos: nat)
      requires len <= mem.Length && forall i | 0 <= i < len :: mem[i].Some?
      ensures Valid() && this.mem == mem && this.len == len && this.pos == pos && window.None?
    {
      this.mem, this.len, this.pos, window := mem, len, pos, None;
    }

    method SetPosition(p: nat)
      requires Valid()
      modifies this
      ensures Valid() && mem == old(mem) && Contents() == old(Contents()) && pos == p && window.None?
    {
      pos, window := p, None;
    }

    /** Reallocate for `required` bytes or more. Only the bytes within the length survive. */
    method Grow(required: nat)
      requires Valid() && required > mem.Length
      modifies this
      ensures Valid() && fresh(mem) && required <= mem.Length
      ensures Contents() == old(Contents()) && pos == old(pos) && window.None?
    {
      var extra: nat :| true;
      var bigger := new Slot[required + extra](_ => None);
      forall i | 0 <= i < len {
        bigger[i] := mem[i];
      }
      mem, window := bigger, None;
      assert mem[..len] == old(mem[..len]);
    }

    method MaybeGrow(needed: nat) returns (o: Written<()>)
      requires Valid()
      modifies this
      ensures Valid() && (mem == old(mem) || fresh(mem))
      ensures Contents() == old(Contents()) && pos == old(pos) && window.None?
      ensures if pos + needed < USIZE then o.Wrote? && pos + needed <= mem.Length else o == Refused(WriteSizeLimit(needed))
    {
      window := None;
      if pos + needed >= USIZE {
        return Refused(WriteSizeLimit(needed));
      }
      if pos + needed > mem.Length {
        Grow(pos + needed);
      }
      return Wrote(());
    }

    method ZeroFillGap()
      requires Valid() && pos <= mem.Length && window.None?
      modifies mem
      ensures Valid() && Contents() == old(Contents())
      ensures forall i | len <= i < pos :: mem[i] == Some(0)
    {
      forall i | len <= i < pos {
        mem[i] := Some(0);
      }
      assert mem[..len] == old(mem[..len]);
    }

    /** Room for the whole write and an initialised gap; the length stays. */
    method PrepareWrite(needed: nat) returns (o: Written<()>)
      requires Valid()
      modifies this, mem
      ensures Valid() && (mem == old(mem) || fresh(mem))
      ensures Contents() == old(Contents()) && pos == old(pos) && window.None?
      ensures if pos + needed < USIZE then o.Wrote? && pos + needed <= mem.Length else o == Refused(WriteSizeLimit(needed))
      ensures o.Wrote? ==> forall i | len <= i < pos :: mem[i] == Some(0)
    {
      var _ :- MaybeGrow(needed);
      ZeroFillGap();
      return Wrote(());
    }

    /** Copy `src` to the position without looking, and move position and length over it. */
    method CopyAndAdvance(src: bytes)
      requires Valid() && pos + |src| <= mem.Length && (forall i | len <= i < pos :: mem[i] == Some(0))
      requires window.Some? ==> pos + |src| <= window.value
      modifies this, mem
      ensures Valid() && mem == old(mem) && window == old(window)
      ensures Contents() == Overlay(old(Contents()), old(pos), src) && pos == old(pos) + |src|
    {
      forall i | 0 <= i < |src| {
        mem[pos + i] := Some(src[i]);
      }
      var next := pos + |src|;
      if next > len {
        len := next;
      }
      pos := next;
      assert forall i | 0 <= i < len :: mem[i] == Some(Overlay(old(Contents()), old(pos), src)[i]) by {
        forall i: nat | i < len
          ensures mem[i] == Some(Overlay(old(Contents()), old(pos), src)[i])
        {
          OverlayBytes(old(Contents()), old(pos), src, i);
          assert i < old(len) ==> old(Filled(Contents())[i] == mem[i]);
        }
      }
    }

    method Write(src: bytes) returns (o: Written<()>)
      requires Valid()
      modifies this, mem
      ensures Valid() && (mem == old(mem) || fresh(mem)) && window.None?
      ensures o.Wrote? <==> old(pos) + |src| < USIZE
      ensures o.Wrote? ==> Contents() == Overlay(old(Contents()), old(pos), src) && pos == old(pos) + |src|
      ensures o.Refused? ==> o.error == WriteSizeLimit(|src|) && Contents() == old(Contents()) && pos == old(pos)
    {
      var _ :- PrepareWrite(|src|);
      CopyAndAdvance(src);
      return Wrote(());
    }

    /** Open a window of `n` bytes. Nothing a reader of the vector could see changes. */
    method AsTrustedFor(n: nat) returns (o: Written<()>)
      requires Valid()
      modifies this, mem
      ensures Valid() && (mem == old(mem) || fresh(mem))
      ensures Contents() == old(Contents()) && pos == old(pos)
      ensures if pos + n < USIZE then o.Wrote? && window == Some(pos + n) else o == Refused(WriteSizeLimit(n)) && window.None?
    {
      var _ :- PrepareWrite(n);
      window := Some(pos + n);
      return Wrote(());
    }

    /** Write through the open window, without looking. */
    method WriteInWindow(src: bytes)
      requires Valid() && window.Some? && pos + |src| <= window.value
      modifies this, mem
      ensures Valid() && mem == old(mem) && window == old(window)
      ensures Contents() == Overlay(old(Contents()), old(pos), src) && pos == old(pos) + |src|
    {
      CopyAndAdvance(src);
    }
  }

  // Runs

  datatype Op =
    | Put(src: bytes)
    | Seek(pos: nat)
    | Trust(n: nat, chunks: seq<bytes>)

  function Concat(chunks: seq<bytes>): bytes {
    if chunks == [] then [] else chunks[0] + Concat(chunks[1..])
  }

  /** A run in which every trusted window is written at most as far as was promised. */
  predicate Honest(ops: seq<Op>) {
    forall i | 0 <= i < |ops| :: ops[i].Trust? ==> |Concat(ops[i].chunks)| <= ops[i].n
  }

  datatype State = State(contents: bytes, pos: nat)

  /** One step of the simple overlay: a window nobody wrote to does nothing, a used one is one
      write of all its chunks, and what would pass the end of the address space is refused. */
  function Step(s: State, op: Op): State {
    match op
    case Put(src) => if s.pos + |src| < USIZE then State(Overlay(s.contents, s.pos, src), s.pos + |src|) else s
    case Seek(p) => State(s.contents, p)
    case Trust(n, chunks) =>
      if s.pos + n < USIZE && chunks != [] then
        State(Overlay(s.contents, s.pos, Concat(chunks)), s.pos + |Concat(chunks)|)
      else s
  }

  function Replay(s: State, ops: seq<Op>): State
    decreases ops
  {
    if ops == [] then s else Replay(Step(s, ops[0]), ops[1..])
  }

  lemma {:induction false} ConcatSplit(chunks: seq<bytes>, i: nat)
    requires i <= |chunks|
    ensures Concat(chunks) == Concat(chunks[..i]) + Concat(chunks[i..])
  {
    if i == 0 {
      assert chunks[..0] == [] && chunks[0..] == chunks;
      assert [] + Concat(chunks) == Concat(chunks);
    } else {
      ConcatSplit(chunks[1..], i - 1);
      assert chunks[..i][1..] == chunks[1..][..i - 1] && chunks[1..][i - 1..] == chunks[i..];
      var a, b, d := chunks[0], Concat(chunks[1..][..i - 1]), Concat(chunks[i..]);
      assert a + (b + d) == a + b + d;
    }
  }

  lemma ConcatSnoc(chunks: seq<bytes>, i: nat)
    requires i < |chunks|
    ensures Concat(chunks[..i + 1]) == Concat(chunks[..i]) + chunks[i]
    ensures |Concat(chunks[..i])| + |chunks[i]| <= |Concat(chunks)|
  {
    ConcatSplit(chunks[..i + 1], i);
    ConcatSplit(chunks, i + 1);
    assert chunks[..i + 1][..i] == chunks[..i] && chunks[..i + 1][i..] == [chunks[i]];
    assert Concat([chunks[i]]) == chunks[i] + Concat([]) == chunks[i];
  }

  method Fill(cursor: Cursor, chunks: seq<bytes>)
    requires cursor.Valid() && cursor.window.Some? && cursor.pos + |Concat(chunks)| <= cursor.window.value
    modifies cursor, cursor.mem
    ensures cursor.Valid() && cursor.mem == old(cursor.mem)
    ensures chunks == [] ==> cursor.Contents() == old(cursor.Contents()) && cursor.pos == old(cursor.pos)
    ensures chunks != [] ==> cursor.Contents() == Overlay(old(cursor.Contents()), old(cursor.pos), Concat(chunks))
    ensures chunks != [] ==> cursor.pos == old(cursor.pos) + |Concat(chunks)|
  {
    hide Overlay;
    ghost var c0, p0 := cursor.Contents(), cursor.pos;
    for i := 0 to |chunks|
      invariant cursor.Valid() && cursor.mem == old(cursor.mem) && cursor.window == old(cursor.window)
      invariant cursor.pos == p0 + |Concat(chunks[..i])|
      invariant cursor.Contents() == if i == 0 then c0 else Overlay(c0, p0, Concat(chunks[..i]))
    {
      ConcatSnoc(chunks, i);
      cursor.WriteInWindow(chunks[i]);
      OverlayChunks(c0, p0, Concat(chunks[..i]), chunks[i]);
      assert i == 0 ==> Concat(chunks[..i]) == [] && [] + chunks[i] == chunks[i];
    }
    assert chunks[..|chunks|] == chunks;
  }

  method Perform(cursor: Cursor, op: Op)
    requires cursor.Valid() && (op.Trust? ==> |Concat(op.chunks)| <= op.n)
    modifies cursor, cursor.mem
    ensures cursor.Valid() && (cursor.mem == old(cursor.mem) || fresh(cursor.mem))
    ensures State(cursor.Contents(), cursor.pos) == Step(old(State(cursor.Contents(), cursor.pos)), op)
  {
    match op
    case Put(src) =>
      var _ := cursor.Write(src);
    case Seek(p) =>
      cursor.SetPosition(p);
    case Trust(n, chunks) =>
      var window := cursor.AsTrustedFor(n);
      if window.Wrote? {
        Fill(cursor, chunks);
      }
  }

  /** Over any run the vector holds what the simple overlay says, and its length never covers a
      byte that was not initialised. */
  method Run(cursor: Cursor, ops: seq<Op>)
    requires cursor.Valid() && Honest(ops)
    modifies cursor, cursor.mem
    ensures cursor.Valid()
    ensures State(cursor.Contents(), cursor.pos) == Replay(old(State(cursor.Contents(), cursor.pos)), ops)
  {
    ghost var s0 := State(cursor.Contents(), cursor.pos);
    for i := 0 to |ops|
      invariant cursor.Valid() && (cursor.mem == old(cursor.mem) || fresh(cursor.mem))
      invariant Replay(s0, ops) == Replay(State(cursor.Contents(), cursor.pos), ops[i..])
    {
      assert ops[i..][1..] == ops[i + 1..];
      Perform(cursor, ops[i]);
    }
  }
}
