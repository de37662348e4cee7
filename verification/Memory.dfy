/** Values as they lie in memory: what a bulk write copies out and what a bulk read reinterprets. */
module Memory {
  import opened Prim
  import opened Schemas

  function Fill(n: nat, pad: byte): (b: bytes)
    ensures |b| == n
  {
    seq(n, _ => pad)
  }

  /** Padding before a field that may start at `at` only if aligned. */
  function Gap(repr: Repr, at: nat, align: nat): nat {
    if repr.C? && RoundUp(at, align) >= at then RoundUp(at, align) - at else 0
  }

  /** The memory image of a value, padding bytes being `pad`. Only integers, booleans, arrays and
      structs with a specified layout have an image anything is claimed about. */
  function Image(c: Config, pad: byte, s: Schema, v: Value): bytes
    requires WellTyped(s, v)
    decreases s, v
  {
    match s
    case IntS(k) => ToBytes(c.platform, k.Cast(v.i), k.width)
    case BoolS => if v.b then [1] else [0]
    case ArrS(_, e) => ImageAll(c, pad, e, v.vs)
    case StructS(repr, fs) =>
      if repr.RustRepr? then Fill(LayoutOf(s).size, pad)
      else
        var body := ImageFields(c, pad, repr, fs, v.vs, 0);
        body + (if LayoutOf(s).size > |body| then Fill(LayoutOf(s).size - |body|, pad) else [])
    case DefaultOnEmptyS(e, _) => Image(c, pad, e, v)
    case _ => Fill(LayoutOf(s).size, pad)
  }

  function ImageAll(c: Config, pad: byte, e: Schema, vs: seq<Value>): bytes
    requires AllTyped(e, vs)
    decreases e, vs
  {
    if vs == [] then [] else Image(c, pad, e, vs[0]) + ImageAll(c, pad, e, vs[1..])
  }

  function ImageFields(c: Config, pad: byte, repr: Repr, fs: seq<Field>, vs: seq<Value>, at: nat): bytes
    requires FieldsTyped(fs, vs)
    decreases fs, vs
  {
    if fs == [] then []
    else
      assert fs[0].schema < fs[0];
      var lay := LayoutOf(fs[0].schema);
      var gap := Gap(repr, at, lay.align);
      Fill(gap, pad) + Image(c, pad, fs[0].schema, vs[0]) + ImageFields(c, pad, repr, fs[1..], vs[1..], at + gap + lay.size)
  }

  function Chunk(b: bytes, from: nat, n: nat): bytes {
    if from + n <= |b| then b[from..from + n] else []
  }

  /** The value a memory image denotes. A skipped field of a bulk-read struct occupies no memory
      and has the one value its type has. */
  function Reinterpret(c: Config, s: Schema, img: bytes): Value
    decreases s, 0, 0
  {
    match s
    case IntS(k) => IntV(k.FromUnsigned(FromBytes(c.platform, img)))
    case BoolS => BoolV(img == [1])
    case ArrS(n, e) => ListV(ReinterpretAll(c, e, n, img))
    case StructS(repr, fs) => ListV(ReinterpretFields(c, repr, fs, img, 0))
    case _ => NoneV
  }

  function ReinterpretAll(c: Config, e: Schema, n: nat, img: bytes): (vs: seq<Value>)
    ensures |vs| == n
    decreases e, 1, n
  {
    if n == 0 then []
    else
      var size := LayoutOf(e).size;
      [Reinterpret(c, e, Chunk(img, 0, size))] + ReinterpretAll(c, e, n - 1, if size <= |img| then img[size..] else [])
  }

  function ReinterpretFields(c: Config, repr: Repr, fs: seq<Field>, img: bytes, at: nat): seq<Value>
    decreases fs, 0, 0
  {
    if fs == [] then []
    else
      assert fs[0].schema < fs[0];
      var lay := LayoutOf(fs[0].schema);
      var from := at + Gap(repr, at, lay.align);
      var v :=
        match fs[0].skip
        case Some(d) => d
        case None => Reinterpret(c, fs[0].schema, Chunk(img, from, lay.size));
      [v] + ReinterpretFields(c, repr, fs[1..], img, from + lay.size)
  }
}
