/** Serialization metadata: a static size with a zero-copy flag, or nothing. */
module TypeMetas {
  import opened Prim

  datatype TypeMeta = Static(size: nat, zeroCopy: bool) | Dynamic {
    /** Mask the zero-copy flag; never upgrades a type to zero-copy. */
    function KeepZeroCopy(keep: bool): TypeMeta {
      match this
      case Static(n, z) => Static(n, z && keep)
      case Dynamic => Dynamic
    }
  }

  /** Metadata of constituents serialized one after the other: dynamic if any is, else the sum
      of the sizes, without overflow checks, and the conjunction of the flags. */
  function Join(ms: seq<TypeMeta>): (m: TypeMeta)
    ensures m.Static? ==> m.size < USIZE
  {
    if ms == [] then Static(0, true)
    else
      match (ms[0], Join(ms[1..]))
      case (Static(n, z), Static(n', z')) => Static(WrappingAdd(n, n'), z && z')
      case _ => Dynamic
  }

  /** The sum of the static sizes, however large. */
  function Total(ms: seq<TypeMeta>): nat {
    if ms == [] then 0 else (if ms[0].Static? then ms[0].size else 0) + Total(ms[1..])
  }

  /** The static sizes, if they are joined, add up to less than the address space. */
  predicate Holds(ms: seq<TypeMeta>) { Join(ms).Static? ==> Total(ms) < USIZE }

  lemma JoinCons(m: TypeMeta, ms: seq<TypeMeta>)
    ensures Join([m] + ms).Static? <==> m.Static? && Join(ms).Static?
    ensures Join([m] + ms).Static? ==> Join([m] + ms).size == WrappingAdd(m.size, Join(ms).size)
    ensures Join([m] + ms).Static? ==> Total([m] + ms) == m.size + Total(ms)
  {
    assert ([m] + ms)[1..] == ms;
  }

  /** The joined size is the sum modulo the address space. It covers the sum exactly when the sum is
      smaller than the address space, and is then the sum. */
  lemma {:induction false} JoinCovers(ms: seq<TypeMeta>)
    requires Join(ms).Static?
    ensures SameAddress(Join(ms).size, Total(ms))
    ensures Join(ms).size >= Total(ms) <==> Total(ms) < USIZE
    ensures Total(ms) < USIZE ==> Join(ms).size == Total(ms)
  {
    if ms != [] {
      JoinCovers(ms[1..]);
      SameSum(ms[0].size, ms[0].size, Join(ms[1..]).size, Total(ms[1..]));
      SameWrapped(ms[0].size + Join(ms[1..]).size);
    }
    WrapsOrNot(Total(ms));
  }

  lemma WrapsOrNot(n: nat)
    ensures if n < USIZE then n % USIZE == n else n % USIZE < n
  {}

  method JoinTypes(types: seq<TypeMeta>) returns (m: TypeMeta)
    ensures m == Join(types)
  {
    var accSize: nat, allZeroCopy, i := 0, true, 0;
    while i < |types|
      invariant 0 <= i <= |types| && accSize < USIZE
      invariant Join(types) == match Join(types[i..])
                               case Static(n, z) => Static(WrappingAdd(accSize, n), allZeroCopy && z)
                               case Dynamic => Dynamic
    {
      assert types[i..][1..] == types[i + 1..];
      match types[i]
      case Dynamic => return Dynamic;
      case Static(size, zeroCopy) =>
        if Join(types[i + 1..]).Static? {
          WrappingAssociates(accSize, size, Join(types[i + 1..]).size);
        }
        accSize := WrappingAdd(accSize, size);
        allZeroCopy := allZeroCopy && zeroCopy;
        i := i + 1;
    }
    return Static(accSize, allZeroCopy);
  }

  /** Every constituent of a static join is static, no larger if the sum fits, and zero-copy if the
      join is. */
  lemma {:induction false} JoinParts(ms: seq<TypeMeta>, i: nat)
    requires i < |ms| && Join(ms).Static?
    ensures ms[i].Static? && ms[i].size <= Total(ms)
    ensures Total(ms) < USIZE ==> ms[i].size <= Join(ms).size
    ensures Join(ms).zeroCopy ==> ms[i].zeroCopy
  {
    JoinCovers(ms);
    if i > 0 {
      JoinParts(ms[1..], i - 1);
    }
  }

  /** Joining forgets nothing but the order: it answers `Dynamic` exactly when some constituent
      is dynamic. */
  lemma {:induction false} JoinDynamic(ms: seq<TypeMeta>)
    ensures Join(ms).Dynamic? <==> exists i | 0 <= i < |ms| :: ms[i].Dynamic?
  {
    if ms != [] {
      JoinDynamic(ms[1..]);
      if i :| 0 <= i < |ms| && ms[i].Dynamic? {
        assert i == 0 || ms[1..][i - 1].Dynamic?;
      }
      if j :| 0 <= j < |ms[1..]| && ms[1..][j].Dynamic? {
        assert ms[j + 1].Dynamic?;
      }
    }
  }

  /** All variants are static with the size of the first. */
  predicate SameStaticSize(ms: seq<TypeMeta>)
    requires ms != []
  {
    ms[0].Static? && forall i | 0 <= i < |ms| :: ms[i].Static? && ms[i].size == ms[0].size
  }

  /** The metadata of an enum with variants `ms`, none of them zero-copy. */
  function Choice(ms: seq<TypeMeta>): TypeMeta
    requires ms != []
  {
    if SameStaticSize(ms) then ms[0] else Dynamic
  }

  /** `choose` answers `Static` exactly when all variants are static with one common size. */
  method Choose(variantSizes: seq<TypeMeta>) returns (m: TypeMeta)
    requires variantSizes != []
    ensures m == Choice(variantSizes)
    ensures m.Static? <==> variantSizes[0].Static? && forall i | 0 <= i < |variantSizes| :: variantSizes[i].Static? && variantSizes[i].size == variantSizes[0].size
    ensures m.Static? ==> m == variantSizes[0]
  {
    if |variantSizes| == 1 {
      return variantSizes[0];
    }
    var i := 1;
    while i < |variantSizes|
      invariant 1 <= i <= |variantSizes|
      invariant forall j | 1 <= j < i :: variantSizes[j].Static? && variantSizes[0].Static? && variantSizes[j].size == variantSizes[0].size
    {
      match (variantSizes[i], variantSizes[0])
      case (Static(s1, _), Static(s2, _)) =>
        if s1 != s2 {
          return Dynamic;
        }
        i := i + 1;
      case _ =>
        return Dynamic;
    }
    return variantSizes[0];
  }
}
