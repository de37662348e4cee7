/** The conditions on types that the theorems ask for, each in terms of what occurs in the type. */
module Occurrences {
  import opened Schemas
  import opened Extension
  import opened Guarantees
  import opened Canonical
  import opened DropGuards
  import opened UniqueKeys

  /** The types that occur in a type where it is read, itself included. */
  ghost function Within(s: Schema): set<Schema>
    decreases s, 1
  {
    {s} + WithinParts(s)
  }

  ghost function WithinParts(s: Schema): set<Schema>
    decreases s, 0
  {
    match s
    case OptS(e, _) => Within(e)
    case ArrS(_, e) => Within(e)
    case SeqS(e, _, _, _) => Within(e)
    case MapS(p, _, _, _) => Within(p.key) + Within(p.val)
    case StructS(_, fs) => WithinFields(fs)
    case EnumS(_, vs, _) => WithinVariants(vs)
    case BoxS(e) => Within(e)
    case DefaultOnEmptyS(e, _) => Within(e)
    case DiscardS(e, _) => Within(e)
    case DiscardSeqS(e, _) => Within(e)
    case _ => {}
  }

  ghost function WithinFields(fs: seq<Field>): set<Schema>
    decreases fs, 0
  {
    if fs == [] then {}
    else assert fs[0].schema < fs[0]; (if fs[0].skip.Some? then {} else Within(fs[0].schema)) + WithinFields(fs[1..])
  }

  ghost function WithinVariants(vs: seq<Variant>): set<Schema>
    decreases vs, 0
  {
    if vs == [] then {} else WithinFields(vs[0].fields) + WithinVariants(vs[1..])
  }

  /** It occurs: a field that is not skipped. */
  lemma {:induction false} FieldsAreWithin(fs: seq<Field>, t: Schema)
    ensures t in WithinFields(fs) <==> exists i | 0 <= i < |fs| :: fs[i].skip.None? && t in Within(fs[i].schema)
    decreases fs
  {
    hide Within;
    if fs != [] {
      FieldsAreWithin(fs[1..], t);
      assert forall i | 1 <= i < |fs| :: fs[i] == fs[1..][i - 1];
      assert forall i | 0 <= i < |fs[1..]| :: fs[1..][i] == fs[i + 1];
    }
  }

  /** No field of the struct, or of a variant, is skipped. */
  predicate AllThere(t: Schema) {
    match t
    case StructS(_, fs) => NoneSkipped(fs)
    case EnumS(_, vs, _) => forall k | 0 <= k < |vs| :: NoneSkipped(vs[k].fields)
    case _ => true
  }

  predicate NoneSkipped(fs: seq<Field>) { forall i | 0 <= i < |fs| :: fs[i].skip.None? }

  predicate IsAdapter(t: Schema) { t.MapS? || t.DefaultOnEmptyS? || t.DiscardS? || t.DiscardSeqS? }

  predicate ChecksLengths(t: Schema) {
    match t
    case StrS(_, readCheck, writeCheck, _) => readCheck ==> writeCheck
    case SeqS(_, _, writeCheck, _) => writeCheck
    case _ => true
  }

  // Nothing turns running out of input into success: no default occurs

  lemma {:induction false} NoDefaultMeans(s: Schema)
    ensures NoDefault(s) <==> forall t | t in Within(s) :: !t.DefaultOnEmptyS?
    decreases s
  {
    assert s in Within(s) && Within(s) == {s} + WithinParts(s);
    match s
    case OptS(e, _) => NoDefaultMeans(e);
    case ArrS(_, e) => NoDefaultMeans(e);
    case SeqS(e, _, _, _) => NoDefaultMeans(e);
    case MapS(p, _, _, _) => NoDefaultMeans(p.key); NoDefaultMeans(p.val);
    case StructS(_, fs) => NoDefaultFieldsMeans(fs);
    case EnumS(_, vs, _) => NoDefaultVariantsMeans(vs);
    case BoxS(e) => NoDefaultMeans(e);
    case DiscardS(e, _) => NoDefaultMeans(e);
    case DiscardSeqS(e, _) => NoDefaultMeans(e);
    case _ =>
  }

  lemma {:induction false} NoDefaultFieldsMeans(fs: seq<Field>)
    ensures NoDefaultFields(fs) <==> forall t | t in WithinFields(fs) :: !t.DefaultOnEmptyS?
    decreases fs
  {
    if fs != [] {
      assert fs[0].schema < fs[0];
      NoDefaultMeans(fs[0].schema);
      NoDefaultFieldsMeans(fs[1..]);
    }
  }

  lemma {:induction false} NoDefaultVariantsMeans(vs: seq<Variant>)
    ensures NoDefaultVariants(vs) <==> forall t | t in WithinVariants(vs) :: !t.DefaultOnEmptyS?
    decreases vs
  {
    if vs != [] {
      NoDefaultFieldsMeans(vs[0].fields);
      NoDefaultVariantsMeans(vs[1..]);
    }
  }

  // A read discards nothing it was able to read: no map, default or discard occurs

  lemma {:induction false} KeepsMeans(s: Schema)
    ensures Keeps(s) <==> forall t | t in Within(s) :: !IsAdapter(t)
    decreases s
  {
    assert s in Within(s) && Within(s) == {s} + WithinParts(s);
    match s
    case OptS(e, _) => KeepsMeans(e);
    case ArrS(_, e) => KeepsMeans(e);
    case SeqS(e, _, _, _) => KeepsMeans(e);
    case StructS(_, fs) => KeepsFieldsMeans(fs);
    case EnumS(_, vs, _) => KeepsVariantsMeans(vs);
    case BoxS(e) => KeepsMeans(e);
    case _ =>
  }

  lemma {:induction false} KeepsFieldsMeans(fs: seq<Field>)
    ensures KeepsFields(fs) <==> forall t | t in WithinFields(fs) :: !IsAdapter(t)
    decreases fs
  {
    if fs != [] {
      assert fs[0].schema < fs[0];
      KeepsMeans(fs[0].schema);
      KeepsFieldsMeans(fs[1..]);
    }
  }

  lemma {:induction false} KeepsVariantsMeans(vs: seq<Variant>)
    ensures KeepsVariants(vs) <==> forall t | t in WithinVariants(vs) :: !IsAdapter(t)
    decreases vs
  {
    if vs != [] {
      KeepsFieldsMeans(vs[0].fields);
      KeepsVariantsMeans(vs[1..]);
    }
  }

  // Nothing is lost on the way: no discard occurs and no field is skipped

  predicate Kept(t: Schema) { !t.DiscardS? && !t.DiscardSeqS? && AllThere(t) }

  lemma {:induction false} LosslessMeans(s: Schema)
    ensures Lossless(s) <==> forall t | t in Within(s) :: Kept(t)
    decreases s
  {
    assert s in Within(s) && Within(s) == {s} + WithinParts(s);
    match s
    case OptS(e, _) => LosslessMeans(e);
    case ArrS(_, e) => LosslessMeans(e);
    case SeqS(e, _, _, _) => LosslessMeans(e);
    case MapS(p, _, _, _) => LosslessMeans(p.key); LosslessMeans(p.val);
    case StructS(_, fs) => LosslessFieldsMeans(fs);
    case EnumS(_, vs, _) => LosslessVariantsMeans(vs);
    case BoxS(e) => LosslessMeans(e);
    case DefaultOnEmptyS(e, _) => LosslessMeans(e);
    case _ =>
  }

  lemma {:induction false} LosslessFieldsMeans(fs: seq<Field>)
    ensures LosslessFields(fs) <==> NoneSkipped(fs) && forall t | t in WithinFields(fs) :: Kept(t)
    decreases fs
  {
    if fs != [] {
      assert fs[0].schema < fs[0];
      LosslessMeans(fs[0].schema);
      LosslessFieldsMeans(fs[1..]);
      NoneSkippedRest(fs);
    }
  }

  lemma NoneSkippedRest(fs: seq<Field>)
    requires fs != []
    ensures NoneSkipped(fs) <==> fs[0].skip.None? && NoneSkipped(fs[1..])
  {
    assert forall i | 1 <= i < |fs| :: fs[i] == fs[1..][i - 1];
    assert forall i | 0 <= i < |fs[1..]| :: fs[1..][i] == fs[i + 1];
  }

  lemma {:induction false} LosslessVariantsMeans(vs: seq<Variant>)
    ensures LosslessVariants(vs) <==> (forall k | 0 <= k < |vs| :: NoneSkipped(vs[k].fields)) && forall t | t in WithinVariants(vs) :: Kept(t)
    decreases vs
  {
    if vs != [] {
      LosslessFieldsMeans(vs[0].fields);
      LosslessVariantsMeans(vs[1..]);
      assert forall k | 1 <= k < |vs| :: vs[k] == vs[1..][k - 1];
      assert forall k | 0 <= k < |vs[1..]| :: vs[1..][k] == vs[k + 1];
    }
  }

  // One value has one encoding: none of these adapters occurs and no field is skipped

  predicate Plainly(t: Schema) { !IsAdapter(t) && AllThere(t) }

  lemma {:induction false} RigidMeans(s: Schema)
    ensures Rigid(s) <==> forall t | t in Within(s) :: Plainly(t)
    decreases s
  {
    assert s in Within(s) && Within(s) == {s} + WithinParts(s);
    match s
    case OptS(e, _) => RigidMeans(e);
    case ArrS(_, e) => RigidMeans(e);
    case SeqS(e, _, _, _) => RigidMeans(e);
    case StructS(_, fs) => RigidFieldsMeans(fs);
    case EnumS(_, vs, _) => RigidVariantsMeans(vs);
    case BoxS(e) => RigidMeans(e);
    case _ =>
  }

  lemma {:induction false} RigidFieldsMeans(fs: seq<Field>)
    ensures RigidFields(fs) <==> NoneSkipped(fs) && forall t | t in WithinFields(fs) :: Plainly(t)
    decreases fs
  {
    if fs != [] {
      assert fs[0].schema < fs[0];
      RigidMeans(fs[0].schema);
      RigidFieldsMeans(fs[1..]);
      NoneSkippedRest(fs);
    }
  }

  lemma {:induction false} RigidVariantsMeans(vs: seq<Variant>)
    ensures RigidVariants(vs) <==> (forall k | 0 <= k < |vs| :: NoneSkipped(vs[k].fields)) && forall t | t in WithinVariants(vs) :: Plainly(t)
    decreases vs
  {
    if vs != [] {
      RigidFieldsMeans(vs[0].fields);
      RigidVariantsMeans(vs[1..]);
      assert forall k | 1 <= k < |vs| :: vs[k] == vs[1..][k - 1];
      assert forall k | 0 <= k < |vs[1..]| :: vs[1..][k] == vs[k + 1];
    }
  }

  // Checked lengths: it is enough that every writer of a length that occurs checks it

  lemma {:induction false} CheckedWhen(s: Schema)
    requires forall t | t in Within(s) :: ChecksLengths(t)
    ensures Checked(s)
    decreases s
  {
    assert s in Within(s) && Within(s) == {s} + WithinParts(s);
    match s
    case OptS(e, _) => CheckedWhen(e);
    case ArrS(_, e) => CheckedWhen(e);
    case SeqS(e, _, _, _) => CheckedWhen(e);
    case MapS(p, _, _, _) => CheckedWhen(p.key); CheckedWhen(p.val);
    case StructS(_, fs) => CheckedFieldsWhen(fs);
    case EnumS(_, vs, _) => CheckedVariantsWhen(vs);
    case BoxS(e) => CheckedWhen(e);
    case DefaultOnEmptyS(e, _) => CheckedWhen(e);
    case DiscardS(e, _) => CheckedWhen(e);
    case _ =>
  }

  lemma {:induction false} CheckedFieldsWhen(fs: seq<Field>)
    requires forall t | t in WithinFields(fs) :: ChecksLengths(t)
    ensures CheckedFields(fs)
    decreases fs
  {
    if fs != [] {
      assert fs[0].schema < fs[0];
      if fs[0].skip.None? {
        CheckedWhen(fs[0].schema);
      }
      CheckedFieldsWhen(fs[1..]);
    }
  }

  lemma {:induction false} CheckedVariantsWhen(vs: seq<Variant>)
    requires forall t | t in WithinVariants(vs) :: ChecksLengths(t)
    ensures CheckedVariants(vs)
    decreases vs
  {
    if vs != [] {
      CheckedFieldsWhen(vs[0].fields);
      CheckedVariantsWhen(vs[1..]);
    }
  }

  // A type without these adapters and skipped fields: strings whose length is checked on writing have
  // it checked on reading when every string that occurs does

  predicate ReadsAsWritten(t: Schema) { Plainly(t) && (t.StrS? ==> (t.writeCheck ==> t.readCheck)) }

  lemma {:induction false} MirroredWhen(s: Schema)
    requires forall t | t in Within(s) :: ReadsAsWritten(t)
    ensures Mirrored(s)
    decreases s
  {
    assert s in Within(s) && Within(s) == {s} + WithinParts(s);
    match s
    case OptS(e, _) => MirroredWhen(e);
    case ArrS(_, e) => MirroredWhen(e);
    case SeqS(e, _, _, _) => MirroredWhen(e);
    case StructS(_, fs) => MirroredFieldsWhen(fs);
    case EnumS(_, vs, _) => MirroredVariantsWhen(vs);
    case BoxS(e) => MirroredWhen(e);
    case _ =>
  }

  lemma {:induction false} MirroredFieldsWhen(fs: seq<Field>)
    requires NoneSkipped(fs) && forall t | t in WithinFields(fs) :: ReadsAsWritten(t)
    ensures MirroredFields(fs)
    decreases fs
  {
    if fs != [] {
      assert fs[0].schema < fs[0];
      NoneSkippedRest(fs);
      MirroredWhen(fs[0].schema);
      MirroredFieldsWhen(fs[1..]);
    }
  }

  lemma {:induction false} MirroredVariantsWhen(vs: seq<Variant>)
    requires forall k | 0 <= k < |vs| :: NoneSkipped(vs[k].fields)
    requires forall t | t in WithinVariants(vs) :: ReadsAsWritten(t)
    ensures MirroredVariants(vs)
    decreases vs
  {
    if vs != [] {
      assert forall k | 0 <= k < |vs[1..]| :: vs[1..][k] == vs[k + 1];
      MirroredFieldsWhen(vs[0].fields);
      MirroredVariantsWhen(vs[1..]);
    }
  }

  // Such a type has finitely many values when no string and no sequence occurs

  predicate Bounded(t: Schema) { Plainly(t) && !t.StrS? && !t.SeqS? && (t.IntS? ==> t.kind.Valid()) }

  lemma {:induction false} FiniteWhen(s: Schema)
    requires forall t | t in Within(s) :: Bounded(t)
    ensures Finite(s)
    decreases s
  {
    assert s in Within(s) && Within(s) == {s} + WithinParts(s);
    match s
    case OptS(e, _) => FiniteWhen(e);
    case ArrS(_, e) => FiniteWhen(e);
    case StructS(_, fs) => FiniteFieldsWhen(fs);
    case EnumS(_, vs, _) => FiniteVariantsWhen(vs);
    case BoxS(e) => FiniteWhen(e);
    case _ =>
  }

  lemma {:induction false} FiniteFieldsWhen(fs: seq<Field>)
    requires NoneSkipped(fs) && forall t | t in WithinFields(fs) :: Bounded(t)
    ensures FiniteFields(fs)
    decreases fs
  {
    if fs != [] {
      assert fs[0].schema < fs[0];
      NoneSkippedRest(fs);
      FiniteWhen(fs[0].schema);
      FiniteFieldsWhen(fs[1..]);
    }
  }

  lemma {:induction false} FiniteVariantsWhen(vs: seq<Variant>)
    requires forall k | 0 <= k < |vs| :: NoneSkipped(vs[k].fields)
    requires forall t | t in WithinVariants(vs) :: Bounded(t)
    ensures FiniteVariants(vs)
    decreases vs
  {
    if vs != [] {
      assert forall k | 0 <= k < |vs[1..]| :: vs[1..][k] == vs[k + 1];
      FiniteFieldsWhen(vs[0].fields);
      FiniteVariantsWhen(vs[1..]);
    }
  }
}
