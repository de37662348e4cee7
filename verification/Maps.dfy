/** Rebuilding a map by inserting its entries one at a time. */
module Maps {
  import opened Schemas
  import opened Codec

  function Keys(es: seq<Entry>): set<Meaning> {
    if es == [] then {} else {MeaningOf(es[0].key)} + Keys(es[1..])
  }

  lemma {:induction false} KeysAreDomain(es: seq<Entry>)
    ensures MapOf(es).Keys == Keys(es)
    ensures forall m :: m in Keys(es) <==> exists i | 0 <= i < |es| :: MeaningOf(es[i].key) == m
  {
    if es != [] {
      KeysAreDomain(es[1..]);
      forall m | m in Keys(es)
        ensures exists i | 0 <= i < |es| :: MeaningOf(es[i].key) == m
      {
        if m != MeaningOf(es[0].key) {
          var j :| 0 <= j < |es[1..]| && MeaningOf(es[1..][j].key) == m;
          assert MeaningOf(es[j + 1].key) == m;
        }
      }
      forall i | 0 <= i < |es|
        ensures MeaningOf(es[i].key) in Keys(es)
      {
        assert i == 0 || es[i] == es[1..][i - 1];
      }
    }
  }

  lemma DistinctTail(es: seq<Entry>)
    requires DistinctKeys(es) && es != []
    ensures DistinctKeys(es[1..])
    ensures MeaningOf(es[0].key) !in Keys(es[1..])
  {
    KeysAreDomain(es[1..]);
    forall i, j | 0 <= i < j < |es[1..]|
      ensures MeaningOf(es[1..][i].key) != MeaningOf(es[1..][j].key)
    {
      assert es[1..][i] == es[i + 1] && es[1..][j] == es[j + 1];
    }
  }

  lemma DistinctCons(e: Entry, es: seq<Entry>)
    requires DistinctKeys(es) && MeaningOf(e.key) !in Keys(es)
    ensures DistinctKeys([e] + es)
  {
    hide Keys, MeaningOf;
    KeysAreDomain(es);
    var all := [e] + es;
    forall i, j | 0 <= i < j < |all|
      ensures MeaningOf(all[i].key) != MeaningOf(all[j].key)
    {
      assert all[j] == es[j - 1];
      assert i == 0 || all[i] == es[i - 1];
    }
  }

  lemma MapOfCons(e: Entry, es: seq<Entry>)
    ensures MapOf([e] + es) == map[MeaningOf(e.key) := MeaningOf(e.val)] + MapOf(es)
    ensures Keys([e] + es) == {MeaningOf(e.key)} + Keys(es)
  {
    assert ([e] + es)[1..] == es;
  }

  lemma Rebind(m: map<Meaning, Meaning>, k: Meaning, v: Meaning, v': Meaning)
    requires k !in m
    ensures map[k := v'] + m == (map[k := v] + m)[k := v']
  {}

  lemma BindOther(m: map<Meaning, Meaning>, k: Meaning, v: Meaning, k': Meaning, v': Meaning)
    requires k != k'
    ensures map[k := v] + m[k' := v'] == (map[k := v] + m)[k' := v']
  {}

  /** Inserting adds the key and keeps keys distinct. */
  lemma {:induction false} InsertKeys(es: seq<Entry>, e: Entry)
    requires DistinctKeys(es)
    ensures Keys(Insert(es, e)) == Keys(es) + {MeaningOf(e.key)}
    ensures DistinctKeys(Insert(es, e))
  {
    if es == [] {
      MapOfCons(e, []);
      assert [e] + [] == [e];
    } else {
      var rest := es[1..];
      DistinctTail(es);
      if MeaningOf(es[0].key) == MeaningOf(e.key) {
        MapOfCons(Entry(es[0].key, e.val), rest);
        DistinctCons(Entry(es[0].key, e.val), rest);
      } else {
        InsertKeys(rest, e);
        MapOfCons(es[0], Insert(rest, e));
        DistinctCons(es[0], Insert(rest, e));
      }
    }
  }

  /** Inserting binds the key to the new value and changes no other binding. */
  lemma {:induction false} InsertDenotes(es: seq<Entry>, e: Entry)
    requires DistinctKeys(es)
    ensures MapOf(Insert(es, e)) == MapOf(es)[MeaningOf(e.key) := MeaningOf(e.val)]
  {
    if es == [] {
      MapOfCons(e, []);
      assert [e] + [] == [e];
    } else {
      var rest := es[1..];
      var k, v := MeaningOf(es[0].key), MeaningOf(es[0].val);
      DistinctTail(es);
      KeysAreDomain(rest);
      if k == MeaningOf(e.key) {
        MapOfCons(Entry(es[0].key, e.val), rest);
        Rebind(MapOf(rest), k, v, MeaningOf(e.val));
      } else {
        InsertDenotes(rest, e);
        MapOfCons(es[0], Insert(rest, e));
        BindOther(MapOf(rest), k, v, MeaningOf(e.key), MeaningOf(e.val));
      }
    }
  }

  lemma {:induction false} MapOfSnoc(es: seq<Entry>, e: Entry)
    ensures MapOf(es + [e]) == MapOf(es)[MeaningOf(e.key) := MeaningOf(e.val)]
  {
    if es == [] {
      assert [] + [e] == [e];
      assert MapOf([e]) == map[MeaningOf(e.key) := MeaningOf(e.val)] + MapOf([e][1..]);
    } else {
      MapOfSnoc(es[1..], e);
      assert (es + [e])[1..] == es[1..] + [e];
    }
  }

  /** The insertion loop builds a map with distinct keys that denotes what the entries denote,
      a later entry replacing an earlier one with the same key. */
  lemma {:induction false} CollectDenotes(es: seq<Entry>)
    ensures MapOf(Collect(es)) == MapOf(es)
    ensures DistinctKeys(Collect(es))
  {
    if es != [] {
      var init, last := es[..|es| - 1], es[|es| - 1];
      CollectDenotes(init);
      InsertDenotes(Collect(init), last);
      InsertKeys(Collect(init), last);
      MapOfSnoc(init, last);
      assert es == init + [last];
    }
  }

  /** Entries with distinct keys are collected in the order they came. */
  lemma {:induction false} CollectDistinct(es: seq<Entry>)
    requires DistinctKeys(es)
    ensures Collect(es) == es
  {
    if es != [] {
      var init, last := es[..|es| - 1], es[|es| - 1];
      CollectDistinct(init);
      KeysAreDomain(init);
      InsertNew(init, last);
    }
  }

  lemma {:induction false} InsertNew(es: seq<Entry>, e: Entry)
    requires MeaningOf(e.key) !in Keys(es)
    ensures Insert(es, e) == es + [e]
  {
    if es != [] {
      InsertNew(es[1..], e);
    }
  }

  // What equality of meanings is

  /** In the map a list of entries denotes, each key is bound by its last entry. */
  lemma {:induction false} LastEntryCounts(es: seq<Entry>, i: nat)
    requires i < |es| && forall j | i < j < |es| :: MeaningOf(es[j].key) != MeaningOf(es[i].key)
    ensures MeaningOf(es[i].key) in MapOf(es) && MapOf(es)[MeaningOf(es[i].key)] == MeaningOf(es[i].val)
  {
    var rest := es[1..];
    KeysAreDomain(rest);
    forall j | 0 <= j < |rest|
      ensures rest[j] == es[j + 1]
    {}
    if i > 0 {
      LastEntryCounts(rest, i - 1);
    }
  }

  predicate WithoutMaps(v: Value)
    decreases v
  {
    match v
    case SomeV(u) => WithoutMaps(u)
    case ListV(vs) => forall i | 0 <= i < |vs| :: WithoutMaps(vs[i])
    case MapV(_) => false
    case EnumV(_, vs) => forall i | 0 <= i < |vs| :: WithoutMaps(vs[i])
    case _ => true
  }

  /** Values without maps mean the same exactly when they are equal. */
  lemma {:induction false} SameMeaning(u: Value, v: Value)
    requires WithoutMaps(u) && WithoutMaps(v)
    ensures MeaningOf(u) == MeaningOf(v) <==> u == v
    decreases u, 0
  {
    match u
    case SomeV(x) => if v.SomeV? { SameMeaning(x, v.v); }
    case ListV(xs) => if v.ListV? { SameMeanings(xs, v.vs); }
    case EnumV(_, xs) => if v.EnumV? { SameMeanings(xs, v.vs); }
    case _ =>
  }

  lemma {:induction false} SameMeanings(us: seq<Value>, vs: seq<Value>)
    requires forall i | 0 <= i < |us| :: WithoutMaps(us[i])
    requires forall i | 0 <= i < |vs| :: WithoutMaps(vs[i])
    ensures MeaningOfAll(us) == MeaningOfAll(vs) <==> us == vs
    decreases us, 0
  {
    hide WithoutMaps, MeaningOf;
    if us != [] && vs != [] {
      SameMeaning(us[0], vs[0]);
      assert forall i | 0 <= i < |us[1..]| :: us[1..][i] == us[i + 1];
      assert forall i | 0 <= i < |vs[1..]| :: vs[1..][i] == vs[i + 1];
      SameMeanings(us[1..], vs[1..]);
      assert us == [us[0]] + us[1..] && vs == [vs[0]] + vs[1..];
      assert MeaningOfAll(us)[1..] == MeaningOfAll(us[1..]) && MeaningOfAll(vs)[1..] == MeaningOfAll(vs[1..]);
    }
  }

  /** Maps mean the same exactly when they bind the same keys to the same values. */
  lemma SameMaps(es: seq<Entry>, es': seq<Entry>)
    ensures MeaningOf(MapV(es)) == MeaningOf(MapV(es')) <==> MapOf(es) == MapOf(es')
  {}
}
