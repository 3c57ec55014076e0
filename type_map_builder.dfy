/** rDB/Builder/TypeMapBuilder.cs: a dictionary builder from entry types to table names. */
module TypeMaps {
  import opened Types
  import opened Wrappers
  import opened Errors
  import opened Dictionaries
  import opened Entries

  /** With(type, name) on the builder's current pairs: a type that does not derive from DatabaseEntry
      is rejected; otherwise the pair goes through the builder's Add. */
  function WithSpec(m: map<TypeId, string>, t: TypeDesc, name: string): (r: Result<map<TypeId, string>, Error>)
    ensures r.Err? <==> !t.derivesFromEntry || (t.id in m && m[t.id] != name)
    ensures r.Err? ==> r.error == if t.derivesFromEntry then DuplicateKey else NotAnEntryType
    ensures r.Ok? ==> r.value == m[t.id := name]
  {
    if !t.derivesFromEntry then Err(NotAnEntryType) else DictAdd(m, t.id, name)
  }

  /** WithRange: With applied to each pair in order, stopping at the first one that throws; the
      pairs added before it stay added. */
  function RangeSpec(m: map<TypeId, string>, pairs: seq<(TypeDesc, string)>): (map<TypeId, string>, Outcome<Error>) {
    if |pairs| == 0 then (m, Pass)
    else
      var (m1, o) := RangeSpec(m, pairs[..|pairs| - 1]);
      if o.Fail? then (m1, o)
      else match WithSpec(m1, pairs[|pairs| - 1].0, pairs[|pairs| - 1].1)
        case Ok(m2) => (m2, Pass)
        case Err(e) => (m1, Fail(e))
  }

  /** Pairs are only ever added: an existing type keeps its name, whether or not the range fails. */
  lemma {:induction false} RangeSpecKeepsEntries(m: map<TypeId, string>, pairs: seq<(TypeDesc, string)>)
    ensures forall id :: id in m ==> id in RangeSpec(m, pairs).0 && RangeSpec(m, pairs).0[id] == m[id]
  {
    if |pairs| > 0 {
      RangeSpecKeepsEntries(m, pairs[..|pairs| - 1]);
    }
  }

  /** A range that goes through holds every pair it was given, and nothing besides what was there. */
  lemma {:induction false} RangeSpecPass(m: map<TypeId, string>, pairs: seq<(TypeDesc, string)>)
    requires RangeSpec(m, pairs).1.Pass?
    ensures forall i :: 0 <= i < |pairs| ==>
      pairs[i].0.derivesFromEntry && pairs[i].0.id in RangeSpec(m, pairs).0 && RangeSpec(m, pairs).0[pairs[i].0.id] == pairs[i].1
    ensures forall id :: id in RangeSpec(m, pairs).0 <==> id in m || exists i :: 0 <= i < |pairs| && pairs[i].0.id == id
  {
    if |pairs| > 0 {
      var front := pairs[..|pairs| - 1];
      RangeSpecPass(m, front);
      forall id | id in RangeSpec(m, pairs).0 && id !in m && id != pairs[|pairs| - 1].0.id
        ensures exists i :: 0 <= i < |pairs| && pairs[i].0.id == id
      {
        var i :| 0 <= i < |front| && front[i].0.id == id;
        assert pairs[i] == front[i];
      }
    }
  }

  /** A range fails exactly at a pair whose type is not an entry type or is already mapped to another
      name; the error names which. */
  lemma {:induction false} RangeSpecFail(m: map<TypeId, string>, pairs: seq<(TypeDesc, string)>)
    requires RangeSpec(m, pairs).1.Fail?
    ensures exists i :: (0 <= i < |pairs| && WithSpec(RangeSpec(m, pairs[..i]).0, pairs[i].0, pairs[i].1).Err? &&
                         RangeSpec(m, pairs).1.error == WithSpec(RangeSpec(m, pairs[..i]).0, pairs[i].0, pairs[i].1).error &&
                         RangeSpec(m, pairs).0 == RangeSpec(m, pairs[..i]).0)
  {
    var front := pairs[..|pairs| - 1];
    if RangeSpec(m, front).1.Fail? {
      RangeSpecFail(m, front);
      var i :| 0 <= i < |front| && WithSpec(RangeSpec(m, front[..i]).0, front[i].0, front[i].1).Err? &&
        RangeSpec(m, front).1.error == WithSpec(RangeSpec(m, front[..i]).0, front[i].0, front[i].1).error &&
        RangeSpec(m, front).0 == RangeSpec(m, front[..i]).0;
      assert front[..i] == pairs[..i];
    } else {
      assert pairs[..|pairs| - 1] == front;
    }
  }

  class TypeMapBuilder {
    /** The pairs added so far (the ImmutableDictionary builder). */
    var entries: map<TypeId, string>

    constructor ()
      ensures entries == map[]
    {
      entries := map[];
    }

    /** With(type, name): the builder itself comes back, for chaining, unless Add throws. */
    method With(t: TypeDesc, name: string) returns (self: TypeMapBuilder, r: Outcome<Error>)
      modifies this
      ensures self == this
      ensures WithSpec(old(entries), t, name).Ok? ==> r == Pass && entries == WithSpec(old(entries), t, name).value
      ensures WithSpec(old(entries), t, name).Err? ==> r == Fail(WithSpec(old(entries), t, name).error) && entries == old(entries)
    {
      self := this;
      var added := WithSpec(entries, t, name);
      if added.Err? {
        return this, Fail(added.error);
      }
      entries := added.value;
      r := Pass;
    }

    /** With(type): the name comes from the naming rule. */
    method WithType(t: TypeDesc) returns (self: TypeMapBuilder, r: Outcome<Error>)
      modifies this
      ensures self == this
      ensures WithSpec(old(entries), t, TableNameOf(t)).Ok? ==> r == Pass && entries == old(entries)[t.id := TableNameOf(t)]
      ensures WithSpec(old(entries), t, TableNameOf(t)).Err? ==>
        r == Fail(WithSpec(old(entries), t, TableNameOf(t)).error) && entries == old(entries)
    {
      self, r := With(t, TableNameOf(t));
    }

    method WithRange(pairs: seq<(TypeDesc, string)>) returns (self: TypeMapBuilder, r: Outcome<Error>)
      modifies this
      ensures self == this
      ensures (entries, r) == RangeSpec(old(entries), pairs)
    {
      self := this;
      var i := 0;
      while i < |pairs|
        invariant 0 <= i <= |pairs|
        invariant RangeSpec(old(entries), pairs[..i]) == (entries, Pass)
      {
        assert pairs[..i + 1][..i] == pairs[..i];
        var _, added := With(pairs[i].0, pairs[i].1);
        r := added;
        if r.Fail? {
          assert RangeSpec(old(entries), pairs[..i + 1]) == (entries, r);
          RangeSpecFailSticks(old(entries), pairs, i + 1);
          return;
        }
        i := i + 1;
      }
      assert pairs[..i] == pairs;
      r := Pass;
    }

    /** Build: the map of exactly the pairs added so far. */
    method Build() returns (m: map<TypeId, string>)
      ensures m == entries
    {
      m := entries;
    }
  }

  /** Once a range has failed, later pairs change nothing. */
  lemma {:induction false} RangeSpecFailSticks(m: map<TypeId, string>, pairs: seq<(TypeDesc, string)>, n: nat)
    requires n <= |pairs| && RangeSpec(m, pairs[..n]).1.Fail?
    ensures RangeSpec(m, pairs) == RangeSpec(m, pairs[..n])
    decreases |pairs| - n
  {
    if n < |pairs| {
      assert pairs[..n + 1][..n] == pairs[..n];
      RangeSpecFailSticks(m, pairs, n + 1);
    } else {
      assert pairs[..n] == pairs;
    }
  }
}
