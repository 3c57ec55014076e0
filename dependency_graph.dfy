/** rDB/DependencyGraph.cs: a dictionary from each key to its set of dependency keys, solved into a
    dependencies-first order by repeatedly removing a key whose set is empty. */
module DependencyGraphs {
  import opened Wrappers
  import opened Errors
  import opened DependencySolving

  class DependencyGraph<T(==,!new)> {
    /** The dictionary's keys in insertion order (its enumeration order, since a key is only ever
        removed from the working copy that Solve discards). */
    var keys: seq<T>
    /** Each key's current dependency set. */
    var tree: map<T, set<T>>

    ghost predicate Valid()
      reads this
    {
      WellFormed(keys, tree)
    }

    constructor ()
      ensures Valid() && keys == [] && tree == map[]
    {
      keys := [];
      tree := map[];
    }

    /** The private copy constructor: the same keys in the same order, each with a copy of its set. */
    constructor Copy(other: DependencyGraph<T>)
      requires other.Valid()
      ensures Valid() && keys == other.keys && tree == other.tree
    {
      keys := [];
      tree := map[];
      new;
      var i := 0;
      while i < |other.keys|
        invariant 0 <= i <= |other.keys|
        invariant keys == other.keys[..i]
        invariant forall k :: k in tree <==> k in other.keys[..i]
        invariant forall k | k in tree :: tree[k] == other.tree[k]
      {
        var k := other.keys[i];
        keys := keys + [k];
        tree := tree[k := other.tree[k]];
        i := i + 1;
      }
      assert keys == other.keys;
      assert tree.Keys == other.tree.Keys;
    }

    /** Registers a key with its dependencies; duplicate dependencies collapse into one set, and a
        key that is already present makes the dictionary throw. */
    method Add(entry: T, dependencies: seq<T>) returns (r: Outcome<Error>)
      requires Valid()
      modifies this
      ensures Valid()
      ensures r.Fail? <==> entry in old(tree)
      ensures r.Fail? ==> r.error == DuplicateKey && keys == old(keys) && tree == old(tree)
      ensures r.Pass? ==> keys == old(keys) + [entry]
      ensures r.Pass? ==> tree == old(tree)[entry := set d | d in dependencies]
    {
      if entry in tree {
        return Fail(DuplicateKey);
      }
      keys := keys + [entry];
      tree := tree[entry := set d | d in dependencies];
      r := Pass;
    }

    /** The first key, in dictionary order, whose dependency set is empty; no value when the graph is
        empty; a failure when nodes remain but none is ready. */
    method Find() returns (r: Result<Option<T>, Error>)
      requires Valid()
      ensures r == FindSpec(keys, tree)
      ensures r.Ok? && r.value.Some? ==> r.value.value in keys && tree[r.value.value] == {}
      ensures (r.Ok? && r.value.None?) <==> |keys| == 0
      ensures r.Err? <==> |keys| > 0 && forall k | k in keys :: tree[k] != {}
    {
      if |keys| == 0 {
        return Ok(None);
      }
      var i := 0;
      while i < |keys|
        invariant 0 <= i <= |keys|
        invariant forall j :: 0 <= j < i ==> tree[keys[j]] != {}
      {
        if tree[keys[i]] == {} {
          FirstReadyAt(keys, tree, i);
          return Ok(Some(keys[i]));
        }
        i := i + 1;
      }
      return Err(UnsolvableDependencies);
    }

    /** Deletes the key, then strips it from every remaining dependency set. */
    method Remove(entry: T)
      requires Valid()
      modifies this
      ensures Valid()
      ensures keys == Without(old(keys), entry)
      ensures tree == RemoveFromTree(old(tree), entry)
    {
      tree := tree - {entry};
      keys := Without(keys, entry);
      tree := StripFromSets(tree, keys, entry);
    }

    /** Solves a fresh copy, so the registered graph is left as it was (Solve modifies nothing). */
    method Solve() returns (r: Result<seq<T>, Error>)
      requires Valid()
      ensures r == SolveSpec(keys, tree)
      ensures r.Ok? ==> IsTopologicalOrder(keys, tree, r.value)
      ensures r.Err? ==> r.error == UnsolvableDependencies
      ensures r.Err? ==> forall order :: !IsTopologicalOrder(keys, tree, order)
    {
      var clone := new DependencyGraph.Copy(this);
      var order: seq<T> := [];
      assert Prepend(order, SolveSpec(clone.keys, clone.tree)) == SolveSpec(keys, tree) by {
        match SolveSpec(keys, tree)
        case Ok(s) => assert order + s == s;
        case Err(_) =>
      }
      while true
        invariant fresh(clone) && clone.Valid()
        invariant SolveSpec(keys, tree) == Prepend(order, SolveSpec(clone.keys, clone.tree))
        decreases |clone.keys|
      {
        var found := clone.Find();
        match found
        case Err(e) =>
          SolveCorrect(keys, tree);
          return Err(e);
        case Ok(None) =>
          assert order + [] == order;
          SolveCorrect(keys, tree);
          return Ok(order);
        case Ok(Some(k)) =>
          ghost var ks, t := clone.keys, clone.tree;
          assert SolveSpec(ks, t) == Prepend([k], SolveSpec(Without(ks, k), RemoveFromTree(t, k)));
          clone.Remove(k);
          PrependTwice(order, [k], SolveSpec(clone.keys, clone.tree));
          order := order + [k];
      }
    }
  }

  /** The loop of Remove over the remaining sets: take entry out of the set of every key in ks. */
  method StripFromSets<T(==,!new)>(tree: map<T, set<T>>, ks: seq<T>, entry: T) returns (t: map<T, set<T>>)
    requires Distinct(ks) && forall k :: k in tree <==> k in ks
    ensures forall k :: k in t <==> k in tree
    ensures forall k | k in t :: t[k] == tree[k] - {entry}
  {
    t := tree;
    var i := 0;
    while i < |ks|
      invariant 0 <= i <= |ks|
      invariant forall k :: k in t <==> k in tree
      invariant forall j :: 0 <= j < i ==> t[ks[j]] == tree[ks[j]] - {entry}
      invariant forall j :: i <= j < |ks| ==> t[ks[j]] == tree[ks[j]]
    {
      t := t[ks[i] := t[ks[i]] - {entry}];
      i := i + 1;
    }
    forall k | k in t ensures t[k] == tree[k] - {entry} {
      var j :| 0 <= j < |ks| && ks[j] == k;
    }
  }
}
