/** The dependency solver of rDB/DependencyGraph.cs as functions over a graph state: the keys in
    dictionary (insertion) order and each key's current dependency set. The class in
    DependencyGraphs runs these steps in place; the lemmas here say what a solution means. */
module DependencySolving {
  import opened Wrappers
  import opened Errors

  predicate Distinct<T(==)>(s: seq<T>) {
    forall i, j :: 0 <= i < j < |s| ==> s[i] != s[j]
  }

  /** The dictionary's keys are exactly the ordered, duplicate-free key sequence. */
  ghost predicate WellFormed<T(!new)>(keys: seq<T>, tree: map<T, set<T>>) {
    Distinct(keys) && forall k :: k in tree <==> k in keys
  }

  /** The key sequence with every occurrence of e taken out, order kept. */
  function Without<T(==,!new)>(s: seq<T>, e: T): (r: seq<T>)
    ensures forall x :: x in r <==> x in s && x != e
    ensures Distinct(s) ==> Distinct(r)
    ensures e in s ==> |r| < |s|
    ensures |r| <= |s|
  {
    if |s| == 0 then []
    else if s[|s| - 1] == e then Without(s[..|s| - 1], e)
    else
      var front := Without(s[..|s| - 1], e);
      assert Distinct(s) ==> s[|s| - 1] !in s[..|s| - 1];
      front + [s[|s| - 1]]
  }

  /** The first key, in dictionary order, whose dependency set is currently empty. */
  function FirstReady<T>(keys: seq<T>, tree: map<T, set<T>>): (r: Option<T>)
    requires forall k | k in keys :: k in tree
    ensures r.None? <==> forall k | k in keys :: tree[k] != {}
    ensures r.Some? ==> exists i :: 0 <= i < |keys| && keys[i] == r.value && tree[r.value] == {} &&
                                    forall j :: 0 <= j < i ==> tree[keys[j]] != {}
  {
    if |keys| == 0 then None
    else if tree[keys[0]] == {} then Some(keys[0])
    else
      var r := FirstReady(keys[1..], tree);
      assert forall k | k in keys :: k == keys[0] || k in keys[1..];
      if r.Some? then
        var i :| 0 <= i < |keys[1..]| && keys[1..][i] == r.value && tree[r.value] == {} &&
                 forall j :: 0 <= j < i ==> tree[keys[1..][j]] != {};
        assert keys[i + 1] == r.value;
        assert forall j :: 0 <= j < i + 1 ==> tree[keys[j]] != {} by {
          forall j | 0 <= j < i + 1 ensures tree[keys[j]] != {} {
            if j > 0 { assert keys[j] == keys[1..][j - 1]; }
          }
        }
        r
      else r
  }

  /** Find: no value for an empty graph, the first ready key otherwise, and a failure when
      nodes remain but none is ready. */
  function FindSpec<T>(keys: seq<T>, tree: map<T, set<T>>): Result<Option<T>, Error>
    requires forall k | k in keys :: k in tree
  {
    if |keys| == 0 then Ok(None)
    else match FirstReady(keys, tree)
      case Some(k) => Ok(Some(k))
      case None => Err(UnsolvableDependencies)
  }

  /** The dependency map after Remove(e): e is gone as a key and from every remaining set. */
  function RemoveFromTree<T(!new)>(tree: map<T, set<T>>, e: T): (r: map<T, set<T>>)
    ensures forall k :: k in r <==> k in tree && k != e
    ensures forall k | k in r :: r[k] == tree[k] - {e}
  {
    map k | k in tree && k != e :: tree[k] - {e}
  }

  /** Prepend emitted keys to a solution, or pass a failure through. */
  function Prepend<T>(prefix: seq<T>, rest: Result<seq<T>, Error>): Result<seq<T>, Error> {
    match rest
    case Ok(s) => Ok(prefix + s)
    case Err(e) => Err(e)
  }

  /** The sequence DependencyGraph.Solve yields: repeatedly emit and remove the first ready key. */
  function SolveSpec<T(!new)>(keys: seq<T>, tree: map<T, set<T>>): Result<seq<T>, Error>
    requires WellFormed(keys, tree)
    decreases |keys|
  {
    if |keys| == 0 then Ok([])
    else match FirstReady(keys, tree)
      case None => Err(UnsolvableDependencies)
      case Some(k) => Prepend([k], SolveSpec(Without(keys, k), RemoveFromTree(tree, k)))
  }

  /** order lists every key exactly once, each after all of its dependencies. */
  ghost predicate IsTopologicalOrder<T(!new)>(keys: seq<T>, tree: map<T, set<T>>, order: seq<T>)
    requires WellFormed(keys, tree)
  {
    && Distinct(order)
    && (forall x :: x in order <==> x in keys)
    && forall i, d :: 0 <= i < |order| && d in tree[order[i]] ==> d in order[..i]
  }

  /** A non-empty set of keys each of which waits on a key of the set or on a key never added:
      the witness that no order exists (a cycle, a self-loop, or an unresolved dependency). */
  ghost predicate Blocked<T(!new)>(keys: seq<T>, tree: map<T, set<T>>, s: set<T>)
    requires WellFormed(keys, tree)
  {
    && s != {}
    && (forall x | x in s :: x in keys)
    && forall x | x in s :: exists d :: d in tree[x] && (d in s || d !in keys)
  }

  lemma RemoveKeepsWellFormed<T(!new)>(keys: seq<T>, tree: map<T, set<T>>, k: T)
    requires WellFormed(keys, tree)
    ensures WellFormed(Without(keys, k), RemoveFromTree(tree, k))
  {
  }

  /** Solving an empty graph yields an empty sequence. */
  lemma SolveEmpty<T(!new)>()
    ensures SolveSpec<T>([], map[]) == Ok([])
  {
  }

  /** Emitting a ready key in front of an order of the remaining graph orders the whole graph. */
  lemma ConsIsTopologicalOrder<T(!new)>(keys: seq<T>, tree: map<T, set<T>>, k: T, rest: seq<T>)
    requires WellFormed(keys, tree)
    requires k in keys && tree[k] == {}
    requires WellFormed(Without(keys, k), RemoveFromTree(tree, k))
    requires IsTopologicalOrder(Without(keys, k), RemoveFromTree(tree, k), rest)
    ensures IsTopologicalOrder(keys, tree, [k] + rest)
  {
    var t := RemoveFromTree(tree, k);
    var order := [k] + rest;
    assert k !in rest;
    assert Distinct(order) by {
      forall i, j | 0 <= i < j < |order| ensures order[i] != order[j] {
        if i > 0 { assert order[i] == rest[i - 1] && order[j] == rest[j - 1]; }
        else { assert order[j] in rest; }
      }
    }
    forall i, d | 0 <= i < |order| && d in tree[order[i]] ensures d in order[..i] {
      if i > 0 {
        assert order[i] == rest[i - 1];
        assert order[..i] == [k] + rest[..i - 1];
        if d != k {
          assert d in t[rest[i - 1]];
        }
      }
    }
  }

  /** A successful solve is a topological order of the graph. */
  lemma {:induction false} SolveSound<T(!new)>(keys: seq<T>, tree: map<T, set<T>>)
    requires WellFormed(keys, tree)
    requires SolveSpec(keys, tree).Ok?
    ensures IsTopologicalOrder(keys, tree, SolveSpec(keys, tree).value)
    decreases |keys|
  {
    if |keys| > 0 {
      var k := FirstReady(keys, tree).value;
      var ks, t := Without(keys, k), RemoveFromTree(tree, k);
      RemoveKeepsWellFormed(keys, tree, k);
      SolveSound(ks, t);
      ConsIsTopologicalOrder(keys, tree, k, SolveSpec(ks, t).value);
    }
  }

  /** A failing solve leaves a blocked set behind. */
  lemma {:induction false} SolveFailureWitness<T(!new)>(keys: seq<T>, tree: map<T, set<T>>) returns (s: set<T>)
    requires WellFormed(keys, tree)
    requires SolveSpec(keys, tree).Err?
    ensures Blocked(keys, tree, s)
    decreases |keys|
  {
    var r := FirstReady(keys, tree);
    if r.None? {
      s := set k | k in keys;
      assert keys[0] in s;
      forall x | x in s ensures exists d :: d in tree[x] && (d in s || d !in keys) {
        var d :| d in tree[x];
        assert d in s || d !in keys;
      }
    } else {
      var k := r.value;
      var ks, t := Without(keys, k), RemoveFromTree(tree, k);
      RemoveKeepsWellFormed(keys, tree, k);
      s := SolveFailureWitness(ks, t);
      forall x | x in s ensures exists d :: d in tree[x] && (d in s || d !in keys) {
        var d :| d in t[x] && (d in s || d !in ks);
        assert d in tree[x];
      }
    }
  }

  /** The first position of the order that holds an element of s. */
  lemma {:induction false} FirstInSet<T>(order: seq<T>, s: set<T>) returns (i: nat)
    requires exists x :: x in order && x in s
    ensures i < |order| && order[i] in s
    ensures forall j :: 0 <= j < i ==> order[j] !in s
  {
    if order[0] in s {
      i := 0;
    } else {
      var x :| x in order && x in s;
      assert x in order[1..];
      var i' := FirstInSet(order[1..], s);
      i := i' + 1;
      forall j | 0 <= j < i ensures order[j] !in s {
        if j > 0 { assert order[j] == order[1..][j - 1]; }
      }
    }
  }

  /** Against a blocked set, any order of the keys places some key before one of its
      dependencies (or relies on a key never added). */
  lemma BlockedViolation<T(!new)>(keys: seq<T>, tree: map<T, set<T>>, s: set<T>, order: seq<T>)
    returns (i: nat, d: T)
    requires WellFormed(keys, tree)
    requires Blocked(keys, tree, s)
    requires forall x :: x in order <==> x in keys
    ensures i < |order| && d in tree[order[i]] && d !in order[..i]
  {
    var x :| x in s;
    assert x in order;
    i := FirstInSet(order, s);
    d :| d in tree[order[i]] && (d in s || d !in keys);
    forall j | 0 <= j < i ensures order[j] != d {
      assert order[j] !in s && order[j] in keys;
    }
  }

  /** Solve succeeds exactly when the graph has a topological order, and then returns one. */
  lemma SolveCorrect<T(!new)>(keys: seq<T>, tree: map<T, set<T>>)
    requires WellFormed(keys, tree)
    ensures SolveSpec(keys, tree).Ok? ==> IsTopologicalOrder(keys, tree, SolveSpec(keys, tree).value)
    ensures SolveSpec(keys, tree).Err? ==> forall order :: !IsTopologicalOrder(keys, tree, order)
  {
    if SolveSpec(keys, tree).Ok? {
      SolveSound(keys, tree);
    } else {
      var s := SolveFailureWitness(keys, tree);
      forall order ensures !IsTopologicalOrder(keys, tree, order) {
        if forall x :: x in order <==> x in keys {
          var i, d := BlockedViolation(keys, tree, s, order);
        }
      }
    }
  }

  /** A graph holding a cycle of keys (a self-loop is a cycle of one) cannot be solved. */
  lemma CycleFails<T(!new)>(keys: seq<T>, tree: map<T, set<T>>, cycle: seq<T>)
    requires WellFormed(keys, tree)
    requires |cycle| > 0 && forall i :: 0 <= i < |cycle| ==> cycle[i] in keys
    requires forall i :: 0 <= i < |cycle| - 1 ==> cycle[i + 1] in tree[cycle[i]]
    requires cycle[0] in tree[cycle[|cycle| - 1]]
    ensures SolveSpec(keys, tree).Err?
  {
    var s := set x | x in cycle;
    assert cycle[0] in s;
    forall x | x in s ensures exists d :: d in tree[x] && (d in s || d !in keys) {
      var i :| 0 <= i < |cycle| && cycle[i] == x;
      if i < |cycle| - 1 {
        assert cycle[i + 1] in tree[x] && cycle[i + 1] in s;
      } else {
        assert cycle[0] in tree[x];
      }
    }
    if SolveSpec(keys, tree).Ok? {
      SolveSound(keys, tree);
      var i, d := BlockedViolation(keys, tree, s, SolveSpec(keys, tree).value);
    }
  }

  /** A key depending on a key that was never added cannot be solved. */
  lemma UnresolvedDependencyFails<T(!new)>(keys: seq<T>, tree: map<T, set<T>>, k: T, d: T)
    requires WellFormed(keys, tree)
    requires k in keys && d in tree[k] && d !in keys
    ensures SolveSpec(keys, tree).Err?
  {
    if SolveSpec(keys, tree).Ok? {
      SolveSound(keys, tree);
    }
  }

  /** A ready key with no ready key before it is the one FirstReady picks. */
  lemma FirstReadyAt<T>(keys: seq<T>, tree: map<T, set<T>>, i: nat)
    requires forall k | k in keys :: k in tree
    requires i < |keys| && tree[keys[i]] == {}
    requires forall j :: 0 <= j < i ==> tree[keys[j]] != {}
    ensures FirstReady(keys, tree) == Some(keys[i])
  {
    var r := FirstReady(keys, tree);
    var i' :| 0 <= i' < |keys| && keys[i'] == r.value && tree[r.value] == {} &&
              forall j :: 0 <= j < i' ==> tree[keys[j]] != {};
    assert i' == i;
  }

  lemma PrependTwice<T>(a: seq<T>, b: seq<T>, rest: Result<seq<T>, Error>)
    ensures Prepend(a, Prepend(b, rest)) == Prepend(a + b, rest)
  {
    match rest
    case Ok(s) => assert a + (b + s) == (a + b) + s;
    case Err(_) =>
  }
}
