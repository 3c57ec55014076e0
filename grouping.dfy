/** The group-by-attribute step shared by DatabaseEntry.GetForeignKeys and GetIndices
    (rDB/DatabaseEntry.cs:90-127): a dictionary from an attribute to the set of member names that
    carry it, keys in insertion order, each set in insertion order. */
module Groupings {
  import opened DependencySolving

  /** The dictionary being built: its keys in insertion order and the name set of each key. */
  datatype Groups<K> = Groups(keys: seq<K>, members: map<K, seq<string>>)

  ghost predicate Valid<K(!new)>(g: Groups<K>) {
    && Distinct(g.keys)
    && (forall k :: k in g.members <==> k in g.keys)
    && (forall k :: k in g.members ==> |g.members[k]| > 0 && Distinct(g.members[k]))
  }

  /** HashSet.Add: a name already present is not added again. */
  function AddName(s: seq<string>, x: string): (r: seq<string>)
    ensures Distinct(s) ==> Distinct(r)
    ensures forall y :: y in r <==> y in s || y == x
  {
    if x in s then s else s + [x]
  }

  /** One loop step: TryGetValue finds the key and its set gets the name, or the key is added
      with a one-name set. */
  function AddMember<K>(g: Groups<K>, name: string, k: K): Groups<K> {
    if k in g.members then g.(members := g.members[k := AddName(g.members[k], name)])
    else Groups(g.keys + [k], g.members[k := [name]])
  }

  /** The dictionary after the loop has seen every (member name, attribute) pair in order. */
  function GroupSpec<K>(ms: seq<(string, K)>): Groups<K> {
    if |ms| == 0 then Groups([], map[])
    else AddMember(GroupSpec(ms[..|ms| - 1]), ms[|ms| - 1].0, ms[|ms| - 1].1)
  }

  /** The keys are distinct, each has a nonempty set of distinct names, and nothing else is mapped. */
  lemma {:induction false} GroupSpecValid<K(!new)>(ms: seq<(string, K)>)
    ensures Valid(GroupSpec(ms))
  {
    if |ms| > 0 {
      GroupSpecValid(ms[..|ms| - 1]);
    }
  }

  /** The keys are exactly the attributes that occur. */
  lemma {:induction false} GroupSpecKeys<K(!new)>(ms: seq<(string, K)>)
    ensures forall k :: k in GroupSpec(ms).keys <==> exists i :: 0 <= i < |ms| && ms[i].1 == k
  {
    if |ms| > 0 {
      var front := ms[..|ms| - 1];
      var last := ms[|ms| - 1];
      GroupSpecKeys(front);
      GroupSpecValid(front);
      forall k
        ensures k in GroupSpec(ms).keys <==> exists i :: 0 <= i < |ms| && ms[i].1 == k
      {
        if k in GroupSpec(ms).keys && k != last.1 {
          var i :| 0 <= i < |front| && front[i].1 == k;
          assert ms[i] == front[i];
        }
        if exists i :: 0 <= i < |ms| && ms[i].1 == k {
          var i :| 0 <= i < |ms| && ms[i].1 == k;
          if i < |front| {
            assert front[i] == ms[i];
          }
        }
      }
    }
  }

  /** A name is in a key's set exactly when that name was paired with that attribute. */
  lemma {:induction false} GroupSpecMembers<K(!new)>(ms: seq<(string, K)>)
    ensures forall k, x :: k in GroupSpec(ms).members ==> (x in GroupSpec(ms).members[k] <==> (x, k) in ms)
  {
    if |ms| > 0 {
      var front := ms[..|ms| - 1];
      var last := ms[|ms| - 1];
      var g := GroupSpec(front);
      GroupSpecMembers(front);
      GroupSpecKeys(front);
      GroupSpecValid(front);
      assert ms == front + [last];
      forall k, x | k in GroupSpec(ms).members
        ensures x in GroupSpec(ms).members[k] <==> (x, k) in ms
      {
        assert (x, k) in ms <==> (x, k) in front || (x, k) == last;
      }
    }
  }

  /** When every member name occurs once (a type's property names are distinct), each member sits in
      the set of exactly one key: the attribute it carries. */
  lemma ExactlyOneGroup<K(!new)>(ms: seq<(string, K)>, i: nat, k: K)
    requires i < |ms|
    requires forall a, b :: 0 <= a < b < |ms| ==> ms[a].0 != ms[b].0
    requires k in GroupSpec(ms).members
    ensures ms[i].0 in GroupSpec(ms).members[k] <==> k == ms[i].1
  {
    GroupSpecMembers(ms);
    if ms[i].0 in GroupSpec(ms).members[k] {
      var j :| 0 <= j < |ms| && ms[j] == (ms[i].0, k);
      assert j == i;
    }
  }

  /** GetForeignKeys / GetIndices: the foreach over the annotated members, filling the dictionary. */
  method Aggregate<K(!new)>(ms: seq<(string, K)>) returns (g: Groups<K>)
    ensures g == GroupSpec(ms)
    ensures Valid(g)
    ensures forall k :: k in g.keys <==> exists i :: 0 <= i < |ms| && ms[i].1 == k
    ensures forall k, x :: k in g.members ==> (x in g.members[k] <==> (x, k) in ms)
  {
    g := Groups([], map[]);
    var i := 0;
    while i < |ms|
      invariant 0 <= i <= |ms|
      invariant g == GroupSpec(ms[..i])
    {
      assert ms[..i + 1][..i] == ms[..i];
      var (name, k) := ms[i];
      if k in g.members {
        g := g.(members := g.members[k := AddName(g.members[k], name)]);
      } else {
        g := Groups(g.keys + [k], g.members[k := [name]]);
      }
      i := i + 1;
    }
    assert ms[..i] == ms;
    GroupSpecValid(ms);
    GroupSpecKeys(ms);
    GroupSpecMembers(ms);
  }
}
