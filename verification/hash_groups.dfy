/** Maps from a content hash to the list of paths filed under it, as the
    duplicate finder builds them: `array_merge_recursive` on two such maps,
    the final `array_filter` keeping groups of more than one path, and a
    reference definition of grouping a list of (hash, path) pairs. */
module HashGroups {

  type Groups = map<string, seq<string>>

  /** The paths filed under `k`, empty when `k` is absent. */
  function Lookup(m: Groups, k: string): seq<string> {
    if k in m then m[k] else []
  }

  /** `array_merge_recursive(a, b)` on maps whose values are lists: the key set
      is the union, and under a shared key the lists are concatenated, the list
      of `a` first. */
  function Merge(a: Groups, b: Groups): (r: Groups)
    ensures r.Keys == a.Keys + b.Keys
    ensures forall k | k in a :: a[k] <= r[k]
  {
    map k | k in a.Keys + b.Keys :: Lookup(a, k) + Lookup(b, k)
  }

  /** Merging loses no key and no path: a key of either side stays, a shared key
      holds both lists one after the other, any other key keeps its own list. */
  lemma MergeKeepsKeysAndPaths(a: Groups, b: Groups)
    ensures forall k :: k in Merge(a, b) <==> k in a || k in b
    ensures forall k | k in a && k in b :: Merge(a, b)[k] == a[k] + b[k]
    ensures forall k | k in a && k !in b :: Merge(a, b)[k] == a[k]
    ensures forall k | k !in a && k in b :: Merge(a, b)[k] == b[k]
  {
  }

  /** The empty map is a neutral element of the merge. */
  lemma MergeEmpty(a: Groups)
    ensures Merge(map[], a) == a
    ensures Merge(a, map[]) == a
  {
    forall k | k in a ensures Merge(a, map[])[k] == a[k] && Merge(map[], a)[k] == a[k] {
      assert a[k] + [] == a[k];
      assert [] + a[k] == a[k];
    }
  }

  /** Looking a key up in a merge concatenates the two lookups. */
  lemma MergeLookup(a: Groups, b: Groups, k: string)
    ensures Lookup(Merge(a, b), k) == Lookup(a, k) + Lookup(b, k)
  {
  }

  /** Merging is associative, so a left-to-right loop of merges may be regrouped. */
  lemma MergeAssociative(a: Groups, b: Groups, c: Groups)
    ensures Merge(Merge(a, b), c) == Merge(a, Merge(b, c))
  {
    var l := Merge(Merge(a, b), c);
    var r := Merge(a, Merge(b, c));
    forall k | k in l ensures l[k] == r[k] {
      MergeAssociativeAt(a, b, c, k);
    }
  }

  lemma MergeAssociativeAt(a: Groups, b: Groups, c: Groups, k: string)
    ensures Lookup(Merge(Merge(a, b), c), k) == Lookup(Merge(a, Merge(b, c)), k)
  {
    MergeLookup(a, b, k);
    MergeLookup(b, c, k);
    MergeLookup(Merge(a, b), c, k);
    MergeLookup(a, Merge(b, c), k);
    ConcatAssociative(Lookup(a, k), Lookup(b, k), Lookup(c, k));
  }

  lemma ConcatAssociative(x: seq<string>, y: seq<string>, z: seq<string>)
    ensures (x + y) + z == x + (y + z)
  {
  }

  /** The final `array_filter`: exactly the groups with more than one path, unchanged. */
  function KeepGroups(m: Groups): (r: Groups)
    ensures forall k :: k in r <==> k in m && |m[k]| > 1
    ensures forall k | k in r :: r[k] == m[k]
  {
    map k | k in m && |m[k]| > 1 :: m[k]
  }

  /** Reference grouping: every (hash, path) pair files its path under its hash,
      in list order. */
  function Group(pairs: seq<(string, string)>): Groups
    decreases |pairs|
  {
    if pairs == [] then map[]
    else Merge(map[pairs[0].0 := [pairs[0].1]], Group(pairs[1..]))
  }

  /** The paths of the pairs whose hash is `k`, in list order. */
  function PathsUnder(pairs: seq<(string, string)>, k: string): (r: seq<string>)
    ensures |r| <= |pairs|
    decreases |pairs|
  {
    if pairs == [] then []
    else (if pairs[0].0 == k then [pairs[0].1] else []) + PathsUnder(pairs[1..], k)
  }

  /** The group of `k` is exactly the list of paths whose hash is `k`, and `k`
      is a key exactly when some pair has it. */
  lemma {:induction false} GroupIsPathsUnder(pairs: seq<(string, string)>, k: string)
    ensures Lookup(Group(pairs), k) == PathsUnder(pairs, k)
    ensures k in Group(pairs) <==> PathsUnder(pairs, k) != []
    decreases |pairs|
  {
    if pairs != [] {
      GroupIsPathsUnder(pairs[1..], k);
      var rest := Group(pairs[1..]);
      var single: Groups := map[pairs[0].0 := [pairs[0].1]];
      assert Lookup(Group(pairs), k) == Lookup(single, k) + Lookup(rest, k);
    }
  }

  /** Filtering the reference grouping: a hash survives exactly when more than
      one pair carries it, with the list of those pairs' paths. */
  lemma KeepGroupsOfGroup(pairs: seq<(string, string)>)
    ensures var r := KeepGroups(Group(pairs));
      && (forall k :: k in r <==> |PathsUnder(pairs, k)| > 1)
      && (forall k | k in r :: r[k] == PathsUnder(pairs, k))
  {
    var g := Group(pairs);
    forall k ensures k in g ==> g[k] == PathsUnder(pairs, k)
      ensures k !in g ==> PathsUnder(pairs, k) == []
    {
      GroupIsPathsUnder(pairs, k);
    }
  }

  /** Two paths under one hash form one reported group. */
  lemma KeepPairGroup(k: string, p: string, q: string)
    ensures KeepGroups(Group([(k, p), (k, q)])) == map[k := [p, q]]
  {
    var pairs := [(k, p), (k, q)];
    assert pairs[1..] == [(k, q)] && pairs[1..][1..] == [];
    MergeEmpty(map[k := [q]]);
    assert Group(pairs[1..]) == map[k := [q]];
    var g := Merge(map[k := [p]], map[k := [q]]);
    assert Group(pairs) == g;
    MergeLookup(map[k := [p]], map[k := [q]], k);
    assert g.Keys == {k} && g[k] == [p] + [q] == [p, q];
  }

  /** Grouping a concatenation merges the groupings of the two parts. */
  lemma {:induction false} GroupAppend(a: seq<(string, string)>, b: seq<(string, string)>)
    ensures Group(a + b) == Merge(Group(a), Group(b))
    decreases |a|
  {
    if a == [] {
      assert a + b == b;
      MergeEmpty(Group(b));
    } else {
      assert (a + b)[0] == a[0];
      assert (a + b)[1..] == a[1..] + b;
      GroupAppend(a[1..], b);
      MergeAssociative(map[a[0].0 := [a[0].1]], Group(a[1..]), Group(b));
    }
  }

  /** A path whose pair carries hash `k` is listed under `k`. */
  lemma {:induction false} PathsUnderContains(pairs: seq<(string, string)>, i: nat)
    requires i < |pairs|
    ensures pairs[i].1 in PathsUnder(pairs, pairs[i].0)
    decreases |pairs|
  {
    if i > 0 {
      PathsUnderContains(pairs[1..], i - 1);
    }
  }

  /** Two distinct pairs with the same hash make that hash's list at least two long. */
  lemma {:induction false} PathsUnderTwo(pairs: seq<(string, string)>, i: nat, j: nat)
    requires i < j < |pairs|
    requires pairs[i].0 == pairs[j].0
    ensures |PathsUnder(pairs, pairs[i].0)| >= 2
    decreases |pairs|
  {
    if i == 0 {
      PathsUnderContains(pairs[1..], j - 1);
    } else {
      PathsUnderTwo(pairs[1..], i - 1, j - 1);
    }
  }

  /** A hash carried by exactly one pair lists exactly one path. */
  lemma {:induction false} PathsUnderLone(pairs: seq<(string, string)>, i: nat)
    requires i < |pairs|
    requires forall j | 0 <= j < |pairs| && j != i :: pairs[j].0 != pairs[i].0
    ensures PathsUnder(pairs, pairs[i].0) == [pairs[i].1]
    decreases |pairs|
  {
    if i == 0 {
      PathsUnderAbsent(pairs[1..], pairs[0].0);
    } else {
      PathsUnderLone(pairs[1..], i - 1);
    }
  }

  /** A hash no pair carries lists nothing. */
  lemma {:induction false} PathsUnderAbsent(pairs: seq<(string, string)>, k: string)
    requires forall j | 0 <= j < |pairs| :: pairs[j].0 != k
    ensures PathsUnder(pairs, k) == []
    decreases |pairs|
  {
    if pairs != [] {
      PathsUnderAbsent(pairs[1..], k);
    }
  }
}
