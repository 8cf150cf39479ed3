/** The `objects` dictionaries of mask_to_objects_3d and mask_to_objects_3dt:
    integer labels mapped to lists, with Python's insertion order kept so
    that `objects.values()` is a sequence. */
module Grouping {

  /** A dictionary from labels to lists; `order` lists the keys in the order
      they were first inserted. */
  datatype Groups<T> = Groups(order: seq<int>, members: map<int, seq<T>>)

  /** The empty dictionary, `dict()`. */
  function NoGroups<T>(): (g: Groups<T>)
    ensures GroupsWf(g) && g.order == [] && g.members == map[]
  {
    Groups([], map[])
  }

  /** Keys listed once each, in the dictionary and only there, and every list
      holding at least one element (a list is only ever created by appending
      to it). */
  predicate GroupsWf<T>(g: Groups<T>)
  {
    && (forall i, j :: 0 <= i < j < |g.order| ==> g.order[i] != g.order[j])
    && (forall k :: k in g.members ==> k in g.order)
    && (forall i :: 0 <= i < |g.order| ==> g.order[i] in g.members)
    && (forall k :: k in g.members ==> |g.members[k]| > 0)
  }

  /** `objects.get(label, [])` */
  function Get<T>(g: Groups<T>, key: int): seq<T>
  {
    if key in g.members then g.members[key] else []
  }

  /** `objects[label] = objects.get(label, []) + [x]`; a new key goes last in
      insertion order. */
  function Add<T>(g: Groups<T>, key: int, x: T): Groups<T>
  {
    Groups(if key in g.members then g.order else g.order + [key], g.members[key := Get(g, key) + [x]])
  }

  /** `objects.values()`: the lists in insertion order of their keys. */
  function Values<T>(g: Groups<T>): (vs: seq<seq<T>>)
    requires GroupsWf(g)
    ensures |vs| == |g.order|
    ensures forall i :: 0 <= i < |vs| ==> vs[i] == g.members[g.order[i]]
    ensures forall i :: 0 <= i < |vs| ==> |vs[i]| > 0
  {
    var vs := seq(|g.order|, i requires 0 <= i < |g.order| => g.members[g.order[i]]);
    assert forall i :: 0 <= i < |vs| ==> vs[i] == g.members[g.order[i]];
    assert forall i :: 0 <= i < |vs| ==> g.order[i] in g.members;
    assert forall i :: 0 <= i < |vs| ==> |g.members[g.order[i]]| > 0;
    vs
  }

  /** Appending under a key extends that key's list by exactly that element,
      leaves every other key's list as it was, and puts the key at the end of
      the insertion order only if it was not there yet. */
  lemma AddEffect<T>(g: Groups<T>, key: int, x: T, other: int)
    requires GroupsWf(g)
    ensures Get(Add(g, key, x), key) == Get(g, key) + [x]
    ensures other != key ==> Get(Add(g, key, x), other) == Get(g, other)
    ensures key in g.members ==> Add(g, key, x).order == g.order
    ensures key !in g.members ==> Add(g, key, x).order == g.order + [key]
  {
  }

  /** What is still to be appended under `other` after x went under `key`:
      the list seen before plus x (if the keys agree) plus the rest is the
      list seen after plus the rest. */
  lemma AddThenRest<T>(g: Groups<T>, key: int, x: T, other: int, rest: seq<T>)
    requires GroupsWf(g)
    ensures Get(g, other) + ((if key == other then [x] else []) + rest) == Get(Add(g, key, x), other) + rest
  {
    AddEffect(g, key, x, other);
    var here := if key == other then [x] else [];
    assert Get(g, other) + (here + rest) == (Get(g, other) + here) + rest;
  }

  /** Appending keeps the dictionary well formed. */
  lemma AddWf<T>(g: Groups<T>, key: int, x: T)
    requires GroupsWf(g)
    ensures GroupsWf(Add(g, key, x))
  {
    var h := Add(g, key, x);
    if key !in g.members {
      assert key !in g.order;
      forall i, j | 0 <= i < j < |h.order|
        ensures h.order[i] != h.order[j]
      {
        if j == |g.order| {
          assert h.order[i] == g.order[i];
        }
      }
    }
  }

  // Insertion order

  /** The keys of `seen` followed by the keys of `ks` not seen before, each
      at its first occurrence: the insertion order a dictionary ends up with
      when the keys of `ks` are inserted, in turn, into one whose order is
      `seen`. */
  function FirstSeen(seen: seq<int>, ks: seq<int>): seq<int>
    decreases |ks|
  {
    if ks == [] then seen
    else FirstSeen(if ks[0] in seen then seen else seen + [ks[0]], ks[1..])
  }

  /** Inserting a + b is inserting a, then b. */
  lemma {:induction false} FirstSeenAppend(seen: seq<int>, a: seq<int>, b: seq<int>)
    ensures FirstSeen(seen, a + b) == FirstSeen(FirstSeen(seen, a), b)
    decreases |a|
  {
    if a == [] {
      assert a + b == b;
    } else {
      assert (a + b)[0] == a[0] && (a + b)[1..] == a[1..] + b;
      FirstSeenAppend(if a[0] in seen then seen else seen + [a[0]], a[1..], b);
    }
  }

  /** The keys seen before stay first, and the result holds exactly the keys
      of `seen` and of `ks`. */
  lemma {:induction false} FirstSeenKeys(seen: seq<int>, ks: seq<int>)
    ensures var r := FirstSeen(seen, ks);
      && |seen| <= |r| && r[..|seen|] == seen
      && forall x :: x in r <==> x in seen || x in ks
    decreases |ks|
  {
    if ks != [] {
      var next := if ks[0] in seen then seen else seen + [ks[0]];
      FirstSeenKeys(next, ks[1..]);
      assert next[..|seen|] == seen;
      assert forall x :: x in ks <==> x == ks[0] || x in ks[1..];
    }
  }

  /** Keys listed once each stay listed once each. */
  lemma {:induction false} FirstSeenDistinct(seen: seq<int>, ks: seq<int>)
    requires forall i, j :: 0 <= i < j < |seen| ==> seen[i] != seen[j]
    ensures forall i, j :: 0 <= i < j < |FirstSeen(seen, ks)| ==> FirstSeen(seen, ks)[i] != FirstSeen(seen, ks)[j]
    decreases |ks|
  {
    if ks != [] {
      var next := if ks[0] in seen then seen else seen + [ks[0]];
      forall i, j | 0 <= i < j < |next|
        ensures next[i] != next[j]
      {
        if j == |seen| {
          assert next[i] == seen[i];
        }
      }
      FirstSeenDistinct(next, ks[1..]);
    }
  }

  /** Each key added after `seen` is new, and sits at its first occurrence
      p in `ks`. */
  lemma {:induction false} FirstSeenPosition(seen: seq<int>, ks: seq<int>, i: nat) returns (p: nat)
    requires |seen| <= i < |FirstSeen(seen, ks)|
    ensures var r := FirstSeen(seen, ks);
      && p < |ks| && ks[p] == r[i] && r[i] !in seen && forall m :: 0 <= m < p ==> ks[m] != r[i]
    decreases |ks|
  {
    var r := FirstSeen(seen, ks);
    var next := if ks[0] in seen then seen else seen + [ks[0]];
    assert r == FirstSeen(next, ks[1..]);
    FirstSeenKeys(next, ks[1..]);
    if i < |next| {
      assert i == |seen| && next[i] == ks[0] && r[..|next|][i] == r[i];
      p := 0;
    } else {
      var q := FirstSeenPosition(next, ks[1..], i);
      p := q + 1;
      assert ks[0] in next;
    }
  }

  /** Keys added after `seen` come in the order of their first occurrences
      in `ks`. */
  lemma {:induction false} FirstSeenOrder(seen: seq<int>, ks: seq<int>, i: nat, j: nat) returns (p: nat, q: nat)
    requires |seen| <= i < j < |FirstSeen(seen, ks)|
    ensures var r := FirstSeen(seen, ks);
      && p < q < |ks| && ks[p] == r[i] && ks[q] == r[j] && r[i] !in seen && r[j] !in seen
      && (forall m :: 0 <= m < p ==> ks[m] != r[i])
      && (forall m :: 0 <= m < q ==> ks[m] != r[j])
    decreases |ks|
  {
    var r := FirstSeen(seen, ks);
    var next := if ks[0] in seen then seen else seen + [ks[0]];
    assert r == FirstSeen(next, ks[1..]);
    assert ks[0] in next;
    if i < |next| {
      FirstSeenKeys(next, ks[1..]);
      assert i == |seen| && next[i] == ks[0] && r[..|next|][i] == r[i];
      p := 0;
      var q' := FirstSeenPosition(next, ks[1..], j);
      q := q' + 1;
    } else {
      var p', q' := FirstSeenOrder(next, ks[1..], i, j);
      p, q := p' + 1, q' + 1;
    }
  }

  /** Appending under `key` inserts `key` into the insertion order. */
  lemma AddOrder<T>(g: Groups<T>, key: int, x: T, rest: seq<int>)
    requires GroupsWf(g)
    ensures FirstSeen(Add(g, key, x).order, rest) == FirstSeen(g.order, [key] + rest)
  {
    assert ([key] + rest)[0] == key && ([key] + rest)[1..] == rest;
    assert key in g.members <==> key in g.order;
  }
}
