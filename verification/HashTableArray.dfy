/** hash_table_array: an array of nodes that are also linked into hash chains, each chain in
    index order, so that find and next_match meet the nodes of a key in index order.

    A node is known by its address, a number; each of its fields is kept in one sequence for all
    the nodes. */
module HashTableArray {
  import opened Sequences
  import HashTableFlat

  const NULL: int := -1

  // ------------------------------------------------------------ chains

  /** The node at position j of a chain, null at its end. */
  ghost function At(c: seq<nat>, j: nat): int {
    if j < |c| then c[j] else NULL
  }

  /** The node whose link leads to position j of a chain, null when it is the head that does. */
  ghost function Before(c: seq<nat>, j: nat): int {
    if 0 < j <= |c| then c[j - 1] else NULL
  }

  ghost predicate LinkAt(next: seq<int>, c: seq<nat>, j: nat)
    requires j < |c|
  {
    c[j] < |next| && next[c[j]] == At(c, j + 1)
  }

  /** head starts the chain of exactly the nodes of c, in their order. */
  ghost predicate Linked(next: seq<int>, head: int, c: seq<nat>) {
    head == At(c, 0) && forall j :: 0 <= j < |c| ==> LinkAt(next, c, j)
  }

  /** The nodes of s whose home is bucket b, in the order of s. */
  ghost function Bucket(home: seq<nat>, s: seq<nat>, b: nat): (r: seq<nat>) {
    if s == [] then [] else (if s[0] < |home| && home[s[0]] == b then [s[0]] else []) + Bucket(home, s[1..], b)
  }

  /** Every chain is that of its bucket, and follows the order of s. */
  ghost predicate AllLinked(next: seq<int>, home: seq<nat>, heads: seq<int>, s: seq<nat>) {
    forall b :: 0 <= b < |heads| ==> Linked(next, heads[b], Bucket(home, s, b))
  }

  lemma AtIs(c: seq<nat>, j: nat)
    ensures At(c, j) == if j < |c| then c[j] else NULL
  {
  }

  /** One step of a walk. */
  lemma StepIs(next: seq<int>, c: seq<nat>, j: nat)
    requires Linked(next, At(c, 0), c) && j < |c|
    ensures c[j] < |next| && next[c[j]] == At(c, j + 1) && Before(c, j + 1) == c[j]
  {
    assert LinkAt(next, c, j);
  }

  /** s with its element i moved back to position j. */
  ghost function Moved<T>(s: seq<T>, i: nat, j: nat): (r: seq<T>)
    requires i <= j < |s|
    ensures |r| == |s|
  {
    s[..i] + s[i + 1..j + 1] + [s[i]] + s[j + 1..]
  }

  lemma WithoutDistinct(s: seq<nat>, i: nat)
    requires i < |s| && Distinct(s)
    ensures Distinct(Without(s, i)) && s[i] !in Without(s, i)
    ensures forall k :: 0 <= k < |s| - 1 ==> Without(s, i)[k] == s[if k < i then k else k + 1]
  {
  }

  lemma NotLater(s: seq<nat>, i: nat)
    requires Distinct(s) && i < |s|
    ensures s[i] !in s[i + 1..] && (forall k :: i < k < |s| ==> s[k] != s[i]) && [s[i]] + s[i + 1..] == s[i..]
    ensures forall n :: n in s[i + 1..] ==> n in s
  {
  }

  lemma MovedAt<T>(s: seq<T>, i: nat, j: nat)
    requires i <= j < |s|
    ensures forall k :: 0 <= k < |s| ==> Moved(s, i, j)[k] == s[if i <= k < j then k + 1 else if k == j then i else k]
    ensures Without(Moved(s, i, j), j) == Without(s, i)
    ensures Moved(s, i, j)[..j] == s[..i] + s[i + 1..j + 1] && Moved(s, i, j)[j + 1..] == s[j + 1..]
  {
  }

  lemma {:induction false} BucketIn(home: seq<nat>, s: seq<nat>, b: nat)
    ensures forall n :: n in Bucket(home, s, b) <==> n in s && n < |home| && home[n] == b
  {
    if s != [] {
      BucketIn(home, s[1..], b);
      assert forall n :: n in s <==> n == s[0] || n in s[1..];
    }
  }

  lemma {:induction false} BucketJoin(home: seq<nat>, s: seq<nat>, t: seq<nat>, b: nat)
    ensures Bucket(home, s + t, b) == Bucket(home, s, b) + Bucket(home, t, b)
  {
    if s == [] {
      assert s + t == t;
    } else {
      assert (s + t)[0] == s[0] && (s + t)[1..] == s[1..] + t;
      BucketJoin(home, s[1..], t, b);
    }
  }

  /** A node of the sequence divides its own bucket in two and is in no other one. */
  lemma BucketSplit(home: seq<nat>, s: seq<nat>, i: nat, b: nat)
    requires i < |s| && s[i] < |home|
    ensures Bucket(home, s, b) ==
            Bucket(home, s[..i], b) + (if home[s[i]] == b then [s[i]] else []) + Bucket(home, s[i + 1..], b)
    ensures Bucket(home, Without(s, i), b) == Bucket(home, s[..i], b) + Bucket(home, s[i + 1..], b)
  {
    assert s == s[..i] + s[i..] && s[i..][1..] == s[i + 1..];
    BucketJoin(home, s[..i], s[i..], b);
    BucketJoin(home, s[..i], s[i + 1..], b);
  }

  lemma {:induction false} BucketDistinct(home: seq<nat>, s: seq<nat>, b: nat)
    requires Distinct(s)
    ensures Distinct(Bucket(home, s, b))
  {
    if s != [] {
      BucketDistinct(home, s[1..], b);
      BucketIn(home, s[1..], b);
      assert forall n :: n in s[1..] ==> n != s[0];
    }
  }

  lemma {:induction false} BucketSame(home: seq<nat>, after: seq<nat>, s: seq<nat>, b: nat)
    requires forall n :: n in s ==> n < |home| && n < |after| && after[n] == home[n]
    ensures Bucket(home, s, b) == Bucket(after, s, b)
  {
    if s != [] {
      assert forall n :: n in s[1..] ==> n in s;
      BucketSame(home, after, s[1..], b);
    }
  }

  /** Each node of s has a larger index than the one before it. */
  ghost predicate InOrder(index: seq<nat>, s: seq<nat>) {
    && (forall j :: 0 <= j < |s| ==> s[j] < |index|)
    && forall j, k :: 0 <= j < k < |s| ==> index[s[j]] < index[s[k]]
  }

  /** Nodes in index order stay so in their buckets. */
  lemma {:induction false} BucketInOrder(index: seq<nat>, home: seq<nat>, s: seq<nat>, b: nat)
    requires InOrder(index, s)
    ensures InOrder(index, Bucket(home, s, b))
  {
    if s != [] {
      var rest := Bucket(home, s[1..], b);
      BucketInOrder(index, home, s[1..], b);
      BucketIn(home, s[1..], b);
      forall k | 0 <= k < |rest|
        ensures index[s[0]] < index[rest[k]]
      {
        assert rest[k] in rest && rest[k] in s[1..];
      }
    }
  }

  // ------------------------------------------------------- changing chains

  /** The links after one is written: that of prev, if a walk got beyond the head. */
  ghost function Written(next: seq<int>, prev: int, to: int): (r: seq<int>)
    requires prev < |next|
    ensures |r| == |next|
  {
    if prev < 0 then next else next[prev := to]
  }

  ghost function NewHeads(heads: seq<int>, b: nat, prev: int, to: int): (r: seq<int>)
    requires b < |heads|
    ensures |r| == |heads|
  {
    if prev < 0 then heads[b := to] else heads
  }

  /** The other links do not matter to a chain. */
  lemma LinkedKept(next: seq<int>, after: seq<int>, head: int, c: seq<nat>)
    requires Linked(next, head, c)
    requires forall n :: n in c && n < |next| ==> n < |after| && after[n] == next[n]
    ensures Linked(after, head, c)
  {
    forall j | 0 <= j < |c|
      ensures LinkAt(after, c, j)
    {
      assert LinkAt(next, c, j) && c[j] in c;
    }
  }

  /** A chain without its node p, after the link to p was given p's own link. */
  lemma Unlinked(next: seq<int>, head: int, c: seq<nat>, p: nat)
    requires Linked(next, head, c) && p < |c| && Distinct(c)
    ensures c[p] < |next| && Before(c, p) < |next|
    ensures Linked(Written(next, Before(c, p), next[c[p]]), if p == 0 then next[c[p]] else head, c[..p] + c[p + 1..])
  {
    assert LinkAt(next, c, p) && (p > 0 ==> LinkAt(next, c, p - 1));
    var d, after := c[..p] + c[p + 1..], Written(next, Before(c, p), next[c[p]]);
    forall j | 0 <= j < |d|
      ensures LinkAt(after, d, j)
    {
      var k := if j < p then j else j + 1;
      assert d[j] == c[k] && LinkAt(next, c, k);
    }
  }

  /** A chain with a node put in at place p: it takes over the link to the node that was there. */
  lemma Spliced(next: seq<int>, head: int, c: seq<nat>, p: nat, n: nat)
    requires Linked(next, head, c) && p <= |c| && Distinct(c) && n !in c && n < |next|
    ensures Before(c, p) < |next|
    ensures Linked(Written(next[n := At(c, p)], Before(c, p), n), if p == 0 then n else head, c[..p] + [n] + c[p..])
  {
    assert p > 0 ==> LinkAt(next, c, p - 1);
    var d, after := c[..p] + [n] + c[p..], Written(next[n := At(c, p)], Before(c, p), n);
    forall j | 0 <= j < |d|
      ensures LinkAt(after, d, j)
    {
      if j != p {
        var k := if j < p then j else j - 1;
        assert d[j] == c[k] && LinkAt(next, c, k);
      }
    }
  }

  /** How far into its chain node i of s is. */
  ghost function Place(home: seq<nat>, s: seq<nat>, i: nat): nat
    requires i < |s| && s[i] < |home|
  {
    |Bucket(home, s[..i], home[s[i]])|
  }

  lemma PlaceIs(home: seq<nat>, s: seq<nat>, i: nat)
    requires i < |s| && s[i] < |home|
    ensures var c, u, p := Bucket(home, s, home[s[i]]), Bucket(home, Without(s, i), home[s[i]]), Place(home, s, i);
      && p < |c| && c[p] == s[i] && p <= |u| && u == c[..p] + c[p + 1..] && c == u[..p] + [s[i]] + u[p..]
      && Before(u, p) == Before(c, p) && At(u, p) == At(c, p + 1)
  {
    BucketSplit(home, s, i, home[s[i]]);
    var a, b := Bucket(home, s[..i], home[s[i]]), Bucket(home, s[i + 1..], home[s[i]]);
    hide Bucket;
    assert (a + b)[..|a|] == a && (a + b)[|a|..] == b && (a + [s[i]] + b)[|a| + 1..] == b;
  }

  lemma BeforeIs(home: seq<nat>, s: seq<nat>, i: nat)
    requires i < |s| && s[i] < |home|
    ensures var prev := Before(Bucket(home, s, home[s[i]]), Place(home, s, i));
      prev >= 0 ==> prev in Without(s, i) && prev < |home| && home[prev] == home[s[i]]
  {
    PlaceIs(home, s, i);
    BucketIn(home, Without(s, i), home[s[i]]);
    var u, p := Bucket(home, Without(s, i), home[s[i]]), Place(home, s, i);
    hide Bucket;
    assert p > 0 ==> u[p - 1] in u;
  }

  /** A chain that neither has node i of s nor the node before it is kept when a link of theirs is
      written. */
  lemma OtherBucket(next: seq<int>, after: seq<int>, home: seq<nat>, head: int, s: seq<nat>, i: nat, b: nat, prev: int)
    requires i < |s| && s[i] < |home| && home[s[i]] != b && Distinct(s)
    requires prev >= 0 ==> prev < |home| && home[prev] != b
    requires |after| == |next| && forall n :: 0 <= n < |next| && n != s[i] && n != prev ==> after[n] == next[n]
    ensures Bucket(home, s, b) == Bucket(home, Without(s, i), b)
    ensures Linked(next, head, Bucket(home, s, b)) ==> Linked(after, head, Bucket(home, s, b))
  {
    BucketSplit(home, s, i, b);
    assert Bucket(home, s, b) == Bucket(home, Without(s, i), b);
    if Linked(next, head, Bucket(home, s, b)) {
      BucketIn(home, s, b);
      hide Bucket;
      hide Linked;
      LinkedKept(next, after, head, Bucket(home, s, b));
    }
  }

  /** Node i of s taken out of its chain. */
  lemma TakenOut(next: seq<int>, home: seq<nat>, heads: seq<int>, s: seq<nat>, i: nat)
    requires AllLinked(next, home, heads, s) && Distinct(s)
    requires i < |s| && s[i] < |home| == |next| && home[s[i]] < |heads|
    ensures var prev, to := Before(Bucket(home, s, home[s[i]]), Place(home, s, i)), next[s[i]];
      && prev < |next| && to == At(Bucket(home, s, home[s[i]]), Place(home, s, i) + 1)
      && AllLinked(Written(next, prev, to), home, NewHeads(heads, home[s[i]], prev, to), Without(s, i))
  {
    var b, p, to, u := home[s[i]], Place(home, s, i), next[s[i]], Without(s, i);
    PlaceIs(home, s, i);
    BeforeIs(home, s, i);
    BucketDistinct(home, s, b);
    var prev := Before(Bucket(home, s, b), p);
    assert LinkAt(next, Bucket(home, s, b), p);
    Unlinked(next, heads[b], Bucket(home, s, b), p);
    var after, heads' := Written(next, prev, to), NewHeads(heads, b, prev, to);
    assert (prev < 0 <==> p == 0) && heads'[b] == if p == 0 then to else heads[b];
    hide Bucket;
    hide Linked;
    hide Distinct;
    forall a | 0 <= a < |heads|
      ensures Linked(after, heads'[a], Bucket(home, u, a))
    {
      if a != b {
        OtherBucket(next, after, home, heads[a], s, i, a, prev);
      }
    }
  }

  /** Node i of s put into its chain, between those before and those after it. */
  lemma PutIn(next: seq<int>, home: seq<nat>, heads: seq<int>, s: seq<nat>, i: nat)
    requires i < |s| && s[i] < |home| == |next| && home[s[i]] < |heads| && Distinct(s)
    requires AllLinked(next, home, heads, Without(s, i))
    ensures var c, p := Bucket(home, Without(s, i), home[s[i]]), Place(home, s, i);
      && Before(c, p) < |next|
      && AllLinked(Written(next[s[i] := At(c, p)], Before(c, p), s[i]), home,
                   NewHeads(heads, home[s[i]], Before(c, p), s[i]), s)
  {
    var n, b, u, p := s[i], home[s[i]], Without(s, i), Place(home, s, i);
    var c := Bucket(home, u, b);
    PlaceIs(home, s, i);
    BeforeIs(home, s, i);
    WithoutDistinct(s, i);
    BucketIn(home, u, b);
    BucketDistinct(home, u, b);
    Spliced(next, heads[b], c, p, n);
    var prev := Before(c, p);
    var after, heads' := Written(next[n := At(c, p)], prev, n), NewHeads(heads, b, prev, n);
    assert (prev < 0 <==> p == 0) && heads'[b] == if p == 0 then n else heads[b];
    hide Bucket;
    hide Linked;
    hide Distinct;
    forall a | 0 <= a < |heads|
      ensures Linked(after, heads'[a], Bucket(home, s, a))
    {
      if a != b {
        OtherBucket(next, after, home, heads[a], s, i, a, prev);
      }
    }
  }

  /** Nodes that are not linked may get another home. */
  lemma LinkedAgain(next: seq<int>, home: seq<nat>, after: seq<nat>, heads: seq<int>, s: seq<nat>)
    requires AllLinked(next, home, heads, s)
    requires forall n :: n in s ==> n < |home| && n < |after| && after[n] == home[n]
    ensures AllLinked(next, after, heads, s)
  {
    forall b | 0 <= b < |heads|
      ensures Linked(next, heads[b], Bucket(after, s, b))
    {
      BucketSame(home, after, s, b);
    }
  }

  /** A node that moves back does not move forward in its chain. */
  lemma PlaceMoved(home: seq<nat>, s: seq<nat>, i: nat, j: nat)
    requires i <= j < |s| && s[i] < |home|
    ensures Moved(s, i, j)[j] == s[i] && Place(home, s, i) <= Place(home, Moved(s, i, j), j)
  {
    MovedAt(s, i, j);
    BucketJoin(home, s[..i], s[i + 1..j + 1], home[s[i]]);
  }

  /** A bucket stays the same when the node that moves back keeps its place in its chain. */
  lemma MovedBucket(home: seq<nat>, s: seq<nat>, i: nat, j: nat, b: nat)
    requires i <= j < |s| && s[i] < |home|
    requires Moved(s, i, j)[j] == s[i] && Place(home, s, i) == Place(home, Moved(s, i, j), j)
    ensures Bucket(home, Moved(s, i, j), b) == Bucket(home, s, b)
  {
    var t := Moved(s, i, j);
    MovedAt(s, i, j);
    if b == home[s[i]] {
      PlaceIs(home, s, i);
      PlaceIs(home, t, j);
    } else {
      OtherBucketIs(home, s, i, b);
      OtherBucketIs(home, t, j, b);
    }
  }

  lemma OtherBucketIs(home: seq<nat>, s: seq<nat>, i: nat, b: nat)
    requires i < |s| && s[i] < |home| && home[s[i]] != b
    ensures Bucket(home, s, b) == Bucket(home, Without(s, i), b)
  {
    BucketSplit(home, s, i, b);
  }

  /** s after the nodes first + 1 to i were copied one place forward. */
  ghost function Shifted(s: seq<nat>, first: nat, i: nat): (r: seq<nat>)
    requires first <= i < |s|
    ensures |r| == |s|
  {
    s[..first] + s[first + 1..i + 1] + s[i..]
  }

  /** The indexes after those nodes were renumbered. */
  ghost predicate Renumbered(index: seq<nat>, s: seq<nat>, first: nat, i: nat) {
    forall k :: 0 <= k < |s| ==> s[k] < |index| && index[s[k]] == if first < k <= i then k - 1 else k
  }

  lemma ShiftStep(index: seq<nat>, s: seq<nat>, first: nat, i: nat)
    requires first <= i < |s| && Renumbered(index, s, first, i)
    ensures Shifted(s, first, first) == s
    ensures i + 1 < |s| ==>
      && Shifted(s, first, i)[i + 1] == s[i + 1] && Shifted(s, first, i)[i := s[i + 1]] == Shifted(s, first, i + 1)
      && s[i + 1] < |index| && index[s[i + 1]] == i + 1 && Renumbered(index[s[i + 1] := i], s, first, i + 1)
  {
  }

  /** A node linked in at the head of its chain, before all of s. */
  lemma PushedFront(next: seq<int>, home: seq<nat>, heads: seq<int>, s: seq<nat>, n: nat, b: nat)
    requires AllLinked(next, home, heads, s) && n !in s && n < |home| == |next| && b < |heads|
    requires forall m :: m in s ==> m < |home|
    ensures AllLinked(next[n := heads[b]], home[n := b], heads[b := n], [n] + s)
  {
    var next', home', heads' := next[n := heads[b]], home[n := b], heads[b := n];
    forall a | 0 <= a < |heads|
      ensures Linked(next', heads'[a], Bucket(home', [n] + s, a))
    {
      var c := Bucket(home, s, a);
      BucketSame(home, home', s, a);
      BucketIn(home, s, a);
      assert ([n] + s)[1..] == s;
      assert Linked(next, heads[a], c);
      LinkedKept(next, next', heads[a], c);
      if a == b {
        var d := [n] + c;
        forall j | 0 <= j < |d|
          ensures LinkAt(next', d, j)
        {
          if j > 0 {
            assert LinkAt(next', c, j - 1);
          }
        }
        assert Bucket(home', [n] + s, a) == d;
      } else {
        assert Bucket(home', [n] + s, a) == c;
      }
    }
  }

  /** Chains do not depend on fields of nodes that are not in them. */
  lemma AddedKeeps(next: seq<int>, home: seq<nat>, next': seq<int>, home': seq<nat>, heads: seq<int>, s: seq<nat>)
    requires AllLinked(next, home, heads, s) && forall n :: n in s ==> n < |home|
    requires |home| == |next| && next <= next' && home <= home'
    ensures AllLinked(next', home', heads, s)
  {
    LinkedAgain(next, home, home', heads, s);
    forall b | 0 <= b < |heads|
      ensures Linked(next', heads[b], Bucket(home', s, b))
    {
      LinkedKept(next, next', heads[b], Bucket(home', s, b));
    }
  }

  lemma {:induction false} NoneLinked(next: seq<int>, home: seq<nat>, heads: seq<int>)
    requires forall b :: 0 <= b < |heads| ==> heads[b] == NULL
    ensures AllLinked(next, home, heads, [])
  {
  }

  // ------------------------------------------------------------------- matches

  /** The first index from start on that holds k, or the length of the list. */
  ghost function FirstFrom<K>(keys: seq<K>, k: K, start: nat): (r: nat)
    requires start <= |keys|
    ensures start <= r <= |keys| && (r < |keys| ==> keys[r] == k)
    ensures forall i :: start <= i < r ==> keys[i] != k
    decreases |keys| - start
  {
    if start == |keys| || keys[start] == k then start else FirstFrom(keys, k, start + 1)
  }

  /** What find, followed by next_match until the end, visits. */
  ghost function Visited<K>(keys: seq<K>, k: K, start: nat): (r: seq<nat>)
    requires start <= |keys|
    decreases |keys| - start
  {
    var i := FirstFrom(keys, k, start);
    if i == |keys| then [] else [i] + Visited(keys, k, i + 1)
  }

  /** Every index that holds the key is visited, no other one is, each once and in increasing
      order. */
  lemma {:induction false} VisitsAllMatches<K>(keys: seq<K>, k: K, start: nat)
    requires start <= |keys|
    ensures forall i :: i in Visited(keys, k, start) <==> start <= i < |keys| && keys[i] == k
    ensures forall j, l :: 0 <= j < l < |Visited(keys, k, start)| ==> Visited(keys, k, start)[j] < Visited(keys, k, start)[l]
    decreases |keys| - start
  {
    var i := FirstFrom(keys, k, start);
    if i < |keys| {
      var rest := Visited(keys, k, i + 1);
      VisitsAllMatches(keys, k, i + 1);
      forall l | 0 <= l < |rest|
        ensures i < rest[l]
      {
        assert rest[l] in rest;
      }
      assert Visited(keys, k, start) == [i] + rest;
    }
  }

  lemma {:induction false} FirstIs<K>(keys: seq<K>, k: K, start: nat, r: nat)
    requires start <= r <= |keys| && (r < |keys| ==> keys[r] == k)
    requires forall i :: start <= i < r ==> keys[i] != k
    ensures FirstFrom(keys, k, start) == r
    decreases |keys| - start
  {
    if start < r {
      FirstIs(keys, k, start + 1, r);
    }
  }

  /** hs lists indexes in increasing order, among them every index that holds k. */
  ghost predicate Lists<K>(hs: seq<nat>, keys: seq<K>, k: K) {
    && (forall j :: 0 <= j < |hs| ==> hs[j] < |keys|)
    && (forall j, l :: 0 <= j < l < |hs| ==> hs[j] < hs[l])
    && (forall i :: 0 <= i < |keys| && keys[i] == k ==> i in hs)
  }

  /** The first listed index, from place p on, that holds k is the first match after the index
      at the place before p. */
  lemma HitIsFirst<K>(hs: seq<nat>, keys: seq<K>, k: K, p: nat, j: nat)
    requires Lists(hs, keys, k) && p <= j <= |hs|
    requires forall l :: p <= l < j ==> hs[l] < |keys| && keys[hs[l]] != k
    requires j < |hs| ==> hs[j] < |keys| && keys[hs[j]] == k
    ensures var start := if p == 0 then 0 else hs[p - 1] + 1;
      start <= |keys| && FirstFrom(keys, k, start) == if j < |hs| then hs[j] else |keys|
  {
    var start := if p == 0 then 0 else hs[p - 1] + 1;
    var r := if j < |hs| then hs[j] else |keys|;
    forall i | start <= i < r
      ensures keys[i] != k
    {
      if keys[i] == k {
        var l: nat :| l < |hs| && hs[l] == i;
      }
    }
    FirstIs(keys, k, start, r);
  }

  // --------------------------------------------------------------------- table

  /** Node i of the array has index i. */
  ghost predicate Placed(index: seq<nat>, items: seq<nat>) {
    forall i :: 0 <= i < |items| ==> items[i] < |index| && index[items[i]] == i
  }

  ghost function Keys<K>(key: seq<K>, items: seq<nat>): (r: seq<K>)
    requires forall i :: 0 <= i < |items| ==> items[i] < |key|
    ensures |r| == |items|
  {
    seq(|items|, i requires 0 <= i < |items| => key[items[i]])
  }

  /** What the table holds, in index order. */
  ghost function Pairs<K, V>(key: seq<K>, value: seq<V>, items: seq<nat>): (r: seq<(K, V)>)
    requires forall i :: 0 <= i < |items| ==> items[i] < |key| && items[i] < |value|
    ensures |r| == |items|
  {
    seq(|items|, i requires 0 <= i < |items| => (key[items[i]], value[items[i]]))
  }

  lemma PlacedIs(index: seq<nat>, items: seq<nat>)
    requires Placed(index, items)
    ensures Distinct(items) && InOrder(index, items)
  {
  }

  lemma PairsWithout<K, V>(key: seq<K>, value: seq<V>, items: seq<nat>, i: nat)
    requires i < |items| && forall i :: 0 <= i < |items| ==> items[i] < |key| && items[i] < |value|
    ensures forall k :: 0 <= k < |items| - 1 ==> Without(items, i)[k] < |key| && Without(items, i)[k] < |value|
    ensures Pairs(key, value, Without(items, i)) == Without(Pairs(key, value, items), i)
  {
  }

  lemma PairsMoved<K, V>(key: seq<K>, value: seq<V>, items: seq<nat>, i: nat, j: nat)
    requires i <= j < |items| && forall i :: 0 <= i < |items| ==> items[i] < |key| && items[i] < |value|
    ensures forall k :: 0 <= k < |items| ==> Moved(items, i, j)[k] < |key| && Moved(items, i, j)[k] < |value|
    ensures Pairs(key, value, Moved(items, i, j)) == Moved(Pairs(key, value, items), i, j)
  {
  }

  lemma PairsRenamed<K, V>(key: seq<K>, value: seq<V>, items: seq<nat>, i: nat, k: K)
    requires i < |items| && Distinct(items) && forall i :: 0 <= i < |items| ==> items[i] < |key| && items[i] < |value|
    ensures Pairs(key[items[i] := k], value, items) == Pairs(key, value, items)[i := (k, Pairs(key, value, items)[i].1)]
  {
  }

  lemma PairsAdded<K, V>(key: seq<K>, value: seq<V>, items: seq<nat>, k: K, v: V)
    requires |key| == |value| && forall i :: 0 <= i < |items| ==> items[i] < |key|
    ensures forall i :: 0 <= i <= |items| ==> (items + [|key|])[i] <= |key|
    ensures Pairs(key + [k], value + [v], items + [|key|]) == Pairs(key, value, items) + [(k, v)]
  {
  }

  /** The indexes along a chain. */
  ghost function Indexes(index: seq<nat>, c: seq<nat>): (r: seq<nat>)
    requires forall j :: 0 <= j < |c| ==> c[j] < |index|
    ensures |r| == |c|
  {
    seq(|c|, j requires 0 <= j < |c| => index[c[j]])
  }

  /** The chain of a bucket lists indexes in increasing order, and those of all nodes whose home it
      is. */
  lemma ChainLists<K>(index: seq<nat>, home: seq<nat>, key: seq<K>, items: seq<nat>, b: nat, k: K)
    requires Placed(index, items) && |home| == |key| == |index|
    requires forall n :: n in items && key[n] == k ==> home[n] == b
    ensures InOrder(index, Bucket(home, items, b))
    ensures forall n :: n in Bucket(home, items, b) ==> n in items && index[n] < |items| && items[index[n]] == n
    ensures Lists(Indexes(index, Bucket(home, items, b)), Keys(key, items), k)
  {
    var c := Bucket(home, items, b);
    PlacedIs(index, items);
    BucketInOrder(index, home, items, b);
    BucketIn(home, items, b);
    assert forall j :: 0 <= j < |c| ==> c[j] in c;
    hide Bucket;
    var hs := Indexes(index, c);
    forall i | 0 <= i < |items| && Keys(key, items)[i] == k
      ensures i in hs
    {
      assert items[i] in c;
      var j: nat :| j < |c| && c[j] == items[i];
      assert hs[j] == i;
    }
  }

  /** The first node of the chain, from position p on, that holds the key is the first match
      among the indexes after the node before p. */
  lemma FirstHit<K>(index: seq<nat>, home: seq<nat>, key: seq<K>, items: seq<nat>, b: nat, k: K, p: nat, j: nat)
    requires Placed(index, items) && |home| == |key| == |index|
    requires forall n :: n in items && key[n] == k ==> home[n] == b
    requires p <= j <= |Bucket(home, items, b)|
    requires forall l :: p <= l < j ==> Bucket(home, items, b)[l] < |key| && key[Bucket(home, items, b)[l]] != k
    requires j < |Bucket(home, items, b)| ==> Bucket(home, items, b)[j] < |key| && key[Bucket(home, items, b)[j]] == k
    ensures p > 0 ==> Bucket(home, items, b)[p - 1] < |index|
    ensures var c := Bucket(home, items, b);
      var start := if p == 0 then 0 else index[c[p - 1]] + 1;
      && start <= |items| && (j < |c| ==> index[c[j]] < |items|)
      && FirstFrom(Keys(key, items), k, start) == if j < |c| then index[c[j]] else |items|
  {
    var c := Bucket(home, items, b);
    ChainLists(index, home, key, items, b, k);
    assert forall l :: 0 <= l < |c| ==> c[l] in c;
    hide Bucket;
    hide Lists;
    HitIsFirst(Indexes(index, c), Keys(key, items), k, p, j);
  }

  /** In its bucket the nodes before node i of s are those with smaller indexes. */
  lemma PlaceByIndex(index: seq<nat>, home: seq<nat>, s: seq<nat>, i: nat)
    requires InOrder(index, s) && i < |s| && s[i] < |home|
    ensures var u, p := Bucket(home, Without(s, i), home[s[i]]), Place(home, s, i);
      && p <= |u| && forall k :: 0 <= k < |u| ==> u[k] < |index| && (index[u[k]] < index[s[i]] <==> k < p)
  {
    var b := home[s[i]];
    BucketSplit(home, s, i, b);
    BucketIn(home, s[..i], b);
    BucketIn(home, s[i + 1..], b);
    var before, after := Bucket(home, s[..i], b), Bucket(home, s[i + 1..], b);
    hide Bucket;
    forall k | 0 <= k < |before + after|
      ensures (before + after)[k] < |index| && (index[(before + after)[k]] < index[s[i]] <==> k < |before|)
    {
      if k < |before| {
        assert before[k] in before && before[k] in s[..i];
      } else {
        assert after[k - |before|] in after && after[k - |before|] in s[i + 1..];
      }
    }
  }

  function BucketIndex(hash: nat, size: nat): (b: nat)
    requires size > 0
    ensures b < size
  {
    hash % size
  }

  /** The nodes of s from node i on have been linked into new chains, by their hashes. */
  ghost predicate Relinked(next: seq<int>, home: seq<nat>, hash: seq<nat>, heads: seq<int>, s: seq<nat>, i: nat)
    requires |heads| > 0
  {
    && Distinct(s) && i <= |s| && |home| == |hash| == |next| && (forall k :: 0 <= k < |s| ==> s[k] < |hash|)
    && (forall k :: i <= k < |s| ==> home[s[k]] == BucketIndex(hash[s[k]], |heads|))
    && AllLinked(next, home, heads, s[i..])
  }

  lemma RelinkStarts(next: seq<int>, home: seq<nat>, hash: seq<nat>, heads: seq<int>, s: seq<nat>)
    requires |heads| > 0 && Distinct(s) && |home| == |hash| == |next| && forall k :: 0 <= k < |s| ==> s[k] < |hash|
    requires forall b :: 0 <= b < |heads| ==> heads[b] == NULL
    ensures Relinked(next, home, hash, heads, s, |s|)
  {
    assert s[|s|..] == [];
    NoneLinked(next, home, heads);
  }

  lemma RelinkStep(next: seq<int>, home: seq<nat>, hash: seq<nat>, heads: seq<int>, s: seq<nat>, i: nat)
    requires |heads| > 0 && i < |s| && s[i] < |hash| == |home| == |next| && Relinked(next, home, hash, heads, s, i + 1)
    ensures var b := BucketIndex(hash[s[i]], |heads|);
      Relinked(next[s[i] := heads[b]], home[s[i] := b], hash, heads[b := s[i]], s, i)
  {
    hide BucketIndex;
    NotLater(s, i);
    PushedFront(next, home, heads, s[i + 1..], s[i], BucketIndex(hash[s[i]], |heads|));
    hide AllLinked;
  }

  class Table<K(==), V> {
    const hashOf: K -> nat
    var nextHash: seq<int>
    var index: seq<nat>
    var hash: seq<nat>
    var hashIndex: seq<nat>
    var key: seq<K>
    var value: seq<V>
    var tableSize: nat
    var hashTable: seq<int>
    var items: seq<nat>

    /** The fields of every node that was made. */
    ghost predicate Sized()
      reads this
    {
      |nextHash| == |index| == |hash| == |hashIndex| == |key| == |value|
    }

    /** The hash and the bucket of node n are those of its key. */
    ghost predicate Hashed(n: nat)
      reads this
    {
      && n < |hash| && n < |key| && n < |hashIndex|
      && hash[n] == hashOf(key[n]) && tableSize > 0 && hashIndex[n] == BucketIndex(hash[n], tableSize)
    }

    ghost predicate AllHashed(s: seq<nat>)
      reads this
    {
      forall i :: 0 <= i < |s| ==> Hashed(s[i])
    }

    /** Every node of s is linked into the chain of its bucket, the chains follow the order of s,
        and nothing else is linked. */
    ghost predicate Chained(s: seq<nat>)
      reads this`nextHash, this`hashIndex, this`hashTable
    {
      AllLinked(nextHash, hashIndex, hashTable, s)
    }

    ghost predicate Valid()
      reads this
    {
      && Sized() && |items| <= tableSize == |hashTable|
      && Placed(index, items) && AllHashed(items) && Chained(items)
    }

    /** What the table holds, in index order. */
    ghost function Entries(): (r: seq<(K, V)>)
      requires Valid()
      reads this
      ensures |r| == |items| && forall i :: 0 <= i < |r| ==> items[i] < |key| && r[i].0 == Keys(key, items)[i]
    {
      Pairs(key, value, items)
    }

    constructor (hashOf: K -> nat)
      ensures Valid() && Entries() == [] && this.hashOf == hashOf
    {
      this.hashOf := hashOf;
      nextHash, index, hash, hashIndex, key, value := [], [], [], [], [], [];
      tableSize, hashTable, items := 0, [], [];
    }

    function BucketOf(k: K): (b: nat)
      requires tableSize > 0
      reads this`tableSize
      ensures b < tableSize
    {
      BucketIndex(hashOf(k), tableSize)
    }

    // --------------------------------------------------------------- lookups

    /** What a lookup of k in its bucket relies on. */
    lemma HomeOf(k: K)
      requires Valid() && tableSize > 0
      ensures |hashTable| == tableSize && Placed(index, items) && |hashIndex| == |key| == |index| == |nextHash|
      ensures forall n :: n in items && key[n] == k ==> hashIndex[n] == BucketOf(k)
      ensures Linked(nextHash, hashTable[BucketOf(k)], Bucket(hashIndex, items, BucketOf(k)))
      ensures |items| <= tableSize && forall i :: 0 <= i < |items| ==> items[i] < |key|
    {
      forall n | n in items && key[n] == k
        ensures hashIndex[n] == BucketOf(k)
      {
        var i: nat :| i < |items| && items[i] == n;
        assert Hashed(items[i]);
      }
    }

    method Find(k: K) returns (r: nat)
      requires Valid()
      ensures r < |items| <==> k in Keys(key, items)
      ensures r < |items| ==> r == FirstFrom(Keys(key, items), k, 0)
      ensures r >= |items| ==> r == tableSize
    {
      if tableSize == 0 {
        return 0;
      }
      HomeOf(k);
      hide Valid;
      hide BucketOf;
      hide Bucket;
      var b := BucketOf(k);
      ghost var c := Bucket(hashIndex, items, b);
      ghost var j: nat := 0;
      var walk := hashTable[b];
      while walk != NULL
        invariant j <= |c| && walk == At(c, j)
        invariant forall l :: 0 <= l < j ==> c[l] < |key| && key[c[l]] != k
        decreases |c| - j
      {
        assert LinkAt(nextHash, c, j);
        if key[walk] == k {
          FirstHit(index, hashIndex, key, items, b, k, 0, j);
          return index[walk];
        }
        walk, j := nextHash[walk], j + 1;
      }
      FirstHit(index, hashIndex, key, items, b, k, 0, j);
      return tableSize;
    }

    /** Where a node is in its chain. */
    lemma NodeInChain(i: nat) returns (p: nat)
      requires Valid() && i < |items|
      ensures var n := items[i];
        && n < |index| && tableSize > 0 && hashIndex[n] == BucketOf(key[n]) && index[n] == i && Keys(key, items)[i] == key[n]
        && p < |Bucket(hashIndex, items, hashIndex[n])| && Bucket(hashIndex, items, hashIndex[n])[p] == n
    {
      assert Hashed(items[i]);
      PlaceIs(hashIndex, items, i);
      p := Place(hashIndex, items, i);
    }

    method NextMatch(i: nat) returns (r: nat)
      requires Valid() && i < |items|
      ensures r == FirstFrom(Keys(key, items), Keys(key, items)[i], i + 1)
    {
      ghost var p := NodeInChain(i);
      var n := items[i];
      HomeOf(key[n]);
      hide Valid;
      hide BucketOf;
      hide Bucket;
      ghost var b := hashIndex[n];
      ghost var c := Bucket(hashIndex, items, b);
      ghost var j: nat := p + 1;
      assert LinkAt(nextHash, c, p) && (p + 1 < |c| ==> LinkAt(nextHash, c, p + 1));
      var walk := nextHash[n];
      while walk != NULL && key[walk] != key[n]
        invariant p < j <= |c| && walk == At(c, j)
        invariant walk == NULL || walk < |key|
        invariant forall l :: p + 1 <= l < j ==> c[l] < |key| && key[c[l]] != key[n]
        decreases |c| - j
      {
        assert LinkAt(nextHash, c, j);
        walk, j := nextHash[walk], j + 1;
        assert j < |c| ==> LinkAt(nextHash, c, j);
      }
      FirstHit(index, hashIndex, key, items, b, key[n], p + 1, j);
      if walk != NULL {
        return index[walk];
      } else {
        return |items|;
      }
    }

    // ---------------------------------------------------------- linking nodes

    /** Writes the link that a walk has reached: the head of bucket b, or the link of prev. */
    method SetSlot(b: nat, prev: int, to: int)
      requires b < |hashTable| && prev < |nextHash|
      modifies this`hashTable, this`nextHash
      ensures hashTable == NewHeads(old(hashTable), b, prev, to) && nextHash == Written(old(nextHash), prev, to)
    {
      if prev < 0 {
        hashTable := hashTable[b := to];
      } else {
        nextHash := nextHash[prev := to];
      }
    }

    /** remove_from_hash, for node i of the linked sequence s. */
    method RemoveFromHash(n: nat, ghost s: seq<nat>, ghost i: nat) returns (prev: int)
      requires Chained(s) && Distinct(s) && i < |s| && s[i] == n < |hashIndex| == |nextHash| && hashIndex[n] < |hashTable|
      modifies this`hashTable, this`nextHash
      ensures |nextHash| == old(|nextHash|) && |hashTable| == old(|hashTable|) && Chained(Without(s, i))
      ensures prev == Before(Bucket(hashIndex, Without(s, i), hashIndex[n]), Place(hashIndex, s, i))
      ensures nextHash[n] == At(Bucket(hashIndex, Without(s, i), hashIndex[n]), Place(hashIndex, s, i))
    {
      var b := hashIndex[n];
      ghost var c, p := Bucket(hashIndex, s, b), Place(hashIndex, s, i);
      PlaceIs(hashIndex, s, i);
      TakenOut(nextHash, hashIndex, hashTable, s, i);
      BucketDistinct(hashIndex, s, b);
      WithoutDistinct(s, i);
      assert Linked(nextHash, hashTable[b], c);
      hide AllLinked;
      hide Bucket;
      hide Place;
      hide Without;
      ghost var j: nat := 0;
      var cur := hashTable[b];
      prev := NULL;
      while cur != n
        invariant j <= p && cur == At(c, j) && prev == Before(c, j)
        decreases p - j
      {
        assert LinkAt(nextHash, c, j);
        prev, cur, j := cur, nextHash[cur], j + 1;
      }
      assert j == p;
      SetSlot(b, prev, nextHash[n]);
    }

    /** The walk on to the first node that does not come before the given index. */
    method WalkBelow(prev0: int, cur0: int, limit: nat, ghost c: seq<nat>, ghost j0: nat, ghost p: nat)
      returns (prev: int, cur: int)
      requires Linked(nextHash, At(c, 0), c) && |index| == |nextHash|
      requires j0 <= p <= |c| && cur0 == At(c, j0) && prev0 == Before(c, j0)
      requires forall k :: 0 <= k < |c| ==> c[k] < |index| && (index[c[k]] < limit <==> k < p)
      ensures prev == Before(c, p) && cur == At(c, p)
    {
      ghost var j := j0;
      prev, cur := prev0, cur0;
      while cur != NULL && index[cur] < limit
        invariant j <= p && cur == At(c, j) && prev == Before(c, j)
        decreases p - j
      {
        assert LinkAt(nextHash, c, j);
        prev, cur, j := cur, nextHash[cur], j + 1;
      }
    }

    /** Node i of s is linked in between prev and cur. */
    method SpliceIn(n: nat, prev: int, cur: int, ghost s: seq<nat>, ghost i: nat)
      requires i < |s| && Distinct(s) && Chained(Without(s, i))
      requires s[i] == n < |hashIndex| == |nextHash| && hashIndex[n] < |hashTable|
      requires prev == Before(Bucket(hashIndex, Without(s, i), hashIndex[n]), Place(hashIndex, s, i))
      requires cur == At(Bucket(hashIndex, Without(s, i), hashIndex[n]), Place(hashIndex, s, i))
      modifies this`hashTable, this`nextHash
      ensures |nextHash| == old(|nextHash|) && |hashTable| == old(|hashTable|) && Chained(s)
    {
      PutIn(nextHash, hashIndex, hashTable, s, i);
      hide AllLinked;
      hide Bucket;
      nextHash := nextHash[n := cur];
      SetSlot(hashIndex[n], prev, n);
    }

    /** insert_in_hash, for node i of s, in index order. */
    method InsertInHash(n: nat, ghost s: seq<nat>, ghost i: nat)
      requires Sized() && tableSize == |hashTable| > 0 && i < |s| && s[i] == n && InOrder(index, s)
      requires Chained(Without(s, i)) && forall m :: m in s ==> m < |index|
      modifies this`hashTable, this`nextHash, this`hash, this`hashIndex
      ensures Sized() && tableSize == |hashTable| && Chained(s) && Hashed(n)
      ensures forall m :: m != n && old(Hashed(m)) ==> Hashed(m)
    {
      ghost var u, home := Without(s, i), hashIndex;
      assert Distinct(s);
      WithoutDistinct(s, i);
      hash := hash[n := hashOf(key[n])];
      hashIndex := hashIndex[n := BucketIndex(hash[n], tableSize)];
      var b := hashIndex[n];
      LinkedAgain(nextHash, home, hashIndex, hashTable, u);
      PlaceByIndex(index, hashIndex, s, i);
      ghost var c, p := Bucket(hashIndex, u, b), Place(hashIndex, s, i);
      assert Linked(nextHash, hashTable[b], c);
      hide AllLinked;
      hide Bucket;
      hide Place;
      hide Without;
      var prev, cur := WalkBelow(NULL, hashTable[b], index[n], c, 0, p);
      SpliceIn(n, prev, cur, s, i);
    }

    // -------------------------------------------------------- moving the array

    /** The loop that shifts items first + 1 to last one place forward and renumbers them. */
    method ShiftItems(first: nat, last: nat)
      requires first <= last < |items| && Renumbered(index, items, first, first)
      modifies this`items, this`index
      ensures items == Shifted(old(items), first, last)
      ensures |index| == old(|index|) && Renumbered(index, old(items), first, last)
    {
      ghost var s := items;
      ShiftStep(index, s, first, first);
      hide *;
      var i := first;
      while i < last
        invariant first <= i <= last && items == Shifted(s, first, i)
        invariant |index| == old(|index|) && Renumbered(index, s, first, i)
      {
        ShiftStep(index, s, first, i);
        var renum := items[i + 1];
        assert index[renum] == i + 1;
        items := items[i := renum];
        index := index[renum := i];
        i := i + 1;
      }
    }

    /** The array part of remove. */
    method CloseGap(i: nat)
      requires i < |items| && Placed(index, items)
      modifies this`items, this`index
      ensures items == Without(old(items), i) && Placed(index, items) && |index| == old(|index|)
    {
      ShiftItems(i, |items| - 1);
      items := items[..|items| - 1];
    }

    /** The array part of move_item_back. */
    method ShiftBack(i: nat, next: nat)
      requires i <= next < |items| && Placed(index, items)
      modifies this`items, this`index
      ensures items == Moved(old(items), i, next) && Placed(index, items) && |index| == old(|index|)
    {
      var n := items[i];
      PlacedIs(index, items);
      MovedAt(items, i, next);
      ShiftItems(i, next);
      items := items[next := n];
      index := index[n := next];
    }

    // -------------------------------------------------------------- operations

    /** The nodes of s, except node i, keep their hashes. */
    lemma HashedOthers(s: seq<nat>, i: nat)
      requires i < |s| && AllHashed(s)
      ensures Hashed(s[i]) && AllHashed(Without(s, i))
    {
    }

    /** remove. */
    method Remove(i: nat)
      requires Valid() && i < |items|
      modifies this`items, this`index, this`hashTable, this`nextHash
      ensures Valid() && items == Without(old(items), i) && Entries() == Without(old(Entries()), i)
    {
      var n := items[i];
      PairsWithout(key, value, items, i);
      PlacedIs(index, items);
      HashedOthers(items, i);
      hide AllLinked;
      hide Bucket;
      hide Without;
      var prev := RemoveFromHash(n, items, i);
      CloseGap(i);
    }

    /** set_item_key. */
    method SetItemKey(i: nat, k: K)
      requires Valid() && i < |items|
      modifies this`key, this`hashTable, this`nextHash, this`hash, this`hashIndex
      ensures Valid() && key == old(key)[items[i] := k] && Entries() == old(Entries())[i := (k, old(Entries())[i].1)]
    {
      var n := items[i];
      PairsRenamed(key, value, items, i, k);
      PlacedIs(index, items);
      HashedOthers(items, i);
      WithoutDistinct(items, i);
      hide AllLinked;
      hide Bucket;
      var prev := RemoveFromHash(n, items, i);
      key := key[n := k];
      InsertInHash(n, items, i);
    }

    /** What there is in the chain of the node that was node i of s and is at next now. */
    lemma ChainOfMoved(next: nat, s: seq<nat>, i: nat)
      requires i <= next < |s| && s[i] < |hashIndex| == |nextHash| == |index| && hashIndex[s[i]] < |hashTable|
      requires items == Moved(s, i, next) && Placed(index, items) && Chained(s)
      ensures items[next] == s[i] && Distinct(items) && Without(items, next) == Without(s, i) && index[s[i]] == next
      ensures var u := Bucket(hashIndex, Without(s, i), hashIndex[s[i]]);
        var p, p' := Place(hashIndex, s, i), Place(hashIndex, items, next);
        && p <= p' <= |u| && nextHash[s[i]] == At(u, p)
        && forall k :: 0 <= k < |u| ==> u[k] < |index| && (index[u[k]] < next <==> k < p')
    {
      PlacedIs(index, items);
      MovedAt(s, i, next);
      PlaceMoved(hashIndex, s, i, next);
      PlaceByIndex(index, hashIndex, items, next);
      PlaceIs(hashIndex, s, i);
      assert LinkAt(nextHash, Bucket(hashIndex, s, hashIndex[s[i]]), Place(hashIndex, s, i)) by {
        assert Linked(nextHash, hashTable[hashIndex[s[i]]], Bucket(hashIndex, s, hashIndex[s[i]]));
      }
    }

    lemma ChainIs(s: seq<nat>, b: nat)
      requires Chained(s) && b < |hashTable|
      ensures Linked(nextHash, At(Bucket(hashIndex, s, b), 0), Bucket(hashIndex, s, b))
    {
      assert Linked(nextHash, hashTable[b], Bucket(hashIndex, s, b));
    }

    /** The chain part of move_item_back, for the node that was node i of s and is at next now. */
    method MoveInChain(n: nat, next: nat, ghost s: seq<nat>, ghost i: nat)
      requires i <= next < |s| && s[i] == n < |hashIndex| == |nextHash| == |index| && hashIndex[n] < |hashTable|
      requires items == Moved(s, i, next) && Placed(index, items) && Distinct(s) && Chained(s)
      modifies this`hashTable, this`nextHash
      ensures |nextHash| == old(|nextHash|) && |hashTable| == old(|hashTable|) && Chained(items)
    {
      ChainOfMoved(next, s, i);
      ghost var p, p' := Place(hashIndex, s, i), Place(hashIndex, items, next);
      ghost var u := Bucket(hashIndex, Without(s, i), hashIndex[n]);
      AtIs(u, p);
      hide *;
      if nextHash[n] != NULL && index[nextHash[n]] < next {
        var prev := RemoveFromHash(n, s, i);
        var first := nextHash[n];
        ChainIs(Without(s, i), hashIndex[n]);
        StepIs(nextHash, u, p);
        var cur;
        prev, cur := WalkBelow(first, nextHash[first], next, u, p + 1, p');
        SpliceIn(n, prev, cur, items, next);
      } else {
        StaysInChain(next, s, i);
      }
    }

    lemma StaysInChain(next: nat, s: seq<nat>, i: nat)
      requires i <= next < |s| && s[i] < |hashIndex| && Chained(s)
      requires items == Moved(s, i, next) && items[next] == s[i]
      requires Place(hashIndex, s, i) == Place(hashIndex, items, next)
      ensures Chained(items)
    {
      hide Bucket;
      hide Moved;
      forall b | 0 <= b < |hashTable|
        ensures Linked(nextHash, hashTable[b], Bucket(hashIndex, items, b))
      {
        MovedBucket(hashIndex, s, i, next, b);
      }
    }

    /** The node after node i in its chain has a larger index. */
    lemma LaterInChain(i: nat)
      requires Valid() && i < |items|
      ensures var n := items[i];
        && n < |nextHash| == |index|
        && (nextHash[n] != NULL ==> 0 <= nextHash[n] < |index| && nextHash[n] != n && index[nextHash[n]] > i)
    {
      var p := NodeInChain(i);
      var n := items[i];
      var c := Bucket(hashIndex, items, hashIndex[n]);
      PlacedIs(index, items);
      BucketInOrder(index, hashIndex, items, hashIndex[n]);
      assert LinkAt(nextHash, c, p);
    }

    /** move_item_back: past the end it does nothing. The new index is a 32-bit sum; should it wrap to one
        before i, the node is written over the one there, which is lost to the array, and the table is
        no longer valid. */
    method MoveItemBack(i: nat, backCount: nat)
      requires Valid() && i < 0x1_0000_0000 && backCount < 0x1_0000_0000
      modifies this`items, this`index, this`hashTable, this`nextHash
      ensures var next := (i + backCount) % 0x1_0000_0000;
        if i >= old(|items|) || next >= old(|items|) then
          Valid() && items == old(items) && Entries() == old(Entries())
        else if next >= i then
          Valid() && items == Moved(old(items), i, next) && Entries() == Moved(old(Entries()), i, next)
        else
          && !Valid() && items == old(items)[next := old(items)[i]] && index == old(index)[old(items)[i] := next]
          && hashTable == old(hashTable) && nextHash == old(nextHash)
    {
      if i >= |items| {
        return;
      }
      var next := (i + backCount) % 0x1_0000_0000;
      if next >= |items| {
        return;
      }
      var n := items[i];
      PlacedIs(index, items);
      if next < i {
        // no item is between the two, and no node that follows in the chain comes before next
        LaterInChain(i);
        items := items[next := n];
        index := index[n := next];
        assert nextHash[n] == NULL || index[nextHash[n]] > next;
        assert items[i] == items[next] == n;
        return;
      }
      PairsMoved(key, value, items, i, next);
      ghost var s := items;
      HashedOthers(items, i);
      MovedAt(items, i, next);
      hide Bucket;
      hide AllLinked;
      hide Moved;
      ShiftBack(i, next);
      MoveInChain(n, next, s, i);
    }

    /** The chains of a larger table, built from the last node to the first. */
    method Relink(newSize: nat) returns (newTable: seq<int>)
      requires Sized() && Placed(index, items) && newSize > 0
      modifies this`nextHash, this`hashIndex
      ensures |nextHash| == |hashIndex| == |hash| && |newTable| == newSize
      ensures Relinked(nextHash, hashIndex, hash, newTable, items, 0)
    {
      newTable := seq(newSize, b => NULL);
      PlacedIs(index, items);
      RelinkStarts(nextHash, hashIndex, hash, newTable, items);
      assert forall k :: 0 <= k < |items| ==> items[k] < |hash|;
      hide *;
      var i := |items| - 1;
      while i >= 0
        invariant -1 <= i < |items| && |newTable| == newSize && |nextHash| == |hashIndex| == |hash|
        invariant Relinked(nextHash, hashIndex, hash, newTable, items, i + 1)
      {
        var n := items[i];
        var b := BucketIndex(hash[n], newSize);
        RelinkStep(nextHash, hashIndex, hash, newTable, items, i);
        hashIndex := hashIndex[n := b];
        nextHash := nextHash[n := newTable[b]];
        newTable := newTable[b := n];
        i := i - 1;
      }
    }

    /** _check_size. */
    method CheckSize(reserveSize: nat)
      requires Valid() && reserveSize < HashTableFlat.LAST_PRIME && |items| < 0x8000_0000
      modifies this`tableSize, this`hashTable, this`nextHash, this`hashIndex
      ensures Valid() && tableSize > reserveSize && Entries() == old(Entries())
      ensures old(tableSize) > reserveSize ==> tableSize == old(tableSize) && hashTable == old(hashTable)
      ensures old(tableSize) <= reserveSize ==> HashTableFlat.NextPrime(reserveSize, tableSize)
    {
      if tableSize <= reserveSize {
        var newSize := HashTableFlat.NextLargerHashPrime(reserveSize);
        hide AllLinked;
        hide Placed;
        hide BucketIndex;
        hide HashTableFlat.Primes;
        hide HashTableFlat.NextPrime;
        assert forall k :: 0 <= k < |items| ==> Hashed(items[k]);
        var newTable := Relink(newSize);
        assert items[0..] == items;
        tableSize, hashTable := newSize, newTable;
      }
    }

    /** A new last node, not linked yet. */
    method AddNode(k: K, v: V) returns (n: nat)
      requires Valid() && |items| < tableSize
      modifies this`items, this`nextHash, this`index, this`hash, this`hashIndex, this`key, this`value
      ensures Sized() && Placed(index, items) && n == |old(index)| < |index| && items == old(items) + [n]
      ensures key == old(key) + [k] && value == old(value) + [v]
      ensures AllHashed(Without(items, |items| - 1)) && Chained(Without(items, |items| - 1))
    {
      n := |index|;
      ghost var u, next, home := items, nextHash, hashIndex;
      nextHash, index, hash, hashIndex := nextHash + [NULL], index + [|items|], hash + [0], hashIndex + [0];
      key, value := key + [k], value + [v];
      items := items + [n];
      assert Without(items, |items| - 1) == u;
      assert forall i :: 0 <= i < |u| ==> u[i] < |home|;
      hide Bucket;
      AddedKeeps(next, home, nextHash, hashIndex, hashTable, u);
    }

    /** insert, at the end. */
    method Insert(k: K, v: V) returns (i: nat)
      requires Valid() && |items| + 1 < HashTableFlat.LAST_PRIME && |items| < 0x8000_0000
      modifies this
      ensures Valid() && i == |old(items)| && items == old(items) + [|old(index)|]
      ensures key == old(key) + [k] && value == old(value) + [v] && Entries() == old(Entries()) + [(k, v)]
    {
      PairsAdded(key, value, items, k, v);
      CheckSize(|items| + 1);
      i := |items|;
      var n := AddNode(k, v);
      PlacedIs(index, items);
      WithoutDistinct(items, i);
      assert forall k :: 0 <= k < i ==> items[k] != n && Hashed(items[k]) by {
        assert forall k :: 0 <= k < i ==> items[k] == Without(items, i)[k];
      }
      hide AllLinked;
      hide Without;
      hide Hashed;
      InsertInHash(n, items, i);
    }

    /** insert_unique: nothing happens if the key is there already. */
    method InsertUnique(k: K, v: V) returns (inserted: bool)
      requires Valid() && |items| + 1 < HashTableFlat.LAST_PRIME && |items| < 0x8000_0000
      modifies this
      ensures Valid() && inserted == (k !in old(Keys(key, items)))
      ensures Entries() == if inserted then old(Entries()) + [(k, v)] else old(Entries())
    {
      var p := Find(k);
      inserted := p >= |items|;
      if inserted {
        var i := Insert(k, v);
      }
    }

    /** The loop with which a client finds the first entry of a key that suits it. */
    method FindWhere(k: K, suits: V -> bool) returns (r: nat)
      requires Valid()
      ensures r < |items| ==> Entries()[r].0 == k && suits(Entries()[r].1)
      ensures forall i :: 0 <= i < r && i < |items| ==> !(Entries()[i].0 == k && suits(Entries()[i].1))
    {
      assert forall i :: 0 <= i < |items| ==> items[i] < |key| == |value|;
      hide Valid;
      r := Find(k);
      ghost var keys := Keys(key, items);
      while r < |items| && !suits(value[items[r]])
        invariant r < |items| ==> keys[r] == k
        invariant forall i :: 0 <= i < r && i < |items| ==> !(Entries()[i].0 == k && suits(Entries()[i].1))
        decreases |items| - r
      {
        r := NextMatch(r);
      }
    }
  }
}
