/** hash_table_flat: linear probing, growth, and removal with reinsertion of the entries
    that follow the hole. */
module HashTableFlat {

  datatype Entry<K, V> = Empty | Full(key: K, value: V)

  type Table<K, V> = t: seq<Entry<K, V>> | |t| > 0 witness [Empty]

  /** What looping_counter makes of a hash: a value already in range becomes 0. */
  function Start(hash: nat, n: nat): (r: nat)
    requires n > 0
    ensures r < n
  {
    if hash < n then 0 else hash % n
  }

  function Next(i: nat, n: nat): (r: nat)
    requires i < n
    ensures r < n
  {
    if i + 1 >= n then 0 else i + 1
  }

  /** Steps from bucket a forward to bucket b. */
  function Dist(a: nat, b: nat, n: nat): (r: nat)
    requires a < n && b < n
    ensures r < n
  {
    if b >= a then b - a else b + n - a
  }

  /** Every bucket probed on the way from h to i is full. */
  ghost predicate PathFull<K, V>(t: Table<K, V>, h: nat, i: nat)
    requires h < |t| && i < |t|
  {
    forall j :: 0 <= j < |t| && Dist(h, j, |t|) < Dist(h, i, |t|) ==> t[j].Full?
  }

  /** The entry in bucket i is found by probing from where its key starts. */
  ghost predicate Reached<K, V>(t: Table<K, V>, hash: K -> nat, i: nat)
    requires i < |t|
  {
    t[i].Full? ==> PathFull(t, Start(hash(t[i].key), |t|), i)
  }

  /** The invariant of the table: every entry is reached. */
  ghost predicate AllReached<K, V>(t: Table<K, V>, hash: K -> nat) {
    forall i :: 0 <= i < |t| ==> Reached(t, hash, i)
  }

  ghost function One<K, V>(e: Entry<K, V>): multiset<(K, V)> {
    if e.Full? then multiset{(e.key, e.value)} else multiset{}
  }

  /** The entries of the table, without their places. */
  ghost function Contents<K, V>(t: seq<Entry<K, V>>): (r: multiset<(K, V)>)
    ensures |r| <= |t|
  {
    if t == [] then multiset{} else One(t[0]) + Contents(t[1..])
  }

  lemma Rearranged<T>(a: multiset<T>, b: multiset<T>, c: multiset<T>)
    ensures a + b + c == c + b + a && a + b + c == a + (b + c)
  {
  }

  lemma {:induction false} ContentsUpdate<K, V>(t: seq<Entry<K, V>>, i: nat, e: Entry<K, V>)
    requires i < |t|
    ensures Contents(t[i := e]) + One(t[i]) == Contents(t) + One(e)
  {
    var u := t[i := e];
    assert Contents(u) == One(u[0]) + Contents(u[1..]) && Contents(t) == One(t[0]) + Contents(t[1..]);
    if i == 0 {
      assert u[1..] == t[1..];
      Rearranged(One(e), Contents(t[1..]), One(t[0]));
    } else {
      assert u[1..] == t[1..][i - 1 := e];
      ContentsUpdate(t[1..], i - 1, e);
      Rearranged(One(t[0]), Contents(u[1..]), One(t[i]));
      Rearranged(One(t[0]), Contents(t[1..]), One(e));
    }
  }

  lemma {:induction false} EntryCounts<K, V>(t: seq<Entry<K, V>>, i: nat)
    requires i < |t| && t[i].Full?
    ensures (t[i].key, t[i].value) in Contents(t)
  {
    if i > 0 {
      EntryCounts(t[1..], i - 1);
    }
  }

  lemma {:induction false} CountedEntry<K, V>(t: seq<Entry<K, V>>, k: K, v: V) returns (i: nat)
    requires (k, v) in Contents(t)
    ensures i < |t| && t[i] == Full(k, v)
  {
    if (k, v) in One(t[0]) {
      i := 0;
    } else {
      var j := CountedEntry(t[1..], k, v);
      i := j + 1;
    }
  }

  /** A table that is not full has an empty bucket, also among those that are not i. */
  lemma {:induction false} RoomLeft<K, V>(t: seq<Entry<K, V>>) returns (e: nat)
    requires |Contents(t)| < |t|
    ensures e < |t| && t[e].Empty?
  {
    if t[0].Empty? {
      e := 0;
    } else {
      var d := RoomLeft(t[1..]);
      e := d + 1;
    }
  }

  lemma {:induction false} EmptyTable<K, V>(t: seq<Entry<K, V>>)
    requires forall i :: 0 <= i < |t| ==> t[i].Empty?
    ensures Contents(t) == multiset{}
  {
    if t != [] {
      EmptyTable(t[1..]);
    }
  }

  // -------------------------------------------------------------------- lookup

  /** Whether a lookup of k gets as far as bucket i without finding it. */
  ghost predicate Passed<K, V>(t: Table<K, V>, h: nat, i: nat, k: K)
    requires h < |t| && i < |t|
  {
    forall j :: 0 <= j < |t| && Dist(h, j, |t|) < Dist(h, i, |t|) ==> t[j].Full? && t[j].key != k
  }

  lemma PassedNext<K, V>(t: Table<K, V>, h: nat, i: nat, k: K, e: nat)
    requires h < |t| && i < |t| && e < |t| && Passed(t, h, i, k) && t[i].Full? && t[i].key != k && t[e].Empty?
    ensures Dist(h, Next(i, |t|), |t|) == Dist(h, i, |t|) + 1
    ensures Passed(t, h, Next(i, |t|), k)
  {
    assert Dist(h, i, |t|) <= Dist(h, e, |t|);
  }

  /** _find: the first entry with the key in probing order, or |t|. */
  method Find<K(==), V>(t: Table<K, V>, hash: K -> nat, key: K) returns (r: nat)
    requires |Contents(t)| < |t|
    ensures r <= |t|
    ensures r < |t| ==> t[r].Full? && t[r].key == key && Passed(t, Start(hash(key), |t|), r, key)
    ensures r == |t| ==> exists e :: 0 <= e < |t| && t[e].Empty? && Passed(t, Start(hash(key), |t|), e, key)
  {
    ghost var e := RoomLeft(t);
    var h := Start(hash(key), |t|);
    var bucket: nat := h;
    while t[bucket].Full?
      invariant bucket < |t| && Passed(t, h, bucket, key)
      decreases |t| - Dist(h, bucket, |t|)
    {
      if t[bucket].key == key {
        return bucket;
      }
      PassedNext(t, h, bucket, key, e);
      bucket := Next(bucket, |t|);
    }
    return |t|;
  }

  /** In a table whose entries are all reached, a lookup succeeds exactly when the key is there. */
  lemma FindIsRight<K, V>(t: Table<K, V>, hash: K -> nat, key: K, e: nat)
    requires AllReached(t, hash) && e < |t| && t[e].Empty? && Passed(t, Start(hash(key), |t|), e, key)
    ensures forall i :: 0 <= i < |t| && t[i].Full? ==> t[i].key != key
  {
    forall i | 0 <= i < |t| && t[i].Full?
      ensures t[i].key != key
    {
      assert Reached(t, hash, i);
      EmptyIsFurther(t, Start(hash(t[i].key), |t|), i, e);
    }
  }

  lemma EmptyIsFurther<K, V>(t: Table<K, V>, h: nat, i: nat, e: nat)
    requires h < |t| && i < |t| && e < |t| && t[i].Full? && t[e].Empty? && PathFull(t, h, i)
    ensures Dist(h, i, |t|) < Dist(h, e, |t|)
  {
  }

  /** No other entry has the key of entry i. */
  ghost predicate OnlyOne<K, V>(t: Table<K, V>, i: nat)
    requires i < |t|
  {
    forall j :: 0 <= j < |t| && j != i && t[j].Full? && t[i].Full? ==> t[j].key != t[i].key
  }

  /** An entry that is not reached is lost to lookups, if no other entry has its key. */
  lemma UnreachedIsLost<K, V>(t: Table<K, V>, hash: K -> nat, i: nat, r: nat)
    requires i < |t| && t[i].Full? && !Reached(t, hash, i) && OnlyOne(t, i)
    requires r < |t| && t[r].Full? && t[r].key == t[i].key
    ensures !Passed(t, Start(hash(t[i].key), |t|), r, t[i].key)
  {
    assert r == i;
    hide Dist;
  }

  /** A lookup that comes to an empty bucket has passed no entry of its key that is reached. */
  lemma ReachedIsFound<K, V>(t: Table<K, V>, hash: K -> nat, i: nat, e: nat)
    requires i < |t| && e < |t| && t[i].Full? && t[e].Empty?
    requires Passed(t, Start(hash(t[i].key), |t|), e, t[i].key)
    ensures !Reached(t, hash, i)
  {
    var h := Start(hash(t[i].key), |t|);
    if PathFull(t, h, i) {
      EmptyIsFurther(t, h, i, e);
    }
  }

  // ------------------------------------------------------------------- insertion

  /** The probe for a place: all buckets before it are full. */
  method FreePlace<K, V>(t: Table<K, V>, h: nat) returns (r: nat)
    requires h < |t| && |Contents(t)| < |t|
    ensures r < |t| && t[r].Empty? && PathFull(t, h, r)
  {
    ghost var e := RoomLeft(t);
    r := h;
    while t[r].Full?
      invariant r < |t| && PathFull(t, h, r)
      decreases |t| - Dist(h, r, |t|)
    {
      PathNext(t, h, r, e);
      r := Next(r, |t|);
    }
  }

  lemma PathNext<K, V>(t: Table<K, V>, h: nat, i: nat, e: nat)
    requires h < |t| && i < |t| && e < |t| && PathFull(t, h, i) && t[i].Full? && t[e].Empty?
    ensures Dist(h, Next(i, |t|), |t|) == Dist(h, i, |t|) + 1 && PathFull(t, h, Next(i, |t|))
  {
    assert Dist(h, i, |t|) <= Dist(h, e, |t|);
  }

  lemma MoreFull<K, V>(t: Table<K, V>, u: Table<K, V>, h: nat, i: nat)
    requires |u| == |t| && (forall j :: 0 <= j < |t| && t[j].Full? ==> u[j].Full?)
    requires h < |t| && i < |t| && PathFull(t, h, i)
    ensures PathFull(u, h, i)
  {
    hide Dist;
  }

  lemma ReachedIs<K, V>(t: Table<K, V>, hash: K -> nat, i: nat)
    requires i < |t|
    ensures Reached(t, hash, i) <==> t[i].Full? ==> PathFull(t, Start(hash(t[i].key), |t|), i)
  {
  }

  lemma FillAdds<K, V>(t: Table<K, V>, r: nat, k: K, v: V)
    requires r < |t| && t[r].Empty?
    ensures Contents(t[r := Full(k, v)]) == Contents(t) + multiset{(k, v)}
  {
    ContentsUpdate(t, r, Full(k, v));
  }

  /** Filling an empty bucket reached from its key's start keeps every entry reached. */
  lemma FillKeeps<K, V>(t: Table<K, V>, hash: K -> nat, r: nat, k: K, v: V)
    requires AllReached(t, hash) && r < |t| && t[r].Empty? && PathFull(t, Start(hash(k), |t|), r)
    ensures AllReached(t[r := Full(k, v)], hash)
  {
    var u := t[r := Full(k, v)];
    hide PathFull;
    hide Reached;
    hide Start;
    forall i | 0 <= i < |u|
      ensures Reached(u, hash, i)
    {
      ReachedIs(u, hash, i);
      if i == r {
        MoreFull(t, u, Start(hash(k), |t|), i);
      } else {
        assert Reached(t, hash, i);
        ReachedIs(t, hash, i);
        if t[i].Full? {
          MoreFull(t, u, Start(hash(t[i].key), |t|), i);
        }
      }
    }
  }

  /** The new entry itself is reached, also in a table where others are not. */
  lemma FilledIsReached<K, V>(t: Table<K, V>, hash: K -> nat, r: nat, k: K, v: V)
    requires r < |t| && t[r].Empty? && PathFull(t, Start(hash(k), |t|), r)
    ensures Reached(t[r := Full(k, v)], hash, r)
  {
    MoreFull(t, t[r := Full(k, v)], Start(hash(k), |t|), r);
  }

  // ------------------------------------------------------- entries of the same key

  /** The bucket d steps on from h. */
  function Ahead(h: nat, d: nat, n: nat): (r: nat)
    requires h < n && d < n
    ensures r < n && Dist(h, r, n) == d
  {
    if h + d < n then h + d else h + d - n
  }

  ghost function Hit<K, V>(e: Entry<K, V>, k: K): seq<V> {
    if e.Full? && e.key == k then [e.value] else []
  }

  /** The values of k in the first d buckets from h on, in the order of a probe. */
  ghost function Met<K, V>(t: Table<K, V>, h: nat, k: K, d: nat): seq<V>
    requires h < |t| && d <= |t|
  {
    if d == 0 then [] else Met(t, h, k, d - 1) + Hit(t[Ahead(h, d - 1, |t|)], k)
  }

  /** The values of a key, in the order in which a lookup would come to them. */
  ghost function Values<K, V>(t: Table<K, V>, hash: K -> nat, k: K): seq<V> {
    Met(t, Start(hash(k), |t|), k, |t|)
  }

  /** The values of a key in the order of the buckets. */
  ghost function InBuckets<K, V>(t: seq<Entry<K, V>>, k: K): seq<V> {
    if t == [] then [] else InBuckets(t[..|t| - 1], k) + Hit(t[|t| - 1], k)
  }

  /** u has one value more than t, behind those of its key. */
  ghost predicate Adds<K(!new), V>(t: Table<K, V>, u: Table<K, V>, hash: K -> nat, key: K, value: V) {
    forall q :: Values(u, hash, q) == Values(t, hash, q) + Extra(q, key, value)
  }

  /** u has the values of t, each key's in the order of the buckets. */
  ghost predicate Takes<K(!new), V>(t: seq<Entry<K, V>>, u: Table<K, V>, hash: K -> nat) {
    forall q :: Values(u, hash, q) == InBuckets(t, q)
  }

  /** The same with one value more. */
  ghost predicate TakesAndAdds<K(!new), V>(t: seq<Entry<K, V>>, u: Table<K, V>, hash: K -> nat, key: K, value: V) {
    forall q :: Values(u, hash, q) == InBuckets(t, q) + Extra(q, key, value)
  }

  ghost function Extra<K, V>(q: K, key: K, value: V): seq<V> {
    if q == key then [value] else []
  }

  /** One bucket of a probe, before and after an entry was put in bucket b. */
  lemma HitAfter<K, V>(t: Table<K, V>, hash: K -> nat, b: nat, k: K, v: V, q: K, d: nat)
    requires AllReached(t, hash) && b < |t| && t[b].Empty? && d < |t|
    requires PathFull(t, Start(hash(k), |t|), b)
    ensures var h := Start(hash(q), |t|); var c := Ahead(h, d, |t|);
      && (c == b <==> Dist(h, b, |t|) == d)
      && (c == b ==> Hit(t[c], q) == [] && Hit(t[b := Full(k, v)][c], q) == Extra(q, k, v))
      && (c != b ==> Hit(t[b := Full(k, v)][c], q) == Hit(t[c], q))
      && (q == k && Dist(h, b, |t|) < d ==> Hit(t[c], q) == [])
  {
    var h := Start(hash(q), |t|);
    var c := Ahead(h, d, |t|);
    DistFacts(h, |t|);
    assert Reached(t, hash, c);
    hide Dist;
    hide Ahead;
    hide Start;
  }

  lemma {:induction false} MetAfter<K, V>(t: Table<K, V>, hash: K -> nat, b: nat, k: K, v: V, q: K, d: nat)
    requires AllReached(t, hash) && b < |t| && t[b].Empty? && d <= |t|
    requires PathFull(t, Start(hash(k), |t|), b)
    ensures var h := Start(hash(q), |t|);
      && (Dist(h, b, |t|) < d ==> Met(t[b := Full(k, v)], h, q, d) == Met(t, h, q, d) + Extra(q, k, v))
      && (Dist(h, b, |t|) >= d ==> Met(t[b := Full(k, v)], h, q, d) == Met(t, h, q, d))
  {
    hide AllReached;
    hide PathFull;
    hide Dist;
    hide Ahead;
    hide Start;
    hide Hit;
    if d > 0 {
      MetAfter(t, hash, b, k, v, q, d - 1);
      HitAfter(t, hash, b, k, v, q, d - 1);
    }
  }

  /** A new entry comes after those of its key, and changes nothing for other keys. */
  lemma ValuesAfter<K(!new), V>(t: Table<K, V>, hash: K -> nat, b: nat, k: K, v: V)
    requires AllReached(t, hash) && b < |t| && t[b].Empty? && PathFull(t, Start(hash(k), |t|), b)
    ensures Adds(t, t[b := Full(k, v)], hash, k, v)
  {
    hide AllReached;
    hide PathFull;
    hide Met;
    forall q
      ensures Values(t[b := Full(k, v)], hash, q) == Values(t, hash, q) + Extra(q, k, v)
    {
      MetAfter(t, hash, b, k, v, q, |t|);
    }
  }

  lemma TakesNothing<K(!new), V>(u: Table<K, V>, hash: K -> nat)
    requires forall i :: 0 <= i < |u| ==> u[i].Empty?
    ensures Takes([], u, hash)
  {
    forall q
      ensures Values(u, hash, q) == []
    {
      NoValues(u, hash, q);
    }
  }

  /** One bucket further. */
  lemma TakesOne<K(!new), V>(t: seq<Entry<K, V>>, i: nat, u: Table<K, V>, w: Table<K, V>, hash: K -> nat)
    requires i < |t| && Takes(t[..i], u, hash)
    requires if t[i].Full? then Adds(u, w, hash, t[i].key, t[i].value) else w == u
    ensures Takes(t[..i + 1], w, hash)
  {
    hide Values;
    forall q
      ensures Values(w, hash, q) == InBuckets(t[..i + 1], q)
    {
      BucketsGrow(t, i, q);
    }
  }

  lemma TakesThenAdds<K(!new), V>(t: seq<Entry<K, V>>, u: Table<K, V>, w: Table<K, V>, hash: K -> nat, key: K, value: V)
    requires Takes(t, u, hash) && Adds(u, w, hash, key, value)
    ensures TakesAndAdds(t, w, hash, key, value)
  {
    hide Values;
    hide InBuckets;
  }

  lemma {:induction false} NothingMet<K, V>(t: Table<K, V>, h: nat, k: K, d: nat)
    requires h < |t| && d <= |t| && forall j :: 0 <= j < |t| && Dist(h, j, |t|) < d ==> Hit(t[j], k) == []
    ensures Met(t, h, k, d) == []
  {
    if d > 0 {
      NothingMet(t, h, k, d - 1);
    }
  }

  lemma {:induction false} MetGrows<K, V>(t: Table<K, V>, h: nat, k: K, c: nat, d: nat)
    requires h < |t| && c <= d <= |t|
    ensures Met(t, h, k, c) <= Met(t, h, k, d)
    decreases d
  {
    if c < d {
      MetGrows(t, h, k, c, d - 1);
    }
  }

  /** What a lookup comes to is the first value of the key. */
  lemma FirstMet<K, V>(t: Table<K, V>, h: nat, k: K, r: nat)
    requires h < |t| && r < |t| && Passed(t, h, r, k) && t[r].Full? && t[r].key == k
    ensures Met(t, h, k, |t|) != [] && Met(t, h, k, |t|)[0] == t[r].value
  {
    var d := Dist(h, r, |t|);
    NothingMet(t, h, k, d);
    assert Ahead(h, d, |t|) == r;
    assert Met(t, h, k, d + 1) == [t[r].value];
    MetGrows(t, h, k, d + 1, |t|);
  }

  lemma NoValues<K, V>(t: Table<K, V>, hash: K -> nat, k: K)
    requires forall i :: 0 <= i < |t| && t[i].Full? ==> t[i].key != k
    ensures Values(t, hash, k) == []
  {
    NothingMet(t, Start(hash(k), |t|), k, |t|);
  }

  lemma BucketsGrow<K, V>(t: seq<Entry<K, V>>, i: nat, k: K)
    requires i < |t|
    ensures InBuckets(t[..i + 1], k) == InBuckets(t[..i], k) + Hit(t[i], k)
  {
    assert t[..i + 1][..i] == t[..i];
  }

  // --------------------------------------------------------------------- removal

  /** The path of the entry in bucket i leads over bucket r. */
  ghost predicate Crosses<K, V>(t: Table<K, V>, hash: K -> nat, i: nat, r: nat)
    requires i < |t| && r < |t|
  {
    t[i].Full? && var h := Start(hash(t[i].key), |t|); Dist(h, r, |t|) < Dist(h, i, |t|)
  }

  /** The reinsertion loop at bucket b, with a hole at h: the run of full buckets that
      followed h in the table `was` goes up to e, which is empty; what lies between b
      and e is as it was; all other entries are reached. */
  ghost predicate Repairing<K, V>(was: Table<K, V>, t: Table<K, V>, hash: K -> nat, h: nat, b: nat, e: nat) {
    var n := |t|;
    && |was| == n && h < n && b < n && e < n && h != e && Dist(h, b, n) < Dist(h, e, n)
    && AllReached(was, hash) && was[h].Full? && was[e].Empty?
    && (forall j :: 0 <= j < n && 0 < Dist(h, j, n) < Dist(h, e, n) ==> was[j].Full?)
    && (forall j :: 0 <= j < n && Dist(h, b, n) < Dist(h, j, n) ==> t[j] == was[j])
    && (forall i :: 0 <= i < n && !(Dist(h, b, n) < Dist(h, i, n) < Dist(h, e, n)) ==> Reached(t, hash, i))
  }

  /** Right after the removal the loop may start at the hole. */
  lemma RepairStarts<K, V>(was: Table<K, V>, hash: K -> nat, h: nat, e: nat)
    requires AllReached(was, hash) && h < |was| && e < |was| && was[h].Full? && was[e].Empty?
    requires forall j :: 0 <= j < |was| && 0 < Dist(h, j, |was|) < Dist(h, e, |was|) ==> was[j].Full?
    ensures Repairing(was, was[h := Empty], hash, h, h, e)
  {
    var t := was[h := Empty];
    forall i | 0 <= i < |t| && !(0 < Dist(h, i, |t|) < Dist(h, e, |t|))
      ensures Reached(t, hash, i)
    {
      assert Reached(was, hash, i);
      if t[i].Full? {
        PathAvoids(was, t, Start(hash(t[i].key), |t|), i, h, e);
      }
    }
  }

  /** The path of an entry outside the run does not lead over the hole, or it would lead
      over the empty end of the run. */
  lemma PathAvoids<K, V>(was: Table<K, V>, t: Table<K, V>, s: nat, i: nat, h: nat, e: nat)
    requires h < |was| && e < |was| && s < |was| && i < |was| && h != e && t == was[h := Empty]
    requires was[e].Empty? && was[i].Full? && PathFull(was, s, i) && i != h
    requires Dist(h, i, |was|) >= Dist(h, e, |was|)
    ensures PathFull(t, s, i)
  {
    if Dist(s, h, |was|) < Dist(s, i, |was|) {
      FurtherOn(s, h, e, i, |was|);
    }
  }

  /** A walk from s over h to i, with i no nearer to h than e, also leads over e. */
  lemma FurtherOn(s: nat, h: nat, e: nat, i: nat, n: nat)
    requires s < n && h < n && e < n && i < n && h != i
    requires Dist(s, h, n) < Dist(s, i, n) && Dist(h, e, n) <= Dist(h, i, n)
    ensures Dist(s, e, n) < Dist(s, i, n) || e == i
  {
  }

  lemma NextStep(h: nat, b: nat, e: nat, n: nat)
    requires h < n && b < n && e < n && Dist(h, b, n) < Dist(h, e, n)
    ensures Dist(h, Next(b, n), n) == Dist(h, b, n) + 1
    ensures forall j :: 0 <= j < n ==> (Dist(h, b, n) < Dist(h, j, n) <==> Dist(h, Next(b, n), n) <= Dist(h, j, n))
    ensures forall j :: 0 <= j < n ==> (Dist(h, j, n) == Dist(h, Next(b, n), n) <==> j == Next(b, n))
  {
  }

  /** The loop ends at the empty end of the run, with every entry reached. */
  lemma RepairEnds<K, V>(was: Table<K, V>, t: Table<K, V>, hash: K -> nat, h: nat, b: nat, e: nat)
    requires Repairing(was, t, hash, h, b, e)
    ensures t[Next(b, |t|)].Empty? <==> Next(b, |t|) == e
    ensures t[Next(b, |t|)].Empty? ==> AllReached(t, hash)
  {
    NextStep(h, b, e, |t|);
    hide Dist;
    hide Next;
    hide Reached;
  }

  /** An entry that is reached where it is stays there. */
  lemma RepairSkips<K, V>(was: Table<K, V>, t: Table<K, V>, hash: K -> nat, h: nat, b: nat, e: nat)
    requires Repairing(was, t, hash, h, b, e) && Next(b, |t|) != e && Reached(t, hash, Next(b, |t|))
    ensures Repairing(was, t, hash, h, Next(b, |t|), e)
  {
    NextStep(h, b, e, |t|);
    hide Dist;
    hide Next;
    hide Reached;
  }

  /** The place found for a misplaced entry is one of the holes made so far. */
  lemma PlaceIsBehind<K, V>(was: Table<K, V>, t: Table<K, V>, hash: K -> nat, h: nat, b: nat, e: nat, c: nat)
    requires Repairing(was, t, hash, h, b, e) && Next(b, |t|) != e && c < |t| && t[c].Empty?
    requires t[Next(b, |t|)].Full?
    requires var s := Start(hash(t[Next(b, |t|)].key), |t|); Dist(s, c, |t|) < Dist(s, Next(b, |t|), |t|)
    ensures Dist(h, c, |t|) <= Dist(h, b, |t|)
  {
    NextStep(h, b, e, |t|);
    hide Dist;
    hide Next;
    hide Start;
    var b' := Next(b, |t|);
    assert t[b'] == was[b'];
    assert Reached(was, hash, b');
  }

  lemma Cyclic(h: nat, b: nat, e: nat, i: nat, n: nat)
    requires h < n && b < n && e < n && i < n && i != b
    requires Dist(h, b, n) < Dist(h, e, n) && !(Dist(h, b, n) < Dist(h, i, n) < Dist(h, e, n))
    ensures Dist(b, e, n) <= Dist(b, i, n)
  {
  }

  /** A misplaced entry moves to the first free place on its path. */
  lemma RepairMoves<K, V>(was: Table<K, V>, t: Table<K, V>, hash: K -> nat, h: nat, b: nat, e: nat, c: nat)
    requires Repairing(was, t, hash, h, b, e) && Next(b, |t|) != e && c < |t| && t[c].Empty?
    requires t[Next(b, |t|)].Full?
    requires var s := Start(hash(t[Next(b, |t|)].key), |t|);
             Dist(s, c, |t|) < Dist(s, Next(b, |t|), |t|) && PathFull(t, s, c)
    ensures Repairing(was, t[c := t[Next(b, |t|)]][Next(b, |t|) := Empty], hash, h, Next(b, |t|), e)
  {
    var n, b' := |t|, Next(b, |t|);
    var u := t[c := t[b']][b' := Empty];
    NextStep(h, b, e, n);
    PlaceIsBehind(was, t, hash, h, b, e, c);
    forall i | 0 <= i < n && !(Dist(h, b', n) < Dist(h, i, n) < Dist(h, e, n))
      ensures Reached(u, hash, i)
    {
      MovedReached(t, u, hash, h, b', e, c, i);
    }
    hide Dist;
    hide Next;
    hide Start;
    hide Reached;
  }

  lemma MovedReached<K, V>(t: Table<K, V>, u: Table<K, V>, hash: K -> nat, h: nat, b: nat, e: nat, c: nat, i: nat)
    requires h < |t| && b < |t| && e < |t| && c < |t| && i < |t| && t[c].Empty? && t[b].Full? && t[e].Empty?
    requires u == t[c := t[b]][b := Empty] && Dist(h, b, |t|) < Dist(h, e, |t|)
    requires !(Dist(h, b, |t|) < Dist(h, i, |t|) < Dist(h, e, |t|))
    requires i != b && i != c ==> Reached(t, hash, i)
    requires var s := Start(hash(t[b].key), |t|); Dist(s, c, |t|) < Dist(s, b, |t|) && PathFull(t, s, c)
    ensures Reached(u, hash, i)
  {
    var n := |t|;
    if i == c {
      PathKept(t, u, Start(hash(t[b].key), n), c, b, c);
    } else if i != b && t[i].Full? {
      var s := Start(hash(t[i].key), n);
      Cyclic(h, b, e, i, n);
      if Dist(s, b, n) < Dist(s, i, n) {
        FurtherOn(s, b, e, i, n);
      } else {
        PathKept(t, u, s, i, b, c);
      }
    }
  }

  /** A path that does not lead over the bucket that is emptied stays full. */
  lemma PathKept<K, V>(t: Table<K, V>, u: Table<K, V>, s: nat, i: nat, b: nat, c: nat)
    requires s < |t| && i < |t| && b < |t| && c < |t| && t[b].Full? && u == t[c := t[b]][b := Empty]
    requires PathFull(t, s, i) && Dist(s, b, |t|) >= Dist(s, i, |t|)
    ensures PathFull(u, s, i)
  {
    hide Dist;
  }

  // ------------------------------------------- removal with a scan that starts elsewhere

  lemma DistFacts(h: nat, n: nat)
    requires h < n
    ensures forall i, j :: 0 <= i < n && 0 <= j < n && Dist(h, i, n) == Dist(h, j, n) ==> i == j
    ensures Dist(h, h, n) == 0
  {
  }

  lemma FirstStep(h: nat, d: nat, n: nat)
    requires h < n && d < n && h != d
    ensures Next(h, n) != h && Dist(h, Next(h, n), n) == 1 <= Dist(h, d, n)
  {
  }

  /** The first empty bucket after h. */
  lemma FirstEmpty<K, V>(t: Table<K, V>, h: nat) returns (e: nat)
    requires h < |t| && t[h].Full? && |Contents(t)| < |t|
    ensures e < |t| && e != h && t[e].Empty?
    ensures forall j :: 0 <= j < |t| && 0 < Dist(h, j, |t|) < Dist(h, e, |t|) ==> t[j].Full?
  {
    var d := RoomLeft(t);
    DistFacts(h, |t|);
    FirstStep(h, d, |t|);
    hide *;
    e := Next(h, |t|);
    while t[e].Full?
      invariant e < |t| && 0 < Dist(h, e, |t|) <= Dist(h, d, |t|)
      invariant forall j :: 0 <= j < |t| && 0 < Dist(h, j, |t|) < Dist(h, e, |t|) ==> t[j].Full?
      decreases |t| - Dist(h, e, |t|)
    {
      NextStep(h, e, d, |t|);
      e := Next(e, |t|);
    }
  }

  /** Buckets start + 1 to i were all full, and the hole at r is not among them. */
  ghost predicate RunTo<K, V>(was: Table<K, V>, start: nat, i: nat, r: nat)
    requires start < |was| && i < |was|
  {
    forall j :: 0 <= j < |was| && 0 < Dist(start, j, |was|) <= Dist(start, i, |was|) ==> was[j].Full? && j != r
  }

  /** Some entry whose path leads over r comes to be examined by a scan from `start`. */
  ghost predicate Examined<K, V>(was: Table<K, V>, hash: K -> nat, r: nat, start: nat)
    requires start < |was| && r < |was|
  {
    exists i :: 0 <= i < |was| && i != start && RunTo(was, start, i, r) && Crosses(was, hash, i, r)
  }

  /** No remaining entry needs bucket r. */
  ghost predicate NotNeeded<K, V>(was: Table<K, V>, hash: K -> nat, r: nat)
    requires r < |was|
  {
    forall i :: 0 <= i < |was| && i != r ==> !Crosses(was, hash, i, r)
  }

  /** Emptying bucket r alone is harmless exactly when no entry's path leads over it. */
  lemma HoleIsHarmless<K, V>(was: Table<K, V>, hash: K -> nat, r: nat)
    requires AllReached(was, hash) && r < |was|
    ensures AllReached(was[r := Empty], hash) <==> NotNeeded(was, hash, r)
  {
    var t := was[r := Empty];
    forall i | 0 <= i < |was| && i != r
      ensures Reached(t, hash, i) <==> !Crosses(was, hash, i, r)
    {
      assert Reached(was, hash, i);
      if t[i].Full? {
        HoleOnPath(was, t, Start(hash(t[i].key), |t|), i, r);
      }
    }
    hide Crosses;
    hide PathFull;
    hide Start;
    ReachedIs(t, hash, r);
    if NotNeeded(was, hash, r) {
      forall i | 0 <= i < |t|
        ensures Reached(t, hash, i)
      {
        assert i != r ==> !Crosses(was, hash, i, r);
      }
    }
  }

  lemma HoleOnPath<K, V>(was: Table<K, V>, t: Table<K, V>, s: nat, i: nat, r: nat)
    requires r < |was| && s < |was| && i < |was| && i != r && t == was[r := Empty] && PathFull(was, s, i)
    ensures PathFull(t, s, i) <==> Dist(s, r, |t|) >= Dist(s, i, |t|)
  {
    hide Dist;
    if PathFull(t, s, i) {
      assert t[r].Empty?;
    }
  }

  /** The scan before it meets an entry that needs the hole: nothing has moved. */
  ghost predicate Idle<K, V>(was: Table<K, V>, t: Table<K, V>, hash: K -> nat, r: nat, start: nat, b: nat) {
    && r < |was| && start < |was| && b < |was| && start != r && t == was[r := Empty]
    && AllReached(was, hash) && was[r].Full? && RunTo(was, start, b, r)
    && (forall j :: 0 <= j < |was| && 0 < Dist(start, j, |was|) <= Dist(start, b, |was|) ==> !Crosses(was, hash, j, r))
  }

  lemma IdleStarts<K, V>(was: Table<K, V>, hash: K -> nat, r: nat, start: nat)
    requires AllReached(was, hash) && r < |was| && start < |was| && start != r && was[r].Full?
    ensures Idle(was, was[r := Empty], hash, r, start, start)
  {
  }

  /** The next bucket of an idle scan is nearer than the hole, or is the hole. */
  lemma IdleNext<K, V>(was: Table<K, V>, t: Table<K, V>, hash: K -> nat, r: nat, start: nat, b: nat)
    requires Idle(was, t, hash, r, start, b)
    ensures Dist(start, Next(b, |t|), |t|) == Dist(start, b, |t|) + 1 <= Dist(start, r, |t|)
    ensures forall j :: 0 <= j < |t| ==>
              (Dist(start, j, |t|) <= Dist(start, b, |t|) || Dist(start, Next(b, |t|), |t|) <= Dist(start, j, |t|))
    ensures forall j :: 0 <= j < |t| && Dist(start, j, |t|) == Dist(start, Next(b, |t|), |t|) ==> j == Next(b, |t|)
  {
    assert Dist(start, b, |t|) < Dist(start, r, |t|);
    NextStep(start, b, r, |t|);
  }

  lemma RunBlocked<K, V>(was: Table<K, V>, start: nat, b: nat, i: nat, r: nat)
    requires start < |was| && i < |was| && b < |was| && RunTo(was, start, i, r)
    requires (was[b].Empty? || b == r) && Dist(start, b, |was|) > 0
    ensures Dist(start, i, |was|) < Dist(start, b, |was|)
  {
    hide Dist;
  }

  /** An idle scan that ends has repaired nothing. */
  lemma IdleEnds<K, V>(was: Table<K, V>, t: Table<K, V>, hash: K -> nat, r: nat, start: nat, b: nat)
    requires Idle(was, t, hash, r, start, b) && t[Next(b, |t|)].Empty?
    ensures AllReached(t, hash) <==> NotNeeded(was, hash, r)
    ensures !Examined(was, hash, r, start)
  {
    HoleIsHarmless(was, hash, r);
    IdleNext(was, t, hash, r, start, b);
    hide Crosses;
    hide Next;
    forall i | 0 <= i < |was| && i != start && RunTo(was, start, i, r)
      ensures !Crosses(was, hash, i, r)
    {
      RunBlocked(was, start, Next(b, |t|), i, r);
    }
  }

  lemma IdleSkips<K, V>(was: Table<K, V>, t: Table<K, V>, hash: K -> nat, r: nat, start: nat, b: nat)
    requires Idle(was, t, hash, r, start, b) && t[Next(b, |t|)].Full? && Reached(t, hash, Next(b, |t|))
    ensures Idle(was, t, hash, r, start, Next(b, |t|))
  {
    IdleNext(was, t, hash, r, start, b);
    var b' := Next(b, |t|);
    assert Reached(was, hash, b');
    HoleOnPath(was, t, Start(hash(t[b'].key), |t|), b', r);
    hide Dist;
    hide Next;
    hide Start;
    hide PathFull;
  }

  lemma SameFull<K, V>(was: Table<K, V>, r: nat, x: Entry<K, V>, hash: K -> nat)
    requires AllReached(was, hash) && r < |was| && was[r].Full? && x.Full?
    requires PathFull(was, Start(hash(x.key), |was|), r)
    ensures AllReached(was[r := x], hash)
  {
    var u := was[r := x];
    hide PathFull;
    hide Reached;
    hide Start;
    forall i | 0 <= i < |u|
      ensures Reached(u, hash, i)
    {
      ReachedIs(u, hash, i);
      if i == r {
        MoreFull(was, u, Start(hash(x.key), |was|), i);
      } else {
        assert Reached(was, hash, i);
        ReachedIs(was, hash, i);
        if was[i].Full? {
          MoreFull(was, u, Start(hash(was[i].key), |was|), i);
        }
      }
    }
  }

  /** An entry whose path leads over the hole fills it, and the repair begins behind it. */
  lemma IdleMoves<K, V>(was: Table<K, V>, t: Table<K, V>, hash: K -> nat, r: nat, start: nat, b: nat, c: nat)
    requires Idle(was, t, hash, r, start, b) && t[Next(b, |t|)].Full? && c < |t| && t[c].Empty?
    requires var s := Start(hash(t[Next(b, |t|)].key), |t|);
             Dist(s, c, |t|) < Dist(s, Next(b, |t|), |t|) && PathFull(t, s, c)
    ensures c == r && Examined(was, hash, r, start)
    ensures var x, b' := t[Next(b, |t|)], Next(b, |t|);
            && x.Full? && AllReached(was[r := x], hash) && was[r := x][b'] == x
            && t[c := x][b' := Empty] == was[r := x][b' := Empty]
  {
    var b' := Next(b, |t|);
    var x := t[b'];
    var s := Start(hash(x.key), |t|);
    IdleNext(was, t, hash, r, start, b);
    assert Reached(was, hash, b');
    hide Dist;
    hide Next;
    hide Start;
    assert c == r;
    MoreFull(t, was, s, c);
    SameFull(was, r, x, hash);
    assert Crosses(was, hash, b', r);
    assert RunTo(was, start, b', r);
    assert t[c := x][b' := Empty] == was[r := x][b' := Empty];
  }

  lemma CancelSum<T>(a: multiset<T>, b: multiset<T>, c: multiset<T>)
    requires a + c == b + c
    ensures a == b
  {
    forall x | x in a || x in b
      ensures a[x] == b[x]
    {
      assert (a + c)[x] == (b + c)[x];
    }
  }

  lemma SwapKeeps<K, V>(t: seq<Entry<K, V>>, c: nat, b: nat)
    requires c < |t| && b < |t| && t[c].Empty? && t[b].Full?
    ensures Contents(t[c := t[b]][b := Empty]) == Contents(t)
  {
    ContentsUpdate(t, c, t[b]);
    ContentsUpdate(t[c := t[b]], b, Empty);
    CancelSum(Contents(t[c := t[b]][b := Empty]), Contents(t), One(t[b]));
  }

  lemma ReplaceKeepsSize<K, V>(t: seq<Entry<K, V>>, r: nat, x: Entry<K, V>)
    requires r < |t| && t[r].Full? && x.Full?
    ensures |Contents(t[r := x])| == |Contents(t)|
  {
    ContentsUpdate(t, r, x);
    assert |Contents(t[r := x]) + One(t[r])| == |Contents(t) + One(x)|;
  }

  lemma TakeOut<K, V>(t: seq<Entry<K, V>>, r: nat)
    requires r < |t| && t[r].Full?
    ensures Contents(t[r := Empty]) == Contents(t) - multiset{(t[r].key, t[r].value)}
    ensures |Contents(t[r := Empty])| == |Contents(t)| - 1
  {
    ContentsUpdate(t, r, Empty);
    var a, one := Contents(t[r := Empty]), multiset{(t[r].key, t[r].value)};
    assert a + one == Contents(t);
    assert |a + one| == |a| + 1;
    assert a + one - one == a;
  }

  /** The place an entry belongs to: the first free bucket on its path, or where it is. */
  method Probe<K, V>(t: Table<K, V>, s: nat, b: nat) returns (c: nat)
    requires s < |t| && b < |t|
    ensures c < |t| && PathFull(t, s, c) && Dist(s, c, |t|) <= Dist(s, b, |t|) && (c == b || t[c].Empty?)
  {
    c := s;
    while t[c].Full? && c != b
      invariant c < |t| && PathFull(t, s, c) && Dist(s, c, |t|) <= Dist(s, b, |t|)
      decreases |t| - Dist(s, c, |t|)
    {
      ProbeNext(t, s, c, b);
      c := Next(c, |t|);
    }
  }

  lemma ProbeNext<K, V>(t: Table<K, V>, s: nat, c: nat, b: nat)
    requires s < |t| && c < |t| && b < |t| && PathFull(t, s, c) && t[c].Full? && c != b
    requires Dist(s, c, |t|) <= Dist(s, b, |t|)
    ensures Dist(s, Next(c, |t|), |t|) == Dist(s, c, |t|) + 1 <= Dist(s, b, |t|) && PathFull(t, s, Next(c, |t|))
  {
    DistFacts(s, |t|);
    NextStep(s, c, b, |t|);
    hide Dist;
    hide Next;
  }

  /** Where the reinsertion loop stands: still looking for an entry that needs the hole at
      r, or repairing behind a hole at h in what stands for the table `orig`. */
  ghost predicate Scanning<K, V>(was: Table<K, V>, t: Table<K, V>, hash: K -> nat, r: nat, start: nat, b: nat,
                                 idle: bool, orig: Table<K, V>, h: nat, e: nat)
    requires r < |was| && start < |was|
  {
    && |t| == |was|
    && if idle then Idle(was, t, hash, r, start, b)
       else Repairing(orig, t, hash, h, b, e) && (start == r || Examined(was, hash, r, start))
  }

  lemma ScanStarts<K, V>(was: Table<K, V>, hash: K -> nat, r: nat, start: nat) returns (e: nat)
    requires AllReached(was, hash) && r < |was| && start < |was| && was[r].Full? && |Contents(was)| < |was|
    ensures e < |was| && Scanning(was, was[r := Empty], hash, r, start, start, start != r, was, r, e)
  {
    e := FirstEmpty(was, r);
    if start == r {
      RepairStarts(was, hash, r, e);
    } else {
      IdleStarts(was, hash, r, start);
    }
  }

  lemma ScanEnds<K, V>(was: Table<K, V>, t: Table<K, V>, hash: K -> nat, r: nat, start: nat, b: nat,
                       idle: bool, orig: Table<K, V>, h: nat, e: nat)
    requires r < |was| && start < |was| && b < |t| && Scanning(was, t, hash, r, start, b, idle, orig, h, e)
    requires t[Next(b, |t|)].Empty?
    ensures start == r ==> AllReached(t, hash)
    ensures start != r ==> (AllReached(t, hash) <==> NotNeeded(was, hash, r) || Examined(was, hash, r, start))
  {
    if idle {
      IdleEnds(was, t, hash, r, start, b);
    } else {
      RepairEnds(orig, t, hash, h, b, e);
    }
  }

  /** An entry that is already reached is left alone. */
  lemma ScanSkips<K, V>(was: Table<K, V>, t: Table<K, V>, hash: K -> nat, r: nat, start: nat, b: nat,
                        idle: bool, orig: Table<K, V>, h: nat, e: nat)
    requires r < |was| && start < |was| && b < |t| && Scanning(was, t, hash, r, start, b, idle, orig, h, e)
    requires t[Next(b, |t|)].Full? && Reached(t, hash, Next(b, |t|))
    ensures Scanning(was, t, hash, r, start, Next(b, |t|), idle, orig, h, e)
  {
    hide *;
    ScanningIs(was, t, hash, r, start, b, idle, orig, h, e);
    ScanningIs(was, t, hash, r, start, Next(b, |t|), idle, orig, h, e);
    if idle {
      IdleSkips(was, t, hash, r, start, b);
    } else {
      RepairEnds(orig, t, hash, h, b, e);
      RepairSkips(orig, t, hash, h, b, e);
    }
  }

  lemma ScanningIs<K, V>(was: Table<K, V>, t: Table<K, V>, hash: K -> nat, r: nat, start: nat, b: nat,
                         idle: bool, orig: Table<K, V>, h: nat, e: nat)
    requires r < |was| && start < |was|
    ensures Scanning(was, t, hash, r, start, b, idle, orig, h, e)
            <==> |t| == |was| && if idle then Idle(was, t, hash, r, start, b)
                 else Repairing(orig, t, hash, h, b, e) && (start == r || Examined(was, hash, r, start))
    ensures Repairing(orig, t, hash, h, b, e) ==> h < |t| && b < |t| && e < |t| && Dist(h, b, |t|) < Dist(h, e, |t|)
    ensures Idle(was, t, hash, r, start, b) ==> start < |t| && b < |t| && |t| == |was|
  {
  }

  /** An entry that is not reached moves to the free place c on its path. */
  lemma ScanMoves<K, V>(was: Table<K, V>, t: Table<K, V>, hash: K -> nat, r: nat, start: nat, b: nat,
                        idle: bool, orig: Table<K, V>, h: nat, e: nat, c: nat)
    returns (orig': Table<K, V>, h': nat, e': nat)
    requires r < |was| && start < |was| && b < |t| && Scanning(was, t, hash, r, start, b, idle, orig, h, e)
    requires |Contents(was)| < |was| && was[r].Full?
    requires t[Next(b, |t|)].Full? && c < |t| && t[c].Empty?
    requires var s := Start(hash(t[Next(b, |t|)].key), |t|);
             Dist(s, c, |t|) < Dist(s, Next(b, |t|), |t|) && PathFull(t, s, c)
    ensures Scanning(was, t[c := t[Next(b, |t|)]][Next(b, |t|) := Empty], hash, r, start, Next(b, |t|), false, orig', h', e')
    ensures h' < |t| && e' < |t| && (!idle ==> h' == h && e' == e)
  {
    hide *;
    var b' := Next(b, |t|);
    var x := t[b'];
    ScanningIs(was, t, hash, r, start, b, idle, orig, h, e);
    if idle {
      IdleMoves(was, t, hash, r, start, b, c);
      orig', h' := was[r := x], b';
      ReplaceKeepsSize(was, r, x);
      e' := FirstEmpty(orig', b');
      RepairStarts(orig', hash, b', e');
    } else {
      orig', h', e' := orig, h, e;
      RepairEnds(orig, t, hash, h, b, e);
      RepairMoves(orig, t, hash, h, b, e, c);
    }
    ScanningIs(was, t[c := x][b' := Empty], hash, r, start, b', false, orig', h', e');
  }

  lemma AtStart<K, V>(t: Table<K, V>, hash: K -> nat, b: nat)
    requires b < |t| && t[b].Full? && PathFull(t, Start(hash(t[b].key), |t|), b)
    ensures Reached(t, hash, b)
  {
  }

  lemma ProbeStops(s: nat, c: nat, b: nat, n: nat)
    requires s < n && c < n && b < n && c != b && Dist(s, c, n) <= Dist(s, b, n)
    ensures Dist(s, c, n) < Dist(s, b, n)
  {
  }

  // ------------------------------------------------------ why the reinsertion ends

  /** How far an entry in bucket i lies from where its key starts. */
  ghost function Away<K, V>(e: Entry<K, V>, hash: K -> nat, i: nat, n: nat): nat
    requires i < n
  {
    if e.Full? then Dist(Start(hash(e.key), n), i, n) else 0
  }

  /** How far the entries of the first k buckets lie from their starts, all together. */
  ghost function AllAway<K, V>(t: Table<K, V>, hash: K -> nat, k: nat): nat
    requires k <= |t|
  {
    if k == 0 then 0 else AllAway(t, hash, k - 1) + Away(t[k - 1], hash, k - 1, |t|)
  }

  lemma {:induction false} AwayUpdate<K, V>(t: Table<K, V>, hash: K -> nat, k: nat, i: nat, x: Entry<K, V>)
    requires k <= |t| && i < |t|
    ensures i >= k ==> AllAway(t[i := x], hash, k) == AllAway(t, hash, k)
    ensures i < k ==> AllAway(t[i := x], hash, k) + Away(t[i], hash, i, |t|)
                      == AllAway(t, hash, k) + Away(x, hash, i, |t|)
  {
    hide Away;
    if k > 0 {
      AwayUpdate(t, hash, k - 1, i, x);
    }
  }

  /** A move brings the entries nearer to their starts. */
  lemma MoveIsNearer<K, V>(t: Table<K, V>, hash: K -> nat, c: nat, b: nat)
    requires c < |t| && b < |t| && t[c].Empty? && t[b].Full?
    requires var s := Start(hash(t[b].key), |t|); Dist(s, c, |t|) < Dist(s, b, |t|)
    ensures AllAway(t[c := t[b]][b := Empty], hash, |t|) < AllAway(t, hash, |t|)
  {
    AwayUpdate(t, hash, |t|, c, t[b]);
    AwayUpdate(t[c := t[b]], hash, |t|, b, Empty);
    hide AllAway;
    hide Dist;
    hide Start;
  }

  /** A step over a full bucket is a step towards the empty one. */
  lemma NearerToRoom<K, V>(t: Table<K, V>, b: nat, e: nat)
    requires b < |t| && e < |t| && t[e].Empty? && t[b].Full?
    ensures Dist(Next(b, |t|), e, |t|) < Dist(b, e, |t|)
  {
  }

  /** The sizes a table can grow to, in four rows. */
  function PrimeRow(k: nat): seq<nat> {
    match k
    case 0 => [5, 11, 23, 53, 97, 193, 389, 769]
    case 1 => [1543, 3079, 6151, 12289, 24593, 49157, 98317, 196613]
    case 2 => [393241, 786433, 1572869, 3145739, 6291469, 12582917, 25165843, 50331653]
    case _ => [100663319, 201326611, 402653189, 805306457, 1610612741, 3221225473, 4294967291]
  }

  function Primes(): seq<nat> {
    PrimeRow(0) + PrimeRow(1) + PrimeRow(2) + PrimeRow(3)
  }

  const LAST_PRIME := 4294967291

  lemma PrimesLength()
    ensures |Primes()| == 31 && Primes()[30] == LAST_PRIME
  {
  }

  lemma PrimeIsOdd(p: nat)
    requires p in Primes()
    ensures p >= 5 && p % 2 == 1
  {
    RowIsOdd(0);
    RowIsOdd(1);
    RowIsOdd(2);
    RowIsOdd(3);
    hide PrimeRow;
  }

  lemma RowIsOdd(k: nat)
    ensures forall p :: p in PrimeRow(k) ==> p >= 5 && p % 2 == 1
  {
  }

  /** r is the least number of the list above the given one. */
  ghost predicate NextPrime(number: nat, r: nat) {
    r > number && r in Primes() && forall p :: p in Primes() && p > number ==> p >= r
  }

  lemma RowIncreases(k: nat, i: nat, j: nat)
    requires k < 4 && i < j < |PrimeRow(k)|
    ensures PrimeRow(k)[i] < PrimeRow(k)[j]
  {
  }

  lemma RowBounds(k: nat, i: nat)
    requires k < 4 && i < |PrimeRow(k)|
    ensures k == 0 ==> PrimeRow(k)[i] < 1000
    ensures k == 1 ==> 1000 < PrimeRow(k)[i] < 200000
    ensures k == 2 ==> 200000 < PrimeRow(k)[i] < 100000000
    ensures k == 3 ==> 100000000 < PrimeRow(k)[i]
  {
  }

  lemma PrimeAt(i: nat)
    requires i < 31
    ensures |Primes()| == 31 && i % 8 < |PrimeRow(i / 8)| && Primes()[i] == PrimeRow(i / 8)[i % 8]
  {
    assert |PrimeRow(0)| == 8 && |PrimeRow(1)| == 8 && |PrimeRow(2)| == 8 && |PrimeRow(3)| == 7;
    hide PrimeRow;
  }

  /** The list increases. */
  lemma PrimesIncrease(i: nat, j: nat)
    requires i < j < 31
    ensures |Primes()| == 31 && Primes()[i] < Primes()[j]
  {
    PrimeAt(i);
    PrimeAt(j);
    hide *;
    RowBounds(i / 8, i % 8);
    RowBounds(j / 8, j % 8);
    if i / 8 == j / 8 {
      RowIncreases(i / 8, i % 8, j % 8);
    }
  }

  lemma IsNextPrime(number: nat, w: nat)
    requires w < |Primes()| && Primes()[w] > number && forall i :: 0 <= i < w ==> Primes()[i] <= number
    ensures NextPrime(number, Primes()[w])
  {
    PrimesLength();
    hide Primes;
    forall p | p in Primes() && p > number
      ensures p >= Primes()[w]
    {
      var j: nat :| j < |Primes()| && Primes()[j] == p;
      if j > w {
        PrimesIncrease(w, j);
      }
    }
  }

  /** next_larger_hash_prime: the first prime of the list that is larger. */
  method NextLargerHashPrime(number: nat) returns (r: nat)
    requires number < LAST_PRIME
    ensures r > number && r in Primes() && r >= 5 && (number in Primes() ==> r >= number + 2)
    ensures exists w :: 0 <= w < |Primes()| && r == Primes()[w] && forall i :: 0 <= i < w ==> Primes()[i] <= number
    ensures NextPrime(number, r)
  {
    PrimesLength();
    hide Primes;
    var walk := 0;
    while number >= Primes()[walk]
      decreases |Primes()| - walk
      invariant walk < |Primes()| && forall i :: 0 <= i < walk ==> Primes()[i] <= number
    {
      walk := walk + 1;
    }
    r := Primes()[walk];
    IsNextPrime(number, walk);
    hide NextPrime;
    PrimeIsOdd(r);
    if number in Primes() {
      PrimeIsOdd(number);
    }
  }

  /** hash_table_flat. The hash of a key is whatever hash() gives for its type. */
  class FlatTable<K(==,!new), V> {
    const hash: K -> nat
    var table: seq<Entry<K, V>>
    var entryCount: nat
    var resizeThreshold: nat

    ghost predicate Valid()
      reads this
    {
      && entryCount == |Contents(table)| <= resizeThreshold
      && (resizeThreshold == 0 || (resizeThreshold == |table| / 2 && |table| in Primes()))
    }

    /** Every entry is found by probing from where its key starts. */
    ghost predicate Findable()
      reads this
    {
      |table| > 0 ==> AllReached(table, hash)
    }

    constructor (hash: K -> nat, initialSize: nat)
      ensures Valid() && Findable() && Contents(table) == multiset{} && this.hash == hash && |table| == initialSize
    {
      this.hash := hash;
      table := seq(initialSize, i => Empty);
      entryCount, resizeThreshold := 0, 0;
      new;
      EmptyTable(table);
    }

    /** _insert_in_table. */
    static method InsertInTable(t: Table<K, V>, hash: K -> nat, key: K, value: V) returns (u: Table<K, V>, bucket: nat)
      requires |Contents(t)| < |t|
      ensures |u| == |t| && bucket < |t| && t[bucket].Empty? && u == t[bucket := Full(key, value)]
      ensures PathFull(t, Start(hash(key), |t|), bucket) && Reached(u, hash, bucket)
      ensures Contents(u) == Contents(t) + multiset{(key, value)}
      ensures AllReached(t, hash) ==> AllReached(u, hash)
      ensures AllReached(t, hash) ==> Adds(t, u, hash, key, value)
    {
      hide *;
      bucket := FreePlace(t, Start(hash(key), |t|));
      u := t[bucket := Full(key, value)];
      FillAdds(t, bucket, key, value);
      FilledIsReached(t, hash, bucket, key, value);
      if AllReached(t, hash) {
        FillKeeps(t, hash, bucket, key, value);
        ValuesAfter(t, hash, bucket, key, value);
      }
    }

    /** The entries of a table, inserted one by one into a larger empty one. */
    static method Rehash(t: seq<Entry<K, V>>, hash: K -> nat, newSize: nat) returns (u: Table<K, V>)
      requires newSize > |t|
      ensures |u| == newSize && AllReached(u, hash) && Contents(u) == Contents(t)
      ensures Takes(t, u, hash)
    {
      hide *;
      u := seq(newSize, i => Empty);
      TakesNothing(u, hash);
      assert t[..0] == [];
      EmptyTable(u);
      EmptyReached(u, hash);
      EmptyTable(t[..0]);
      var i := 0;
      while i < |t|
        invariant i <= |t| && |u| == newSize && AllReached(u, hash)
        invariant Contents(u) == Contents(t[..i])
        invariant Takes(t[..i], u, hash)
      {
        ContentsPrefix(t, i);
        ghost var before := u;
        PrefixBound(t, i);
        OneIs(t[i]);
        if t[i].Full? {
          var index;
          u, index := InsertInTable(u, hash, t[i].key, t[i].value);
        }
        TakesOne(t, i, before, u, hash);
        i := i + 1;
      }
      assert t[..|t|] == t;
    }

    /** The growth branch of an insertion. */
    method Grow()
      requires Valid() && entryCount >= resizeThreshold && |table| < LAST_PRIME
      modifies this`table, this`resizeThreshold
      ensures Valid() && Findable() && Contents(table) == old(Contents(table)) && entryCount < resizeThreshold
      ensures NextPrime(|old(table)|, |table|)
      ensures Takes(old(table), table, hash)
    {
      hide Takes;
      hide Primes;
      hide Contents;
      hide AllReached;
      var newSize := NextLargerHashPrime(|table|);
      table := Rehash(table, hash, newSize);
      resizeThreshold := newSize / 2;
    }

    /** insert: duplicates are not looked for. */
    method Insert(key: K, value: V) returns (index: nat)
      requires Valid() && (entryCount < resizeThreshold || |table| < LAST_PRIME)
      modifies this`table, this`entryCount, this`resizeThreshold
      ensures Valid() && (old(Findable()) ==> Findable()) && 2 * entryCount <= |table|
      ensures index < |table| && table[index] == Full(key, value) && Reached(table, hash, index)
      ensures Contents(table) == old(Contents(table)) + multiset{(key, value)}
      ensures old(entryCount < resizeThreshold) ==>
                |table| == |old(table)| && old(table)[index].Empty? && table == old(table)[index := Full(key, value)]
      ensures old(entryCount >= resizeThreshold) ==> NextPrime(|old(table)|, |table|) && Findable()
      ensures old(entryCount >= resizeThreshold) ==> TakesAndAdds(old(table), table, hash, key, value)
      ensures old(entryCount < resizeThreshold && Findable()) ==>
                |old(table)| > 0 && Adds(old(table), table, hash, key, value)
    {
      hide Adds;
      hide Takes;
      hide TakesAndAdds;
      hide Primes;
      hide NextPrime;
      hide PathFull;
      hide Reached;
      hide Contents;
      hide AllReached;
      if entryCount >= resizeThreshold {
        Grow();
      }
      ghost var before := table;
      table, index := InsertInTable(table, hash, key, value);
      if old(entryCount >= resizeThreshold) {
        TakesThenAdds(old(table), before, table, hash, key, value);
      }
      entryCount := entryCount + 1;
    }

    /** find: the first entry with the key in probing order, if no empty bucket comes before it. So a
        key is found when an entry of it is reached, and an entry that is not reached is not found,
        if no other entry has its key. */
    method FindKey(key: K) returns (r: nat)
      requires Valid()
      ensures r <= |table| && (|table| == 0 ==> r == 0)
      ensures r < |table| ==> table[r].Full? && table[r].key == key && Passed(table, Start(hash(key), |table|), r, key)
      ensures r == |table| > 0 ==>
              exists e :: 0 <= e < |table| && table[e].Empty? && Passed(table, Start(hash(key), |table|), e, key)
      ensures forall i :: 0 <= i < |table| && table[i].Full? && table[i].key == key && Reached(table, hash, i) ==>
                r < |table|
      ensures forall i :: 0 <= i < |table| && table[i].Full? && table[i].key == key && OnlyOne(table, i) ==>
                (r < |table| <==> Reached(table, hash, i))
      ensures Findable() && r == |table| ==> forall i :: 0 <= i < |table| && table[i].Full? ==> table[i].key != key
      ensures r < |table| ==> Values(table, hash, key) != [] && table[r].value == Values(table, hash, key)[0]
      ensures Findable() && r == |table| > 0 ==> Values(table, hash, key) == []
    {
      hide Primes;
      if |table| == 0 {
        return 0;
      }
      hide Contents;
      hide AllReached;
      hide Passed;
      hide Reached;
      hide OnlyOne;
      r := Find(table, hash, key);
      if r == |table| {
        ghost var e :| 0 <= e < |table| && table[e].Empty? && Passed(table, Start(hash(key), |table|), e, key);
        forall i | 0 <= i < |table| && table[i].Full? && table[i].key == key
          ensures !Reached(table, hash, i)
        {
          ReachedIsFound(table, hash, i, e);
        }
        if AllReached(table, hash) {
          FindIsRight(table, hash, key, e);
          NoValues(table, hash, key);
        }
      } else {
        FirstMet(table, Start(hash(key), |table|), key, r);
        forall i | 0 <= i < |table| && table[i].Full? && table[i].key == key && !Reached(table, hash, i)
          ensures !OnlyOne(table, i)
        {
          if OnlyOne(table, i) {
            UnreachedIsLost(table, hash, i, r);
          }
        }
      }
    }

    /** The reinsertion loop, scanning on from `start`, after bucket r of `was` was emptied. It ends and
        loses nothing whatever the table; it leaves every entry reached, if every entry was, exactly
        when no path leads over r or the scan meets an entry whose path does. */
    static method Reinsert(t0: Table<K, V>, hash: K -> nat, start: nat, ghost was: Table<K, V>, ghost r: nat)
      returns (t: Table<K, V>)
      requires r < |was| && start < |was| && was[r].Full? && t0 == was[r := Empty] && |Contents(was)| < |was|
      ensures |t| == |t0| && Contents(t) == Contents(t0)
      ensures AllReached(was, hash) && start == r ==> AllReached(t, hash)
      ensures AllReached(was, hash) && start != r ==>
              (AllReached(t, hash) <==> NotNeeded(was, hash, r) || Examined(was, hash, r, start))
    {
      hide *;
      t := t0;
      TakeOut(was, r);
      var b: nat := start;
      ghost var reached := AllReached(was, hash);
      ghost var idle, orig, h: nat := start != r, was, r;
      ghost var e: nat, room: nat := r, r;
      if reached {
        e := ScanStarts(was, hash, r, start);
      }
      var done := false;
      while !done
        invariant |t| == |was| && b < |t| && h < |t| && e < |t| && Contents(t) == Contents(t0)
        invariant room < |t| && t[room].Empty?
        invariant reached ==> Scanning(was, t, hash, r, start, b, idle, orig, h, e)
        invariant done ==> t[Next(b, |t|)].Empty?
        decreases !done, AllAway(t, hash, |t|), Dist(Next(b, |t|), room, |t|)
      {
        var b' := Next(b, |t|);
        if t[b'].Empty? {
          done := true;
        } else {
          var s := Start(hash(t[b'].key), |t|);
          var c := Probe(t, s, b');
          if c == b' {
            NearerToRoom(t, b', room);
            AtStart(t, hash, b');
            if reached {
              ScanSkips(was, t, hash, r, start, b, idle, orig, h, e);
            }
          } else {
            ProbeStops(s, c, b', |t|);
            SwapKeeps(t, c, b');
            MoveIsNearer(t, hash, c, b');
            if reached {
              orig, h, e := ScanMoves(was, t, hash, r, start, b, idle, orig, h, e, c);
            }
            t := t[c := t[b']][b' := Empty];
            idle, room := false, b';
          }
          b := b';
        }
      }
      if reached {
        ScanEnds(was, t, hash, r, start, b, idle, orig, h, e);
      }
    }

    /** _remove with the scan for displaced entries starting at `start`. */
    method RemoveFrom(index: nat, start: nat) returns (removed: bool)
      requires Valid() && (|table| > 0 ==> start < |table|)
      modifies this`table, this`entryCount
      ensures Valid() && |table| == |old(table)|
      ensures removed <==> index < |table| && old(table)[index].Full?
      ensures !removed ==> table == old(table)
      ensures removed ==> Contents(table)
                          == old(Contents(table)) - multiset{(old(table)[index].key, old(table)[index].value)}
      ensures removed && old(Findable()) && start == index ==> Findable()
      ensures removed && old(Findable()) && start != index ==>
              (Findable() <==> NotNeeded(old(table), hash, index) || Examined(old(table), hash, index, start))
    {
      hide Primes;
      hide Contents;
      hide AllReached;
      hide NotNeeded;
      hide Examined;
      if index >= |table| || table[index].Empty? {
        return false;
      }
      ghost var was := table;
      TakeOut(table, index);
      table := table[index := Empty];
      entryCount := entryCount - 1;
      table := Reinsert(table, hash, start, was, index);
      removed := true;
    }

    /** _remove as written: looping_counter turns every valid index into 0, so the scan
        starts at bucket 0 and not at the hole. */
    method Remove(index: nat) returns (removed: bool)
      requires Valid()
      modifies this`table, this`entryCount
      ensures Valid() && |table| == |old(table)|
      ensures removed <==> index < |table| && old(table)[index].Full?
      ensures !removed ==> table == old(table)
      ensures removed ==> Contents(table)
                          == old(Contents(table)) - multiset{(old(table)[index].key, old(table)[index].value)}
      ensures removed && old(Findable()) ==>
              (Findable() <==> index == 0 || NotNeeded(old(table), hash, index) || Examined(old(table), hash, index, 0))
    {
      hide Primes;
      hide Contents;
      hide AllReached;
      hide NotNeeded;
      hide Examined;
      if index >= |table| {
        return false;
      }
      removed := RemoveFrom(index, Start(index, |table|));
    }
  }

  /** hash() of a number. */
  function IntHash(k: nat): nat {
    k
  }

  /** Two keys that start at bucket 1 of five. */
  function Collision(): Table<nat, string> {
    [Empty, Full(6, "six"), Full(11, "eleven"), Empty, Empty]
  }

  /** After the first is removed the second can no longer be found. */
  lemma LostKey()
    ensures AllReached(Collision(), IntHash) && !NotNeeded(Collision(), IntHash, 1) && !Examined(Collision(), IntHash, 1, 0)
  {
    var was := Collision();
    assert Start(IntHash(6), 5) == 1 && Start(IntHash(11), 5) == 1;
    assert Crosses(was, IntHash, 2, 1);
    forall i | 0 <= i < 5 && i != 0
      ensures !RunTo(was, 0, i, 1)
    {
      assert 0 < Dist(0, 1, 5) <= Dist(0, i, 5);
    }
  }

  lemma EmptyReached<K, V>(t: Table<K, V>, hash: K -> nat)
    requires forall i :: 0 <= i < |t| ==> t[i].Empty?
    ensures AllReached(t, hash)
  {
  }

  lemma OneIs<K, V>(e: Entry<K, V>)
    ensures One(e) == if e.Full? then multiset{(e.key, e.value)} else multiset{}
  {
  }

  lemma ContentsHead<K, V>(t: seq<Entry<K, V>>)
    requires t != []
    ensures Contents(t) == One(t[0]) + Contents(t[1..])
  {
  }

  lemma {:induction false} ContentsAppend<K, V>(s: seq<Entry<K, V>>, x: Entry<K, V>)
    ensures Contents(s + [x]) == Contents(s) + One(x)
  {
    EmptyTable<K, V>([]);
    hide Contents;
    hide One;
    ContentsHead(s + [x]);
    if s == [] {
      assert ([x])[1..] == [];
      assert s + [x] == [x];
    } else {
      ContentsHead(s);
      ContentsAppend(s[1..], x);
      assert (s + [x])[1..] == s[1..] + [x];
      Rearranged(One(s[0]), Contents(s[1..]), One(x));
    }
  }

  lemma ContentsPrefix<K, V>(t: seq<Entry<K, V>>, i: nat)
    requires i < |t|
    ensures Contents(t[..i + 1]) == Contents(t[..i]) + One(t[i])
  {
    hide Contents;
    ContentsAppend(t[..i], t[i]);
    assert t[..i + 1] == t[..i] + [t[i]];
  }

  lemma PrefixBound<K, V>(t: seq<Entry<K, V>>, i: nat)
    requires i <= |t|
    ensures |Contents(t[..i])| <= i
  {
  }
}
