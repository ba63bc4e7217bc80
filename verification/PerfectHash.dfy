/**
 * The generator of the tables that dispatch searches, compiler/hash.stanza: buckets by a first hash, the large ones
 * spread by a second hash, the small ones put into the slots that are left.
 */
module PerfectHash {
  import opened Options
  import opened Dispatch

  datatype Entry<T> = Entry(key: int, value: T)

  /** What the generator returns; entries lie in the order of their slots. */
  datatype Table<T> = Table(d0: int, dtable: seq<int>, entries: seq<Entry<T>>)

  predicate DistinctKeys<T>(entries: seq<Entry<T>>) {
    forall i, j :: 0 <= i < j < |entries| ==> entries[i].key != entries[j].key
  }

  /** The slot that a displacement gives a key. */
  function PlaceOf(d: int, key: int, n: nat): (slot: Slot)
    requires n > 0
  {
    if d == 0 then NoSlot else if d < 0 then At(-d - 1) else At(DHash(d, key, n))
  }

  function Home(d0: int, key: int, n: nat): (b: nat)
    requires n > 0
    ensures b < n
  {
    DHash(d0, key, n)
  }

  /** The entries are those of the table, and each lies where its hashes lead. */
  ghost predicate IsPerfect<T>(entries: seq<Entry<T>>, t: Table<T>) {
    var n := |entries|;
    && n > 0 && |t.dtable| == |t.entries| == n
    && (forall e :: e in t.entries ==> e in entries) && (forall e :: e in entries ==> e in t.entries)
    && (forall s: nat :: s < n ==>
          PlaceOf(t.dtable[Home(t.d0, t.entries[s].key, n)], t.entries[s].key, n) == At(s))
    && (forall b :: 0 <= b < n ==> -n <= t.dtable[b])
  }

  // ---------------------------------------------------------------- buckets

  /** The entries that the first hash sends to the bucket, the last one first. */
  function BucketOf<T>(entries: seq<Entry<T>>, d0: int, n: nat, b: nat): seq<Entry<T>>
    requires n > 0
  {
    if |entries| == 0 then []
    else
      var before, last := BucketOf(entries[..|entries| - 1], d0, n, b), entries[|entries| - 1];
      if Home(d0, last.key, n) == b then [last] + before else before
  }

  function Buckets<T>(entries: seq<Entry<T>>, d0: int): seq<seq<Entry<T>>> {
    seq(|entries|, b requires 0 <= b < |entries| => BucketOf(entries, d0, |entries|, b))
  }

  lemma {:induction false} BucketHas<T>(entries: seq<Entry<T>>, d0: int, n: nat, b: nat)
    requires n > 0
    ensures forall e :: e in BucketOf(entries, d0, n, b) ==> e in entries && Home(d0, e.key, n) == b
    ensures forall e :: e in entries && Home(d0, e.key, n) == b ==> e in BucketOf(entries, d0, n, b)
    ensures DistinctKeys(entries) ==> DistinctKeys(BucketOf(entries, d0, n, b))
  {
    hide Home;
    if |entries| > 0 {
      var init, last := entries[..|entries| - 1], entries[|entries| - 1];
      BucketHas(init, d0, n, b);
      assert entries == init + [last];
      var before := BucketOf(init, d0, n, b);
      if DistinctKeys(entries) {
        assert DistinctKeys(init);
        forall k | 0 <= k < |before|
          ensures before[k].key != last.key
        {
          assert before[k] in before && before[k] in init;
        }
      }
    }
  }

  /** The number of entries in the first k buckets. */
  function SumSizes<T>(entries: seq<Entry<T>>, d0: int, n: nat, k: nat): nat
    requires n > 0
  {
    if k == 0 then 0 else SumSizes(entries, d0, n, k - 1) + |BucketOf(entries, d0, n, k - 1)|
  }

  lemma {:induction false} OneMore<T>(entries: seq<Entry<T>>, e: Entry<T>, d0: int, n: nat, k: nat)
    requires n > 0
    ensures SumSizes(entries + [e], d0, n, k)
         == SumSizes(entries, d0, n, k) + if Home(d0, e.key, n) < k then 1 else 0
  {
    hide Home;
    if k > 0 {
      OneMore(entries, e, d0, n, k - 1);
      assert (entries + [e])[..|entries|] == entries;
    }
  }

  lemma {:induction false} NoEntries<T>(d0: int, n: nat, k: nat)
    requires n > 0
    ensures SumSizes<T>([], d0, n, k) == 0
  {
    if k > 0 {
      NoEntries<T>(d0, n, k - 1);
    }
  }

  lemma {:induction false} AllBuckets<T>(entries: seq<Entry<T>>, d0: int, n: nat)
    requires n > 0
    ensures SumSizes(entries, d0, n, n) == |entries|
  {
    if |entries| == 0 {
      NoEntries<T>(d0, n, n);
    } else {
      var init := entries[..|entries| - 1];
      AllBuckets(init, d0, n);
      OneMore(init, entries[|entries| - 1], d0, n, n);
      assert init + [entries[|entries| - 1]] == entries;
    }
  }

  lemma {:induction false} LargeBuckets<T>(entries: seq<Entry<T>>, d0: int, n: nat, k: nat)
    requires n > 0 && forall b: nat :: b < k ==> |BucketOf(entries, d0, n, b)| > 1
    ensures SumSizes(entries, d0, n, k) >= 2 * k
  {
    if k > 0 {
      LargeBuckets(entries, d0, n, k - 1);
    }
  }

  /** With as many buckets as entries, some bucket is not large. */
  lemma NotAllLarge<T>(entries: seq<Entry<T>>, d0: int)
    requires |entries| > 0
    ensures exists b: nat :: b < |entries| && |BucketOf(entries, d0, |entries|, b)| <= 1
  {
    AllBuckets(entries, d0, |entries|);
    if forall b: nat :: b < |entries| ==> |BucketOf(entries, d0, |entries|, b)| > 1 {
      LargeBuckets(entries, d0, |entries|, |entries|);
    }
  }

  // ---------------------------------------------------------------- spreading a bucket

  /** The second hash sends the bucket's entries to slots that are free and distinct. */
  predicate Spreads<T>(d: int, bucket: seq<Entry<T>>, etable: seq<Option<Entry<T>>>) {
    && |etable| > 0
    && (forall k :: 0 <= k < |bucket| ==> etable[DHash(d, bucket[k].key, |etable|)].None?)
    && (forall k, l :: 0 <= k < l < |bucket| ==>
          DHash(d, bucket[k].key, |etable|) != DHash(d, bucket[l].key, |etable|))
  }

  /** The table after the bucket's entries were stored. */
  function PutAll<T>(etable: seq<Option<Entry<T>>>, d: int, bucket: seq<Entry<T>>): (r: seq<Option<Entry<T>>>)
    requires |etable| > 0
    ensures |r| == |etable|
  {
    if |bucket| == 0 then etable
    else
      var last := bucket[|bucket| - 1];
      PutAll(etable, d, bucket[..|bucket| - 1])[DHash(d, last.key, |etable|) := Some(last)]
  }

  lemma {:induction false} PutAllAt<T>(etable: seq<Option<Entry<T>>>, d: int, bucket: seq<Entry<T>>)
    requires Spreads(d, bucket, etable)
    ensures var r := PutAll(etable, d, bucket);
      && (forall k :: 0 <= k < |bucket| ==> r[DHash(d, bucket[k].key, |etable|)] == Some(bucket[k]))
      && (forall s :: 0 <= s < |etable| ==>
            r[s] == etable[s] || (etable[s].None? && exists k :: 0 <= k < |bucket| && r[s] == Some(bucket[k])
                                                               && s == DHash(d, bucket[k].key, |etable|)))
    decreases |bucket|
  {
    hide DHash;
    if |bucket| > 0 {
      var init := bucket[..|bucket| - 1];
      assert forall k :: 0 <= k < |init| ==> init[k] == bucket[k];
      PutAllAt(etable, d, init);
    }
  }

  /** The least seed from d up to the largest that spreads the bucket. */
  function LeastD<T>(bucket: seq<Entry<T>>, etable: seq<Option<Entry<T>>>, d: int, maxD: int): Option<int>
    decreases maxD - d
  {
    if d > maxD then None else if Spreads(d, bucket, etable) then Some(d) else LeastD(bucket, etable, d + 1, maxD)
  }

  lemma {:induction false} LeastSpreads<T>(bucket: seq<Entry<T>>, etable: seq<Option<Entry<T>>>, d: int, maxD: int)
    ensures var least := LeastD(bucket, etable, d, maxD);
      match least
      case Some(s) =>
        d <= s <= maxD && Spreads(s, bucket, etable) && forall c :: d <= c < s ==> !Spreads(c, bucket, etable)
      case None => forall c :: d <= c <= maxD ==> !Spreads(c, bucket, etable)
    decreases maxD - d
  {
    hide Spreads;
    if d <= maxD && !Spreads(d, bucket, etable) {
      LeastSpreads(bucket, etable, d + 1, maxD);
    }
  }

  /** The table after the first i buckets in the order, or nothing when one of them cannot be spread. */
  function Greedy<T>(entries: seq<Entry<T>>, d0: int, indices: seq<nat>, i: nat)
    : (etable: Option<seq<Option<Entry<T>>>>)
    requires |entries| > 0 && i <= |indices|
    ensures etable.Some? ==> |etable.value| == |entries|
  {
    if i == 0 then Some(seq(|entries|, _ => None))
    else
      var before, bucket := Greedy(entries, d0, indices, i - 1), BucketOf(entries, d0, |entries|, indices[i - 1]);
      if before.None? then None
      else
        var d := LeastD(bucket, before.value, 2, 10 * |entries|);
        if d.None? then None else Some(PutAll(before.value, d.value, bucket))
  }

  lemma GreedyStep<T>(entries: seq<Entry<T>>, d0: int, indices: seq<nat>, i: nat, etable: seq<Option<Entry<T>>>)
    requires |entries| > 0 && i < |indices| && Greedy(entries, d0, indices, i) == Some(etable)
    ensures var bucket := BucketOf(entries, d0, |entries|, indices[i]);
      var d := LeastD(bucket, etable, 2, 10 * |entries|);
      Greedy(entries, d0, indices, i + 1) == if d.None? then None else Some(PutAll(etable, d.value, bucket))
  {
    hide BucketOf;
    hide LeastD;
    hide PutAll;
  }

  ghost predicate StuckAt<T>(entries: seq<Entry<T>>, d0: int, indices: seq<nat>, i: nat)
    requires |entries| > 0
  {
    && i <= |indices| && IsOrder(indices, Buckets(entries, d0))
    && (forall k :: 0 <= k < i ==> |BucketOf(entries, d0, |entries|, indices[k])| > 1)
    && Greedy(entries, d0, indices, i).None?
  }

  /** In some order by size, one of the large buckets cannot be spread. */
  ghost predicate Stuck<T>(entries: seq<Entry<T>>, d0: int)
    requires |entries| > 0
  {
    exists indices, i :: StuckAt(entries, d0, indices, i)
  }

  // ---------------------------------------------------------------- what has been placed

  /** The entry lies where the displacement of its bucket leads. */
  ghost predicate InPlace<T>(e: Entry<T>, d0: int, dtable: seq<int>, etable: seq<Option<Entry<T>>>)
    requires |dtable| == |etable| > 0
  {
    var place := PlaceOf(dtable[Home(d0, e.key, |etable|)], e.key, |etable|);
    place.At? && place.i < |etable| && etable[place.i] == Some(e)
  }

  /** The entries of the buckets that are done lie in place, and the table holds nothing else. */
  ghost predicate Placed<T>(entries: seq<Entry<T>>, d0: int, done: set<nat>, dtable: seq<int>,
                            etable: seq<Option<Entry<T>>>)
  {
    && |dtable| == |etable| == |entries| > 0
    && (forall e :: e in entries && Home(d0, e.key, |entries|) in done ==> InPlace(e, d0, dtable, etable))
    && (forall s: nat :: s < |etable| && etable[s].Some? ==>
          var e := etable[s].value;
          && e in entries && Home(d0, e.key, |entries|) in done
          && PlaceOf(dtable[Home(d0, e.key, |entries|)], e.key, |entries|) == At(s))
    && (forall b :: 0 <= b < |dtable| ==> -|entries| <= dtable[b])
  }

  /**
   * One more bucket: its entries go where its new displacement leads, into slots that were free, and the other slots
   * stay. Then the entries placed before still are.
   */
  lemma OneMoreBucket<T>(entries: seq<Entry<T>>, d0: int, done: set<nat>, dtable: seq<int>,
                         etable: seq<Option<Entry<T>>>, b: nat, d: int, now: seq<Option<Entry<T>>>)
    requires Placed(entries, d0, done, dtable, etable) && b < |entries| && b !in done && -|entries| <= d
    requires |now| == |etable|
    requires forall e :: e in entries && Home(d0, e.key, |entries|) == b ==>
      var place := PlaceOf(d, e.key, |entries|);
      place.At? && place.i < |etable| && now[place.i] == Some(e)
    requires forall s: nat :: s < |etable| && now[s] != etable[s] ==>
      && etable[s].None? && now[s].Some?
      && now[s].value in entries && Home(d0, now[s].value.key, |entries|) == b
      && PlaceOf(d, now[s].value.key, |entries|) == At(s)
    ensures Placed(entries, d0, done + {b}, dtable[b := d], now)
  {
    hide Home;
    hide PlaceOf;
    forall e | e in entries && Home(d0, e.key, |entries|) in done
      ensures InPlace(e, d0, dtable[b := d], now)
    {
      assert InPlace(e, d0, dtable, etable);
    }
  }

  /** A spread bucket is in place. */
  lemma BucketPlaced<T>(entries: seq<Entry<T>>, d0: int, done: set<nat>, dtable: seq<int>,
                        etable: seq<Option<Entry<T>>>, b: nat, d: int)
    requires Placed(entries, d0, done, dtable, etable) && b < |entries| && b !in done && d > 0
    requires Spreads(d, BucketOf(entries, d0, |entries|, b), etable)
    ensures Placed(entries, d0, done + {b}, dtable[b := d], PutAll(etable, d, BucketOf(entries, d0, |entries|, b)))
  {
    var bucket := BucketOf(entries, d0, |entries|, b);
    var now := PutAll(etable, d, bucket);
    assert |etable| == |entries|;
    BucketHas(entries, d0, |entries|, b);
    PutAllAt(etable, d, bucket);
    hide Placed;
    hide DHash;
    hide Home;
    hide BucketOf;
    hide PutAll;
    hide Spreads;
    forall e | e in entries && Home(d0, e.key, |entries|) == b
      ensures var place := PlaceOf(d, e.key, |entries|);
        place.At? && place.i < |etable| && now[place.i] == Some(e)
    {
      var k :| 0 <= k < |bucket| && bucket[k] == e;
    }
    OneMoreBucket(entries, d0, done, dtable, etable, b, d, now);
  }

  lemma OnlyEntryPlaced<T>(entries: seq<Entry<T>>, d0: int, done: set<nat>, dtable: seq<int>,
                           etable: seq<Option<Entry<T>>>, b: nat, s: nat, x: Entry<T>)
    requires Placed(entries, d0, done, dtable, etable) && b < |entries| && b !in done
    requires s < |entries| && etable[s].None? && x in entries && Home(d0, x.key, |entries|) == b
    requires forall e :: e in entries && Home(d0, e.key, |entries|) == b ==> e == x
    ensures Placed(entries, d0, done + {b}, dtable[b := -1 - s], etable[s := Some(x)])
  {
    assert |etable| == |entries|;
    SinglePlace(s, x.key, |entries|);
    hide Placed;
    hide Home;
    hide PlaceOf;
    OneMoreBucket(entries, d0, done, dtable, etable, b, -1 - s, etable[s := Some(x)]);
  }

  /** A single entry put into a free slot is in place. */
  lemma SinglePlaced<T>(entries: seq<Entry<T>>, d0: int, done: set<nat>, dtable: seq<int>,
                        etable: seq<Option<Entry<T>>>, b: nat, s: nat)
    requires Placed(entries, d0, done, dtable, etable) && b < |entries| && b !in done
    requires s < |entries| && etable[s].None? && |BucketOf(entries, d0, |entries|, b)| == 1
    ensures Placed(entries, d0, done + {b}, dtable[b := -1 - s],
                   etable[s := Some(BucketOf(entries, d0, |entries|, b)[0])])
  {
    BucketHas(entries, d0, |entries|, b);
    assert |etable| == |entries|;
    hide Placed;
    hide Home;
    hide BucketOf;
    var bucket := BucketOf(entries, d0, |entries|, b);
    FirstIsIn(bucket);
    OnlyEntryPlaced(entries, d0, done, dtable, etable, b, s, bucket[0]);
  }

  lemma SinglePlace(s: nat, key: int, n: nat)
    requires n > 0
    ensures PlaceOf(-1 - s, key, n) == At(s)
  {
    hide DHash;
  }

  // ---------------------------------------------------------------- counting

  /** The entries that the table holds. */
  ghost function Held<T>(etable: seq<Option<Entry<T>>>): set<Entry<T>> {
    set s | 0 <= s < |etable| && etable[s].Some? :: etable[s].value
  }

  function Free<T>(etable: seq<Option<Entry<T>>>): nat {
    if |etable| == 0 then 0
    else Free(etable[..|etable| - 1]) + if etable[|etable| - 1].None? then 1 else 0
  }

  lemma {:induction false} HeldAtMost<T>(etable: seq<Option<Entry<T>>>)
    ensures |Held(etable)| + Free(etable) <= |etable|
    ensures (forall i, j :: 0 <= i < j < |etable| && etable[i].Some? ==> etable[i] != etable[j]) ==>
      |Held(etable)| + Free(etable) == |etable|
  {
    if |etable| > 0 {
      var init, last := etable[..|etable| - 1], etable[|etable| - 1];
      HeldAtMost(init);
      assert forall s :: 0 <= s < |init| ==> init[s] == etable[s];
      assert Held(etable) == Held(init) + if last.Some? then {last.value} else {};
      if last.Some? && last.value in Held(init) {
        var s :| 0 <= s < |init| && init[s] == last;
        assert etable[s] == last;
      }
    }
  }

  lemma {:induction false} FreeSlot<T>(etable: seq<Option<Entry<T>>>)
    ensures Free(etable) == 0 <==> forall s :: 0 <= s < |etable| ==> etable[s].Some?
  {
    if |etable| > 0 {
      FreeSlot(etable[..|etable| - 1]);
    }
  }

  ghost function AsSet<T>(entries: seq<Entry<T>>): set<Entry<T>> { set i | 0 <= i < |entries| :: entries[i] }

  lemma {:induction false} AsManyEntries<T>(entries: seq<Entry<T>>)
    requires DistinctKeys(entries)
    ensures |AsSet(entries)| == |entries|
  {
    if |entries| > 0 {
      var init, last := entries[..|entries| - 1], entries[|entries| - 1];
      AsManyEntries(init);
      assert forall s :: 0 <= s < |init| ==> init[s] == entries[s];
      assert AsSet(entries) == AsSet(init) + {last};
    }
  }

  lemma SmallerMisses<A>(small: set<A>, large: set<A>)
    requires |small| < |large|
    ensures exists x :: x in large && x !in small
  {
    if forall x :: x in large ==> x in small {
      assert large <= small;
      SubsetSize(large, small);
    }
  }

  lemma SubsetSize<A>(a: set<A>, b: set<A>)
    requires a <= b
    ensures |a| <= |b| && (|a| == |b| ==> a == b)
  {
    assert b == a + (b - a);
    assert |b| == |a| + |b - a|;
  }

  lemma PlacedIsHeld<T>(entries: seq<Entry<T>>, d0: int, done: set<nat>, dtable: seq<int>,
                        etable: seq<Option<Entry<T>>>, e: Entry<T>)
    requires Placed(entries, d0, done, dtable, etable) && e in entries && Home(d0, e.key, |entries|) in done
    ensures e in Held(etable)
  {
    hide Home;
    hide PlaceOf;
    assert InPlace(e, d0, dtable, etable);
  }

  /** While a slot is free some bucket that is not done has an entry. */
  lemma FreeSlotMeansWork<T>(entries: seq<Entry<T>>, d0: int, done: set<nat>, dtable: seq<int>,
                             etable: seq<Option<Entry<T>>>, s: nat)
    returns (b: nat)
    requires DistinctKeys(entries) && Placed(entries, d0, done, dtable, etable) && s < |etable| && etable[s].None?
    ensures b < |entries| && b !in done && BucketOf(entries, d0, |entries|, b) != []
  {
    HeldAtMost(etable);
    FreeSlot(etable);
    AsManyEntries(entries);
    SmallerMisses(Held(etable), AsSet(entries));
    var e :| e in AsSet(entries) && e !in Held(etable);
    b := Home(d0, e.key, |entries|);
    forall x | x in entries && Home(d0, x.key, |entries|) in done
      ensures x in Held(etable)
    {
      PlacedIsHeld(entries, d0, done, dtable, etable, x);
    }
    hide Home;
    BucketHas(entries, d0, |entries|, b);
  }

  /** When no slot is free every entry has been placed. */
  lemma FullMeansDone<T>(entries: seq<Entry<T>>, d0: int, done: set<nat>, dtable: seq<int>,
                         etable: seq<Option<Entry<T>>>)
    requires DistinctKeys(entries) && Placed(entries, d0, done, dtable, etable)
    requires forall s :: 0 <= s < |etable| ==> etable[s].Some?
    ensures Held(etable) == AsSet(entries)
  {
    hide Home;
    hide PlaceOf;
    HeldAtMost(etable);
    FreeSlot(etable);
    AsManyEntries(entries);
    SubsetSize(Held(etable), AsSet(entries));
  }

  lemma HomeIsDone<T>(entries: seq<Entry<T>>, d0: int, done: set<nat>, dtable: seq<int>,
                      etable: seq<Option<Entry<T>>>, e: Entry<T>)
    requires DistinctKeys(entries) && Placed(entries, d0, done, dtable, etable) && e in entries
    requires forall s :: 0 <= s < |etable| ==> etable[s].Some?
    ensures Home(d0, e.key, |entries|) in done
  {
    FullMeansDone(entries, d0, done, dtable, etable);
    hide Home;
    hide PlaceOf;
    assert e in AsSet(entries) && e in Held(etable);
    var s :| 0 <= s < |etable| && etable[s].Some? && etable[s].value == e;
  }

  lemma LeftOverIsEmpty<T>(entries: seq<Entry<T>>, d0: int, done: set<nat>, dtable: seq<int>,
                           etable: seq<Option<Entry<T>>>, b: nat)
    requires DistinctKeys(entries) && Placed(entries, d0, done, dtable, etable) && b !in done
    requires forall s :: 0 <= s < |etable| ==> etable[s].Some?
    ensures BucketOf(entries, d0, |entries|, b) == []
  {
    var bucket := BucketOf(entries, d0, |entries|, b);
    BucketHas(entries, d0, |entries|, b);
    hide BucketOf;
    forall e | e in entries
      ensures Home(d0, e.key, |entries|) != b
    {
      HomeIsDone(entries, d0, done, dtable, etable, e);
    }
    hide Home;
    FirstIsIn(bucket);
  }

  lemma FirstIsIn<A>(s: seq<A>)
    ensures s == [] || s[0] in s
  {
  }

  lemma FullIsPerfect<T>(entries: seq<Entry<T>>, d0: int, done: set<nat>, dtable: seq<int>,
                         etable: seq<Option<Entry<T>>>, found: seq<Entry<T>>)
    requires DistinctKeys(entries) && Placed(entries, d0, done, dtable, etable)
    requires |found| == |etable| && forall s :: 0 <= s < |etable| ==> etable[s] == Some(found[s])
    ensures IsPerfect(entries, Table(d0, dtable, found))
  {
    FullMeansDone(entries, d0, done, dtable, etable);
    hide Home;
    hide PlaceOf;
    forall e | e in entries
      ensures e in found
    {
      assert e in AsSet(entries);
      var s :| 0 <= s < |etable| && etable[s].Some? && etable[s].value == e;
      assert found[s] == e;
    }
  }

  // ---------------------------------------------------------------- the order of the buckets

  /** The first n buckets, the larger ones first. */
  predicate IsPartOrder<T>(indices: seq<nat>, buckets: seq<seq<Entry<T>>>, n: nat) {
    && |indices| == n <= |buckets|
    && (forall b: nat :: b < n ==> b in indices)
    && (forall i :: 0 <= i < n ==> indices[i] < n)
    && (forall i, j :: 0 <= i < j < n ==> indices[i] != indices[j])
    && (forall i, j :: 0 <= i < j < n ==> |buckets[indices[i]]| >= |buckets[indices[j]]|)
  }

  predicate IsOrder<T>(indices: seq<nat>, buckets: seq<seq<Entry<T>>>) { IsPartOrder(indices, buckets, |buckets|) }

  /** qsort! by size, downwards. */
  method Order<T>(buckets: seq<seq<Entry<T>>>) returns (indices: seq<nat>)
    ensures IsOrder(indices, buckets)
  {
    indices := [];
    for b := 0 to |buckets|
      invariant IsPartOrder(indices, buckets, b)
    {
      var i := |indices|;
      while i > 0 && |buckets[indices[i - 1]]| < |buckets[b]|
        invariant 0 <= i <= |indices|
        invariant forall j :: i <= j < |indices| ==> |buckets[indices[j]]| < |buckets[b]|
      {
        i := i - 1;
      }
      InsertKeepsOrder(indices, buckets, b, i);
      indices := indices[..i] + [b] + indices[i..];
    }
  }

  lemma InsertKeepsOrder<T>(indices: seq<nat>, buckets: seq<seq<Entry<T>>>, b: nat, i: nat)
    requires b < |buckets| && i <= b && IsPartOrder(indices, buckets, b)
    requires i > 0 ==> |buckets[indices[i - 1]]| >= |buckets[b]|
    requires forall j :: i <= j < b ==> |buckets[indices[j]]| < |buckets[b]|
    ensures IsPartOrder(indices[..i] + [b] + indices[i..], buckets, b + 1)
  {
    var r := indices[..i] + [b] + indices[i..];
    forall c: nat | c < b + 1
      ensures c in r
    {
      InsertedHas(indices, b, i, c);
    }
    forall k | 0 <= k < b + 1
      ensures r[k] < b + 1
    {
      InsertedAt(indices, b, i, k);
    }
    forall k, l | 0 <= k < l < b + 1
      ensures r[k] != r[l] && |buckets[r[k]]| >= |buckets[r[l]]|
    {
      InsertKeepsPair(indices, buckets, b, i, k, l);
    }
  }

  lemma InsertKeepsPair<T>(indices: seq<nat>, buckets: seq<seq<Entry<T>>>, b: nat, i: nat, k: nat, l: nat)
    requires b < |buckets| && i <= b && IsPartOrder(indices, buckets, b) && k < l < b + 1
    requires i > 0 ==> |buckets[indices[i - 1]]| >= |buckets[b]|
    requires forall j :: i <= j < b ==> |buckets[indices[j]]| < |buckets[b]|
    ensures var r := indices[..i] + [b] + indices[i..];
      r[k] < |buckets| && r[l] < |buckets| && r[k] != r[l] && |buckets[r[k]]| >= |buckets[r[l]]|
  {
    InsertedAt(indices, b, i, k);
    InsertedAt(indices, b, i, l);
    if l == i && k < i - 1 {
      assert |buckets[indices[k]]| >= |buckets[indices[i - 1]]|;
    }
  }

  lemma InsertedHas(indices: seq<nat>, b: nat, i: nat, c: nat)
    requires i <= |indices| && (c == b || c in indices)
    ensures c in indices[..i] + [b] + indices[i..]
  {
    assert indices == indices[..i] + indices[i..];
  }

  lemma InsertedAt(indices: seq<nat>, b: nat, i: nat, k: nat)
    requires i <= |indices| && k <= |indices|
    ensures (indices[..i] + [b] + indices[i..])[k] == if k < i then indices[k] else if k == i then b else indices[k - 1]
  {
  }

  // ---------------------------------------------------------------- the generator

  class Builder<T> {
    const entries: seq<Entry<T>>
    const n: nat
    var buckets: seq<seq<Entry<T>>>
    var bucketIndices: seq<nat>
    var dtable: seq<int>
    var etable: seq<Option<Entry<T>>>
    var dset: seq<int>
    var dcounter: int

    /** The stamps in dset are old. */
    ghost predicate Valid()
      reads this
    {
      n == |entries| > 0 && DistinctKeys(entries) && |dset| == n && forall s :: 0 <= s < n ==> dset[s] < dcounter
    }

    /** The buckets for the seed are filled and ordered. */
    ghost predicate Bucketed(d0: int)
      requires Valid()
      reads this
    {
      buckets == Buckets(entries, d0) && IsOrder(bucketIndices, buckets)
    }

    /** The first buckets in the order. */
    ghost function Done(i: nat): set<nat>
      requires i <= |bucketIndices|
      reads this
    {
      set k | 0 <= k < i :: bucketIndices[k]
    }

    constructor (entries: seq<Entry<T>>)
      requires |entries| > 0 && DistinctKeys(entries)
      ensures Valid() && this.entries == entries
    {
      this.entries := entries;
      n := |entries|;
      buckets, bucketIndices, dtable, etable := [], [], [], [];
      dset, dcounter := seq(|entries|, _ => -1), 0;
    }

    method PutInBuckets(d0: int)
      requires Valid()
      modifies this
      ensures Valid() && Bucketed(d0)
      ensures Placed(entries, d0, {}, dtable, etable) && etable == seq(n, _ => None)
    {
      hide Home;
      hide DHash;
      buckets := seq(n, _ => []);
      dtable := seq(n, _ => 0);
      etable := seq(n, _ => None);
      for i := 0 to |entries|
        invariant Valid() && |buckets| == n
        invariant dtable == seq(n, _ => 0) && etable == seq(n, _ => None)
        invariant forall b: nat :: b < n ==> buckets[b] == BucketOf(entries[..i], d0, n, b)
      {
        assert entries[..i + 1][..i] == entries[..i];
        var slot := Home(d0, entries[i].key, n);
        buckets := buckets[slot := [entries[i]] + buckets[slot]];
      }
      assert entries[..|entries|] == entries;
      bucketIndices := Order(buckets);
    }

    /** loop-k: a slot is free of the bucket so far when its stamp is not the one of this try. */
    method TrySpread(d: int, bucket: seq<Entry<T>>) returns (spread: bool)
      requires Valid() && |etable| == n
      modifies `dset, `dcounter
      ensures Valid() && spread == Spreads(d, bucket, etable)
    {
      hide DHash;
      var dstamp := dcounter;
      dcounter := dcounter + 1;
      for k := 0 to |bucket|
        invariant dcounter == dstamp + 1 && |dset| == n && forall s :: 0 <= s < n ==> dset[s] < dcounter
        invariant forall s :: 0 <= s < n ==>
          (dset[s] == dstamp <==> exists j :: 0 <= j < k && DHash(d, bucket[j].key, n) == s)
        invariant forall j :: 0 <= j < k ==> etable[DHash(d, bucket[j].key, n)].None?
        invariant forall i, j :: 0 <= i < j < k ==> DHash(d, bucket[i].key, n) != DHash(d, bucket[j].key, n)
      {
        var slot := DHash(d, bucket[k].key, n);
        if etable[slot].Some? || dset[slot] == dstamp {
          return false;
        }
        dset := dset[slot := dstamp];
      }
      spread := true;
    }

    /** The least second seed that spreads the bucket, if there is one. */
    method ComputeD(bucket: seq<Entry<T>>, maxD: int) returns (found: Option<int>)
      requires Valid() && |etable| == n
      modifies `dset, `dcounter
      ensures Valid() && found == LeastD(bucket, etable, 2, maxD)
    {
      hide Spreads;
      var d := 2;
      while d <= maxD
        invariant Valid() && 2 <= d && LeastD(bucket, etable, 2, maxD) == LeastD(bucket, etable, d, maxD)
        decreases maxD - d
      {
        var spread := TrySpread(d, bucket);
        if spread {
          return Some(d);
        }
        d := d + 1;
      }
      found := None;
    }

    /** The bucket at place i of the order, which is large, if it can be spread. */
    method PutBucket(d0: int, i: nat) returns (spread: bool)
      requires Valid() && Bucketed(d0) && i < n && |buckets[bucketIndices[i]]| > 1
      requires Placed(entries, d0, Done(i), dtable, etable) && Greedy(entries, d0, bucketIndices, i) == Some(etable)
      modifies `dtable, `etable, `dset, `dcounter
      ensures Valid() && Bucketed(d0)
      ensures Greedy(entries, d0, bucketIndices, i + 1) == if spread then Some(etable) else None
      ensures spread ==> Placed(entries, d0, Done(i + 1), dtable, etable)
    {
      hide BucketOf;
      hide Spreads;
      hide PutAll;
      hide LeastD;
      hide Greedy;
      assert |dtable| == |etable| == n;
      hide Placed;
      var b := bucketIndices[i];
      assert b !in Done(i) && Done(i + 1) == Done(i) + {b};
      GreedyStep(entries, d0, bucketIndices, i, etable);
      LeastSpreads(buckets[b], etable, 2, 10 * n);
      var d := ComputeD(buckets[b], 10 * n);
      if d.None? {
        return false;
      }
      BucketPlaced(entries, d0, Done(i), dtable, etable, b, d.value);
      PutInEtable(d.value, buckets[b]);
      dtable := dtable[b := d.value];
      spread := true;
    }

    /** The large buckets, in order; the place of the first that is not large, or nothing when one cannot be spread. */
    method PutBuckets(d0: int) returns (start: Option<nat>)
      requires Valid() && Bucketed(d0) && Placed(entries, d0, {}, dtable, etable)
      requires etable == seq(n, _ => None)
      modifies `dtable, `etable, `dset, `dcounter
      ensures Valid() && Bucketed(d0)
      ensures start.Some? ==> start.value < n && Placed(entries, d0, Done(start.value), dtable, etable)
      ensures start.Some? ==> forall k :: start.value <= k < n ==> |buckets[bucketIndices[k]]| <= 1
      ensures start.None? ==> Stuck(entries, d0)
    {
      hide BucketOf;
      hide Placed;
      hide Stuck;
      hide Greedy;
      hide IsOrder;
      hide Buckets;
      hide Done;
      var i := 0;
      StartOfOrder(d0);
      while |buckets[bucketIndices[i]]| > 1
        invariant Valid() && Bucketed(d0) && i < n
        invariant Placed(entries, d0, Done(i), dtable, etable) && Greedy(entries, d0, bucketIndices, i) == Some(etable)
        invariant forall k :: 0 <= k < i ==> |buckets[bucketIndices[k]]| > 1
        decreases n - i
      {
        var spread := PutBucket(d0, i);
        if !spread {
          StuckNow(d0, i);
          return None;
        }
        i := i + 1;
        SomeBucketLeft(d0, i);
      }
      RestIsSmall(d0, i);
      start := Some(i);
    }

    lemma StartOfOrder(d0: int)
      requires Valid() && Bucketed(d0) && etable == seq(n, _ => None)
      ensures |bucketIndices| == n && |buckets| == n && forall k :: 0 <= k < n ==> bucketIndices[k] < n
      ensures Done(0) == {} && Greedy(entries, d0, bucketIndices, 0) == Some(etable)
    {
      hide BucketOf;
    }

    lemma RestIsSmall(d0: int, i: nat)
      requires Valid() && Bucketed(d0) && i < n && |buckets[bucketIndices[i]]| <= 1
      ensures |bucketIndices| == n == |buckets|
      ensures forall k :: i <= k < n ==> bucketIndices[k] < n && |buckets[bucketIndices[k]]| <= 1
    {
      hide BucketOf;
    }

    lemma StuckNow(d0: int, i: nat)
      requires Valid() && Bucketed(d0) && i < n && Greedy(entries, d0, bucketIndices, i + 1).None?
      requires forall k :: 0 <= k < i + 1 ==> |buckets[bucketIndices[k]]| > 1
      ensures Stuck(entries, d0)
    {
      hide BucketOf;
      hide Greedy;
      assert StuckAt(entries, d0, bucketIndices, i + 1);
    }

    lemma SomeBucketLeft(d0: int, i: nat)
      requires Valid() && Bucketed(d0) && i <= n
      requires forall k :: 0 <= k < i ==> |buckets[bucketIndices[k]]| > 1
      ensures i < n
    {
      hide BucketOf;
      NotAllLarge(entries, d0);
      var b: nat :| b < n && |BucketOf(entries, d0, n, b)| <= 1;
      assert b in bucketIndices && |buckets[b]| <= 1;
      var k :| 0 <= k < n && bucketIndices[k] == b;
    }

    method PutInEtable(d: int, bucket: seq<Entry<T>>)
      requires Valid() && |etable| == n
      modifies `etable
      ensures Valid() && etable == PutAll(old(etable), d, bucket)
    {
      hide DHash;
      for k := 0 to |bucket|
        invariant |etable| == n && etable == PutAll(old(etable), d, bucket[..k])
      {
        assert bucket[..k + 1][..k] == bucket[..k];
        etable := etable[DHash(d, bucket[k].key, n) := Some(bucket[k])];
      }
      assert bucket[..|bucket|] == bucket;
    }

    /** Every slot that is free takes the next bucket in order, which has exactly one entry, until all are full. */
    method PutSingles(d0: int, start: nat) returns (ghost end: nat)
      requires Valid() && Bucketed(d0) && start < n
      requires Placed(entries, d0, Done(start), dtable, etable)
      requires forall k :: start <= k < n ==> |buckets[bucketIndices[k]]| <= 1
      modifies `dtable, `etable
      ensures Valid() && Bucketed(d0) && end <= n
      ensures Placed(entries, d0, Done(end), dtable, etable)
      ensures |etable| == n && forall s :: 0 <= s < n ==> etable[s].Some?
      ensures start <= end && (forall k :: start <= k < end ==> |buckets[bucketIndices[k]]| == 1)
      ensures forall k :: end <= k < n ==> |buckets[bucketIndices[k]]| == 0
    {
      hide BucketOf;
      var i := start;
      assert |etable| == n;
      hide Placed;
      for s := 0 to n
        invariant Valid() && Bucketed(d0) && start <= i <= n
        invariant Placed(entries, d0, Done(i), dtable, etable) && |dtable| == |etable| == n
        invariant forall r :: 0 <= r < s ==> etable[r].Some?
        invariant forall k :: start <= k < i ==> |buckets[bucketIndices[k]]| == 1
      {
        if etable[s].None? {
          NextHasOne(d0, i, start, s);
          var b := bucketIndices[i];
          assert b !in Done(i);
          SinglePlaced(entries, d0, Done(i), dtable, etable, b, s);
          assert Done(i + 1) == Done(i) + {b};
          etable := etable[s := Some(buckets[b][0])];
          dtable := dtable[b := -1 - s];
          i := i + 1;
        }
      }
      end := i;
      forall k | end <= k < n
        ensures |buckets[bucketIndices[k]]| == 0
      {
        RestIsEmpty(d0, end, k);
      }
    }

    /** When all slots are full the buckets that were not done are empty: as many had one entry as slots were left. */
    lemma RestIsEmpty(d0: int, end: nat, k: nat)
      requires Valid() && Bucketed(d0) && end <= k < n
      requires Placed(entries, d0, Done(end), dtable, etable) && forall s :: 0 <= s < |etable| ==> etable[s].Some?
      ensures |buckets[bucketIndices[k]]| == 0
    {
      assert bucketIndices[k] !in Done(end);
      hide BucketOf;
      LeftOverIsEmpty(entries, d0, Done(end), dtable, etable, bucketIndices[k]);
    }

    /** The next bucket has exactly one entry. */
    lemma NextHasOne(d0: int, i: nat, start: nat, s: nat)
      requires Valid() && Bucketed(d0) && start <= i <= n && s < n
      requires Placed(entries, d0, Done(i), dtable, etable) && etable[s].None?
      requires forall k :: start <= k < n ==> |buckets[bucketIndices[k]]| <= 1
      ensures i < n && |buckets[bucketIndices[i]]| == 1
    {
      hide BucketOf;
      var b := FreeSlotMeansWork(entries, d0, Done(i), dtable, etable, s);
      hide Placed;
      assert b in bucketIndices && |buckets[b]| >= 1;
      var k :| 0 <= k < n && bucketIndices[k] == b;
      assert k >= i;
    }

    /** compute-tables: the first seed that does not get stuck; nothing when the first tries all do. */
    method Build(tries: nat) returns (table: Option<Table<T>>)
      requires Valid()
      modifies this
      ensures table.Some? ==> IsPerfect(entries, table.value) && 1 <= table.value.d0 <= tries
      ensures forall d0 :: 1 <= d0 < (if table.Some? then table.value.d0 else tries + 1) ==> Stuck(entries, d0)
    {
      hide IsPerfect;
      hide Stuck;
      for d0 := 1 to tries + 1
        invariant Valid() && forall d :: 1 <= d < d0 ==> Stuck(entries, d)
      {
        PutInBuckets(d0);
        var start := PutBuckets(d0);
        if start.Some? {
          ghost var end := PutSingles(d0, start.value);
          var found := seq(n, s requires 0 <= s < n && |etable| == n && (forall r :: 0 <= r < n ==> etable[r].Some?)
                              reads this => etable[s].value);
          FullIsPerfect(entries, d0, Done(end), dtable, etable, found);
          return Some(Table(d0, dtable, found));
        }
      }
      table := None;
    }
  }

  /** PerfectHashTable: nothing when keys repeat, which is fatal, or when the first tries of a seed all get stuck. */
  method PerfectHashTable<T>(entries: seq<Entry<T>>, tries: nat) returns (table: Option<Table<T>>)
    requires |entries| > 0
    ensures table.Some? ==> DistinctKeys(entries) && IsPerfect(entries, table.value)
    ensures table.None? && DistinctKeys(entries) ==> forall d0 :: 1 <= d0 <= tries ==> Stuck(entries, d0)
  {
    hide Stuck;
    hide IsPerfect;
    var keys: set<int> := {};
    for i := 0 to |entries|
      invariant DistinctKeys(entries[..i])
      invariant forall k :: k in keys <==> exists j :: 0 <= j < i && entries[j].key == k
    {
      if entries[i].key in keys {
        return None;
      }
      keys := keys + {entries[i].key};
    }
    assert entries[..|entries|] == entries;
    var builder := new Builder(entries);
    table := builder.Build(tries);
  }
}
