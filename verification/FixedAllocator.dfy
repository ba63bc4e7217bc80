/** The best-fit allocator over a fixed region and its list of free chunks, oldtests/driver.c. */
module FixedAllocator {
  import opened Options

  /** The size of the header in front of a chunk's bytes. */
  const HEADER := 8

  /** (size + sizeof(Chunk) + 7) & -8. */
  function TotalSize(size: nat): (total: nat)
    ensures total % 8 == 0 && size + HEADER <= total < size + HEADER + 8
  {
    (size + HEADER + 7) / 8 * 8
  }

  /** A chunk that was carved off the region: the address of its header and the size the header holds. */
  datatype Chunk = Chunk(address: int, size: nat)

  /** base is where the region starts, and live holds the chunks that were handed out and not given back. */
  datatype State =
    State(base: int, top: int, limit: int, sizes: map<int, nat>, carved: seq<Chunk>, free: seq<int>, live: set<int>)

  // ---------------------------------------------------------------- the invariant

  function End(base: int, carved: seq<Chunk>): int {
    if |carved| == 0 then base
    else carved[|carved| - 1].address + TotalSize(carved[|carved| - 1].size)
  }

  /** The chunks lie one behind the other from the base on. */
  predicate Tiled(base: int, carved: seq<Chunk>) {
    |carved| > 0 ==>
      carved[|carved| - 1].address == End(base, carved[..|carved| - 1]) && Tiled(base, carved[..|carved| - 1])
  }

  lemma {:induction false} TiledIsApart(base: int, carved: seq<Chunk>, i: nat)
    requires Tiled(base, carved) && base % 8 == 0 && i < |carved|
    ensures carved[i].address % 8 == 0 && base <= carved[i].address
    ensures carved[i].address + TotalSize(carved[i].size) <= End(base, carved)
    ensures forall j :: i < j < |carved| ==> carved[i].address + TotalSize(carved[i].size) <= carved[j].address
  {
    var last := |carved| - 1;
    var init := carved[..last];
    if i < last {
      TiledIsApart(base, init, i);
    } else if i > 0 {
      TiledIsApart(base, init, i - 1);
    }
    assert forall j :: i < j < last ==> carved[j] == init[j];
  }

  predicate Distinct(a: seq<int>) { forall i, j :: 0 <= i < j < |a| ==> a[i] != a[j] }

  function Addresses(carved: seq<Chunk>): set<int> { set c | c in carved :: c.address }

  /** The headers hold the sizes. */
  predicate HeadersHold(sizes: map<int, nat>, carved: seq<Chunk>) {
    forall c :: c in carved ==> c.address in sizes && sizes[c.address] == c.size
  }

  /** Each chunk is either free, once, or live. */
  ghost predicate Partition(addresses: set<int>, free: seq<int>, live: set<int>) {
    && Distinct(free)
    && (forall a :: a in addresses <==> a in free || a in live)
    && (forall a :: a in free ==> a !in live)
  }

  ghost predicate Inv(s: State) {
    && s.base % 8 == 0 && s.top == End(s.base, s.carved) && s.base <= s.top <= s.limit
    && Tiled(s.base, s.carved)
    && HeadersHold(s.sizes, s.carved)
    && Partition(Addresses(s.carved), s.free, s.live)
  }

  // ---------------------------------------------------------------- the search

  predicate FitsAt(sizes: map<int, nat>, free: seq<int>, size: nat, i: nat)
    requires i < |free|
  {
    free[i] in sizes && sizes[free[i]] >= size
  }

  /** The scan of the first n free chunks: a chunk replaces the best so far only when it is strictly smaller. */
  function Best(sizes: map<int, nat>, free: seq<int>, size: nat, n: nat): (best: Option<nat>)
    requires n <= |free|
    ensures best.Some? ==> best.value < n && FitsAt(sizes, free, size, best.value)
  {
    if n == 0 then None
    else
      var before := Best(sizes, free, size, n - 1);
      if FitsAt(sizes, free, size, n - 1) && (before.None? || sizes[free[n - 1]] < sizes[free[before.value]])
      then Some(n - 1) else before
  }

  /** The free chunk fits, no other that fits is smaller, and none as small comes before it. */
  predicate IsBestFit(sizes: map<int, nat>, free: seq<int>, size: nat, i: nat)
    requires i < |free|
  {
    && FitsAt(sizes, free, size, i)
    && (forall j: nat :: j < |free| && FitsAt(sizes, free, size, j) ==> sizes[free[i]] <= sizes[free[j]])
    && (forall j: nat :: j < i && FitsAt(sizes, free, size, j) ==> sizes[free[i]] < sizes[free[j]])
  }

  lemma {:induction false} BestIsFirstSmallest(sizes: map<int, nat>, free: seq<int>, size: nat, n: nat)
    requires n <= |free|
    ensures Best(sizes, free, size, n).None? <==> forall j: nat :: j < n ==> !FitsAt(sizes, free, size, j)
    ensures Best(sizes, free, size, n).Some? ==>
      var i := Best(sizes, free, size, n).value;
      && (forall j: nat :: j < n && FitsAt(sizes, free, size, j) ==> sizes[free[i]] <= sizes[free[j]])
      && (forall j: nat :: j < i && FitsAt(sizes, free, size, j) ==> sizes[free[i]] < sizes[free[j]])
  {
    if n > 0 {
      BestIsFirstSmallest(sizes, free, size, n - 1);
    }
  }

  /** The search finds the best fit, and finds nothing only when nothing fits. */
  lemma SearchFindsBestFit(sizes: map<int, nat>, free: seq<int>, size: nat, i: nat)
    requires i < |free|
    ensures Best(sizes, free, size, |free|) == Some(i) <==> IsBestFit(sizes, free, size, i)
  {
    BestIsFirstSmallest(sizes, free, size, |free|);
    if IsBestFit(sizes, free, size, i) {
      var b := Best(sizes, free, size, |free|).value;
      assert FitsAt(sizes, free, size, b) && FitsAt(sizes, free, size, i);
      hide FitsAt;
    }
  }

  // ---------------------------------------------------------------- steps

  /** delete_index: the last item takes the place of the deleted one. */
  function Deleted(items: seq<int>, i: nat): seq<int>
    requires i < |items|
  {
    items[i := items[|items| - 1]][..|items| - 1]
  }

  lemma DeletedDrops(items: seq<int>, i: nat)
    requires i < |items| && Distinct(items)
    ensures Distinct(Deleted(items, i)) && forall a :: a in Deleted(items, i) <==> a in items && a != items[i]
  {
    var d := Deleted(items, i);
    forall a | a in items && a != items[i]
      ensures a in d
    {
      var k :| 0 <= k < |items| && items[k] == a;
      assert d[if k == |items| - 1 then i else k] == a;
    }
  }

  /** What fmalloc returns, or nothing when the program prints "Out of fixed memory" and exits. */
  function Fmalloc(s: State, size: nat): Option<int> {
    var best := Best(s.sizes, s.free, size, |s.free|);
    if best.Some? then Some(s.free[best.value] + HEADER)
    else if s.top + TotalSize(size) > s.limit then None
    else Some(s.top + HEADER)
  }

  function AfterFmalloc(s: State, size: nat): State {
    var best := Best(s.sizes, s.free, size, |s.free|);
    if best.Some? then
      s.(free := Deleted(s.free, best.value), live := s.live + {s.free[best.value]})
    else if s.top + TotalSize(size) > s.limit then
      s.(top := s.top + TotalSize(size))
    else
      s.(top := s.top + TotalSize(size), sizes := s.sizes[s.top := size],
         carved := s.carved + [Chunk(s.top, size)], live := s.live + {s.top})
  }

  function AfterFfree(s: State, ptr: int): State {
    s.(free := s.free + [ptr - HEADER], live := s.live - {ptr - HEADER})
  }

  /** What holds of the chunk at h when fmalloc of the size took the state from before to now. */
  ghost predicate Granted(before: State, now: State, h: int, size: nat) {
    && Inv(now) && h !in before.live && now.live == before.live + {h}
    && h in Addresses(now.carved) && h in now.sizes && now.sizes[h] >= size
    && (forall a :: a in before.live ==> a in Addresses(now.carved) && a in before.sizes && a in now.sizes)
    && (forall a :: a in before.live ==> now.sizes[a] == before.sizes[a])
  }

  lemma HasAddress(carved: seq<Chunk>, a: int) returns (i: nat)
    requires a in Addresses(carved)
    ensures i < |carved| && carved[i].address == a
  {
    var c :| c in carved && c.address == a;
    i :| 0 <= i < |carved| && carved[i] == c;
  }

  lemma CarvedGrows(base: int, carved: seq<Chunk>, size: nat)
    requires Tiled(base, carved) && base % 8 == 0
    ensures var now := carved + [Chunk(End(base, carved), size)];
      && Tiled(base, now) && End(base, now) == End(base, carved) + TotalSize(size)
      && Addresses(now) == Addresses(carved) + {End(base, carved)} && End(base, carved) !in Addresses(carved)
  {
    var now := carved + [Chunk(End(base, carved), size)];
    assert now[..|carved|] == carved;
    assert now[|carved|] in now;
    if End(base, carved) in Addresses(carved) {
      var i := HasAddress(carved, End(base, carved));
      TiledIsApart(base, carved, i);
      assert false;
    }
  }

  lemma HeadersOfLive(s: State, a: int)
    requires Inv(s) && a in s.live
    ensures a in Addresses(s.carved) && a in s.sizes
  {
    var i := HasAddress(s.carved, a);
    assert s.carved[i] in s.carved;
  }

  lemma NewHeader(sizes: map<int, nat>, carved: seq<Chunk>, top: int, size: nat)
    requires HeadersHold(sizes, carved) && top !in Addresses(carved)
    ensures HeadersHold(sizes[top := size], carved + [Chunk(top, size)])
  {
    assert forall c :: c in carved ==> c.address in Addresses(carved);
  }

  lemma NewLive(addresses: set<int>, free: seq<int>, live: set<int>, top: int)
    requires Partition(addresses, free, live) && top !in addresses
    ensures Partition(addresses + {top}, free, live + {top}) && top !in live
  {
  }

  lemma CarveGrants(s: State, size: nat)
    requires Inv(s) && Best(s.sizes, s.free, size, |s.free|).None? && s.top + TotalSize(size) <= s.limit
    ensures Granted(s, AfterFmalloc(s, size), s.top, size)
  {
    var now := AfterFmalloc(s, size);
    assert now == s.(top := s.top + TotalSize(size), sizes := s.sizes[s.top := size],
                     carved := s.carved + [Chunk(s.top, size)], live := s.live + {s.top});
    hide AfterFmalloc;
    hide Best;
    CarvedGrows(s.base, s.carved, size);
    NewHeader(s.sizes, s.carved, s.top, size);
    NewLive(Addresses(s.carved), s.free, s.live, s.top);
    forall a | a in s.live
      ensures a in Addresses(s.carved) && a in s.sizes
    {
      HeadersOfLive(s, a);
    }
    hide Tiled;
    hide End;
    hide TotalSize;
    hide HeadersHold;
    hide Partition;
    hide Addresses;
  }

  lemma ReuseGrants(s: State, size: nat)
    requires Inv(s) && Best(s.sizes, s.free, size, |s.free|).Some?
    ensures Granted(s, AfterFmalloc(s, size), s.free[Best(s.sizes, s.free, size, |s.free|).value], size)
  {
    DeletedDrops(s.free, Best(s.sizes, s.free, size, |s.free|).value);
    forall a | a in s.live
      ensures a in Addresses(s.carved) && a in s.sizes
    {
      HeadersOfLive(s, a);
    }
    hide Tiled;
    hide End;
    hide TotalSize;
    hide HeadersHold;
    hide Addresses;
  }

  /** fmalloc keeps the invariant, and leaves every live chunk as it was. */
  lemma FmallocGrants(s: State, size: nat)
    requires Inv(s) && Fmalloc(s, size).Some?
    ensures Granted(s, AfterFmalloc(s, size), Fmalloc(s, size).value - HEADER, size)
  {
    hide Inv;
    hide AfterFmalloc;
    hide Granted;
    hide Best;
    hide TotalSize;
    if Best(s.sizes, s.free, size, |s.free|).None? {
      CarveGrants(s, size);
    } else {
      ReuseGrants(s, size);
    }
  }

  /**
   * fmalloc reuses a free chunk whenever one fits, the first of the smallest, and then the region does not grow; it
   * carves at the top only when none fits, and fails exactly when there is no room there either.
   */
  lemma ReusesWhenever(s: State, size: nat)
    requires Inv(s)
    ensures var fits := exists i: nat :: i < |s.free| && FitsAt(s.sizes, s.free, size, i);
      && (fits ==>
            exists i: nat :: i < |s.free| && IsBestFit(s.sizes, s.free, size, i)
              && Fmalloc(s, size) == Some(s.free[i] + HEADER)
              && (forall a :: a in AfterFmalloc(s, size).free <==> a in s.free && a != s.free[i])
              && AfterFmalloc(s, size).top == s.top && AfterFmalloc(s, size).carved == s.carved)
      && (!fits ==>
            && AfterFmalloc(s, size).free == s.free && AfterFmalloc(s, size).top == s.top + TotalSize(size)
            && Fmalloc(s, size) == if s.top + TotalSize(size) <= s.limit then Some(s.top + HEADER) else None)
  {
    hide FitsAt;
    hide IsBestFit;
    hide TotalSize;
    BestIsFirstSmallest(s.sizes, s.free, size, |s.free|);
    var best := Best(s.sizes, s.free, size, |s.free|);
    if best.Some? {
      SearchFindsBestFit(s.sizes, s.free, size, best.value);
      DeletedDrops(s.free, best.value);
    }
  }

  /** A block given back serves the next request that it is large enough for, and the region does not grow for it. */
  lemma FreedServesNext(s: State, ptr: int, size: nat)
    requires Inv(s) && ptr - HEADER in s.live && ptr - HEADER in s.sizes && size <= s.sizes[ptr - HEADER]
    ensures var freed := AfterFfree(s, ptr);
      Fmalloc(freed, size).Some? && AfterFmalloc(freed, size).top == s.top
  {
    var freed := AfterFfree(s, ptr);
    FfreeKeepsInv(s, ptr);
    hide Inv;
    assert FitsAt(freed.sizes, freed.free, size, |s.free|);
    ReusesWhenever(freed, size);
  }

  lemma FfreeKeepsInv(s: State, ptr: int)
    requires Inv(s) && ptr - HEADER in s.live
    ensures Inv(AfterFfree(s, ptr))
  {
  }

  // ---------------------------------------------------------------- what a block is

  /** Two chunks do not overlap, and each lies inside the part of the region that was carved. */
  lemma ChunksApart(s: State, a: int, b: int)
    requires Inv(s) && a in Addresses(s.carved) && b in Addresses(s.carved)
    ensures a in s.sizes && b in s.sizes && a % 8 == 0
    ensures s.base <= a && a + TotalSize(s.sizes[a]) <= s.top <= s.limit
    ensures a != b ==> a + TotalSize(s.sizes[a]) <= b || b + TotalSize(s.sizes[b]) <= a
  {
    var i :| 0 <= i < |s.carved| && s.carved[i].address == a;
    var j :| 0 <= j < |s.carved| && s.carved[j].address == b;
    TiledIsApart(s.base, s.carved, i);
    TiledIsApart(s.base, s.carved, j);
  }

  lemma HeaderKeepsAlignment(a: int)
    requires a % 8 == 0
    ensures (a + HEADER) % 8 == 0
  {
  }

  /**
   * A block that fmalloc returns is 8-aligned, lies inside the region behind its header, and meets neither the header
   * nor the bytes of any chunk that was live before.
   */
  lemma BlockIsSound(s: State, size: nat, a: int)
    requires Inv(s) && Fmalloc(s, size).Some?
    ensures var p := Fmalloc(s, size).value;
      && p % 8 == 0 && s.base + HEADER <= p && p + size <= AfterFmalloc(s, size).top <= s.limit
      && p - HEADER !in s.live
      && (a in s.live ==> a in s.sizes && (p + size <= a || a + HEADER + s.sizes[a] <= p - HEADER))
  {
    FmallocGrants(s, size);
    var now, h := AfterFmalloc(s, size), Fmalloc(s, size).value - HEADER;
    assert now.base == s.base && now.limit == s.limit;
    hide Inv;
    hide Fmalloc;
    hide AfterFmalloc;
    hide Addresses;
    hide TotalSize;
    ChunksApart(now, h, h);
    HeaderKeepsAlignment(h);
    if a in s.live {
      ChunksApart(now, h, a);
    }
  }

  // ---------------------------------------------------------------- runs

  datatype Call = Malloc(size: nat) | Free(ptr: int)

  predicate Allowed(s: State, c: Call) { if c.Malloc? then Fmalloc(s, c.size).Some? else c.ptr - HEADER in s.live }

  function After(s: State, c: Call): State { if c.Malloc? then AfterFmalloc(s, c.size) else AfterFfree(s, c.ptr) }

  function Run(s: State, cs: seq<Call>): State {
    if |cs| == 0 then s else After(Run(s, cs[..|cs| - 1]), cs[|cs| - 1])
  }

  /** Memory never runs out in the run, and only live blocks are given back. */
  predicate AllowedRun(s: State, cs: seq<Call>) {
    |cs| > 0 ==> AllowedRun(s, cs[..|cs| - 1]) && Allowed(Run(s, cs[..|cs| - 1]), cs[|cs| - 1])
  }

  lemma {:induction false} RunKeepsInv(s: State, cs: seq<Call>)
    requires Inv(s) && AllowedRun(s, cs)
    ensures Inv(Run(s, cs))
    decreases |cs|
  {
    hide Inv;
    hide Fmalloc;
    hide AfterFmalloc;
    hide AfterFfree;
    if |cs| > 0 {
      RunKeepsInv(s, cs[..|cs| - 1]);
      var before, c := Run(s, cs[..|cs| - 1]), cs[|cs| - 1];
      if c.Malloc? {
        FmallocGrants(before, c.size);
      } else {
        FfreeKeepsInv(before, c.ptr);
      }
    }
  }

  /** After any such run the chunks ever carved are the live and the free ones, aligned, and no two of them overlap. */
  lemma RunIsSound(s: State, cs: seq<Call>, a: int, b: int)
    requires Inv(s) && AllowedRun(s, cs)
    ensures var now := Run(s, cs);
      && (a in Addresses(now.carved) <==> a in now.free || a in now.live)
      && (a in now.free || a in now.live ==>
            && a in now.sizes && a % 8 == 0 && s.base <= a && a + TotalSize(now.sizes[a]) <= s.limit
            && !(a in now.free && a in now.live)
            && (b != a && (b in now.free || b in now.live) ==>
                  b in now.sizes && (a + TotalSize(now.sizes[a]) <= b || b + TotalSize(now.sizes[b]) <= a)))
  {
    RunKeepsInv(s, cs);
    RunStays(s, cs);
    var now := Run(s, cs);
    hide Run;
    hide AllowedRun;
    hide Addresses;
    hide TotalSize;
    if a in now.free || a in now.live {
      ChunksApart(now, a, if b in now.free || b in now.live then b else a);
    }
  }

  lemma {:induction false} RunStays(s: State, cs: seq<Call>)
    ensures Run(s, cs).base == s.base && Run(s, cs).limit == s.limit
    decreases |cs|
  {
    if |cs| > 0 {
      RunStays(s, cs[..|cs| - 1]);
    }
  }

  // ---------------------------------------------------------------- the operations

  class FreeList {
    var size: nat
    var items: array<int>

    ghost predicate Valid()
      reads this, items
    {
      0 < items.Length && size <= items.Length
    }

    ghost function Contents(): seq<int>
      requires Valid()
      reads this, items
    {
      items[..size]
    }

    constructor (c: nat)
      requires c > 0
      ensures Valid() && fresh(items) && Contents() == []
    {
      size := 0;
      items := new int[c];
    }

    /** Doubles the capacity until it is at least c, and copies the items. */
    method EnsureCapacity(c: nat)
      requires Valid()
      modifies this
      ensures Valid() && Contents() == old(Contents()) && size == old(size)
      ensures c <= items.Length && (items == old(items) || fresh(items))
    {
      if items.Length < c {
        var c2 := items.Length;
        while c2 < c
          invariant 0 < items.Length <= c2
        {
          c2 := c2 * 2;
        }
        var items2 := new int[c2];
        for i := 0 to items.Length
          invariant unchanged(this) && items2[..i] == items[..i]
        {
          items2[i] := items[i];
        }
        items := items2;
      }
    }

    method DeleteIndex(xi: nat)
      requires Valid() && xi < size
      modifies `size, items
      ensures Valid() && Contents() == Deleted(old(Contents()), xi)
    {
      var yi := size - 1;
      var x, y := items[xi], items[yi];
      if xi != yi {
        items[xi] := y;
        items[yi] := x;
      }
      size := size - 1;
    }

    method AddItem(item: int)
      requires Valid()
      modifies this, items
      ensures Valid() && Contents() == old(Contents()) + [item]
      ensures items == old(items) || fresh(items)
    {
      var i := size;
      EnsureCapacity(i + 1);
      items[i] := item;
      size := size + 1;
    }
  }

  class Allocator {
    const base: int
    var memTop: int
    const memLimit: int
    /** The size field of the chunk at each address. */
    var sizes: map<int, nat>
    const memChunks: FreeList
    ghost var carved: seq<Chunk>
    ghost var live: set<int>

    ghost predicate Valid()
      reads this, memChunks, memChunks.items
    {
      memChunks.Valid() && Inv(Now())
    }

    ghost function Now(): State
      requires memChunks.Valid()
      reads this, memChunks, memChunks.items
    {
      State(base, memTop, memLimit, sizes, carved, memChunks.Contents(), live)
    }

    /** init_fmalloc, with the region that it maps. */
    constructor (start: int, size: nat)
      requires start % 8 == 0
      ensures Valid() && Now() == State(start, start, start + size, map[], [], [], {})
      ensures fresh(memChunks) && fresh(memChunks.items)
    {
      base, memTop, memLimit := start, start, start + size;
      sizes, carved, live := map[], [], {};
      memChunks := new FreeList(8);
    }

    /** Nothing is returned when the source exits; the top has moved all the same. */
    method AllocChunk(size: nat) returns (chunk: Option<int>)
      requires Valid() && Best(sizes, memChunks.Contents(), size, |memChunks.Contents()|).None?
      modifies this
      ensures memChunks.Valid() && Now() == AfterFmalloc(old(Now()), size)
      ensures chunk == if old(memTop) + TotalSize(size) > memLimit then None else Some(old(memTop))
    {
      var totalSize := TotalSize(size);
      var c := memTop;
      memTop := memTop + totalSize;
      if memTop > memLimit { return None; }
      sizes := sizes[c := size];
      carved := carved + [Chunk(c, size)];
      live := live + {c};
      chunk := Some(c);
    }

    method FindChunk(size: nat) returns (chunk: Option<int>)
      requires Valid()
      modifies this, memChunks, memChunks.items
      ensures Valid() && memChunks.items == old(memChunks.items)
      ensures var best := Best(old(sizes), old(memChunks.Contents()), size, |old(memChunks.Contents())|);
        && chunk == (if best.None? then None else Some(old(memChunks.Contents())[best.value]))
        && Now() == if best.None? then old(Now()) else AfterFmalloc(old(Now()), size)
    {
      ghost var free := memChunks.Contents();
      var best: Option<int> := None;
      var besti := 0;
      for i := 0 to memChunks.size
        invariant unchanged(this) && unchanged(memChunks) && unchanged(memChunks.items)
        invariant best.None? <==> Best(sizes, free, size, i).None?
        invariant best.Some? ==> Best(sizes, free, size, i) == Some(besti) && best.value == free[besti]
      {
        var c := memChunks.items[i];
        FreeHasSize(Now(), i);
        var isBest := false;
        if sizes[c] >= size {
          isBest := if best.Some? then sizes[c] < sizes[best.value] else true;
        }
        if isBest {
          best := Some(c);
          besti := i;
        }
      }
      if best.Some? {
        ReuseGrants(Now(), size);
        memChunks.DeleteIndex(besti);
        live := live + {best.value};
      }
      chunk := best;
    }

    /** The address of the block, or nothing when the source exits. */
    method Malloc(size: nat) returns (ptr: Option<int>)
      requires Valid()
      modifies this, memChunks, memChunks.items
      ensures memChunks.Valid() && memChunks.items == old(memChunks.items)
      ensures ptr == Fmalloc(old(Now()), size) && Now() == AfterFmalloc(old(Now()), size)
      ensures ptr.Some? ==> Valid()
    {
      hide Inv;
      hide Best;
      hide TotalSize;
      hide Addresses;
      ghost var before := Now();
      var c := FindChunk(size);
      if c.None? {
        c := AllocChunk(size);
      }
      if c.None? { return None; }
      FmallocGrants(before, size);
      ptr := Some(c.value + HEADER);
    }

    method Free(ptr: int)
      requires Valid() && ptr - HEADER in live
      modifies this, memChunks, memChunks.items
      ensures Valid() && Now() == AfterFfree(old(Now()), ptr)
      ensures memChunks.items == old(memChunks.items) || fresh(memChunks.items)
    {
      FfreeKeepsInv(Now(), ptr);
      memChunks.AddItem(ptr - HEADER);
      live := live - {ptr - HEADER};
    }
  }

  lemma FreeHasSize(s: State, i: nat)
    requires Inv(s) && i < |s.free|
    ensures s.free[i] in s.sizes
  {
    assert s.free[i] in s.free;
    var k := HasAddress(s.carved, s.free[i]);
    assert s.carved[k] in s.carved;
  }
}
