/** The string table that lets strings share suffixes, libs/asmjit/tools/tablegen.js. */
module IndexedStrings {
  import opened Options

  predicate IsSuffix(s: string, k: string) { |s| <= |k| && k[|k| - |s|..] == s }

  predicate Distinct(keys: seq<string>) { forall i, j :: 0 <= i < j < |keys| ==> keys[i] != keys[j] }

  // ---------------------------------------------------------------- representatives

  /** partialMap after the keys: the first of the longest keys that end in s; the empty string only for itself. */
  function Representative(keys: seq<string>, s: string): Option<string> {
    if |keys| == 0 then None
    else
      var before, k := Representative(keys[..|keys| - 1], s), keys[|keys| - 1];
      if k == "" then if s == "" then Some("") else before
      else if s != "" && IsSuffix(s, k) && (before.None? || |before.value| < |k|) then Some(k)
      else before
  }

  lemma {:induction false} RepresentativeIsLongest(keys: seq<string>, s: string)
    ensures s == "" ==> Representative(keys, s) == if "" in keys then Some("") else None
    ensures s != "" && Representative(keys, s).None? ==> forall k :: k in keys ==> !IsSuffix(s, k)
    ensures s != "" && Representative(keys, s).Some? ==>
      var r := Representative(keys, s).value;
      r in keys && IsSuffix(s, r) && forall k :: k in keys && IsSuffix(s, k) ==> |k| <= |r|
  {
    if |keys| > 0 {
      RepresentativeIsLongest(keys[..|keys| - 1], s);
      assert keys == keys[..|keys| - 1] + [keys[|keys| - 1]];
    }
  }

  lemma SuffixOfSuffix(a: string, b: string, c: string)
    requires IsSuffix(a, b) && IsSuffix(b, c)
    ensures IsSuffix(a, c)
  {
    assert c[|c| - |a|..] == c[|c| - |b|..][|b| - |a|..];
  }

  /** A key's representative ends in the key and represents itself. */
  lemma RepresentativeOfKey(keys: seq<string>, k: string)
    requires k in keys
    ensures Representative(keys, k).Some?
    ensures var r := Representative(keys, k).value;
      r in keys && IsSuffix(k, r) && Representative(keys, r) == Some(r)
  {
    RepresentativeIsLongest(keys, k);
    if k != "" {
      assert IsSuffix(k, k);
      var r := Representative(keys, k).value;
      RepresentativeIsLongest(keys, r);
      assert IsSuffix(r, r);
      var q := Representative(keys, r).value;
      SuffixOfSuffix(k, r, q);
      assert |q| == |r| && q[0..] == q;
    }
  }

  /** No other key ends in the key; nothing is said of the empty key, which every key ends in. */
  predicate Unended(keys: seq<string>, k: string) { k == "" || forall j :: j in keys && IsSuffix(k, j) ==> j == k }

  /** The keys that represent themselves are the empty one and those that no other key ends in. */
  lemma KeepsUnendedKeys(keys: seq<string>, k: string)
    requires k in keys
    ensures Representative(keys, k) == Some(k) <==> Unended(keys, k)
  {
    RepresentativeIsLongest(keys, k);
    assert IsSuffix(k, k);
    if k != "" {
      var r := Representative(keys, k).value;
      forall j | r == k && j in keys && IsSuffix(k, j)
        ensures j == k
      {
        assert |j| == |k| && j[0..] == j;
      }
    }
  }

  // ---------------------------------------------------------------- the data

  /** The generated characters: each string followed by a NUL. */
  function Data(stored: seq<string>): string {
    if |stored| == 0 then "" else Data(stored[..|stored| - 1]) + stored[|stored| - 1] + ['\0']
  }

  /** The string is at the offset, and a NUL follows it. */
  predicate FoundAt(data: string, offset: int, s: string) {
    0 <= offset && offset + |s| < |data| && data[offset..offset + |s|] == s && data[offset + |s|] == '\0'
  }

  lemma {:induction false} DataHolds(stored: seq<string>, i: nat)
    requires i < |stored|
    ensures FoundAt(Data(stored), |Data(stored[..i])|, stored[i])
  {
    var last := |stored| - 1;
    if i < last {
      assert stored[..last][..i] == stored[..i];
      DataHolds(stored[..last], i);
      var o := |Data(stored[..i])|;
      assert Data(stored)[..|Data(stored[..last])|] == Data(stored[..last]);
      assert Data(stored)[o..o + |stored[i]|] == Data(stored[..last])[o..o + |stored[i]|];
    }
  }

  lemma SuffixFound(data: string, offset: int, k: string, s: string)
    requires FoundAt(data, offset, k) && IsSuffix(s, k)
    ensures FoundAt(data, offset + |k| - |s|, s)
  {
    assert data[offset + |k| - |s|..offset + |k|] == data[offset..offset + |k|][|k| - |s|..];
  }

  /** What C reads at an offset: the characters up to the next NUL. */
  function CString(data: string, offset: nat): (s: string)
    requires offset <= |data|
    decreases |data| - offset
  {
    if offset == |data| || data[offset] == '\0' then "" else [data[offset]] + CString(data, offset + 1)
  }

  /** C reads the string back exactly when it has no NUL of its own. */
  lemma {:induction false} ReadsBack(data: string, offset: int, s: string)
    requires FoundAt(data, offset, s)
    ensures CString(data, offset) == s <==> '\0' !in s
    decreases |s|
  {
    if |s| > 0 {
      assert data[offset..offset + |s|] == [data[offset]] + data[offset + 1..offset + |s|];
      assert s == [s[0]] + s[1..];
      assert data[offset] == s[0];
      assert data[offset + 1..offset + 1 + |s[1..]|] == s[1..];
      ReadsBack(data, offset + 1, s[1..]);
    }
  }

  // ---------------------------------------------------------------- sorting

  /** The order of code units, the default order of Array.prototype.sort. */
  predicate AtMost(a: string, b: string) {
    |a| == 0 || (|b| > 0 && (a[0] < b[0] || (a[0] == b[0] && AtMost(a[1..], b[1..]))))
  }

  lemma {:induction false} Total(a: string, b: string)
    ensures AtMost(a, b) || AtMost(b, a)
  {
    if |a| > 0 && |b| > 0 {
      Total(a[1..], b[1..]);
    }
  }

  lemma {:induction false} Transitive(a: string, b: string, c: string)
    requires AtMost(a, b) && AtMost(b, c)
    ensures AtMost(a, c)
  {
    if |a| > 0 && a[0] == b[0] && b[0] == c[0] {
      Transitive(a[1..], b[1..], c[1..]);
    }
  }

  predicate Sorted(a: seq<string>) { forall i, j :: 0 <= i < j < |a| ==> AtMost(a[i], a[j]) }

  method Insert(a: seq<string>, k: string) returns (r: seq<string>)
    requires Sorted(a)
    ensures Sorted(r) && multiset(r) == multiset(a) + multiset{k}
  {
    hide AtMost;
    var i := |a|;
    while i > 0 && !AtMost(a[i - 1], k)
      invariant 0 <= i <= |a|
      invariant forall j :: i <= j < |a| ==> AtMost(k, a[j])
    {
      Total(a[i - 1], k);
      i := i - 1;
    }
    forall j | 0 <= j < i
      ensures AtMost(a[j], k)
    {
      if j < i - 1 { Transitive(a[j], a[i - 1], k); }
    }
    r := a[..i] + [k] + a[i..];
    InsertedIsSorted(a, k, i);
    assert a == a[..i] + a[i..];
  }

  lemma InsertedIsSorted(a: seq<string>, k: string, i: nat)
    requires Sorted(a) && i <= |a|
    requires (forall j :: 0 <= j < i ==> AtMost(a[j], k)) && (forall j :: i <= j < |a| ==> AtMost(k, a[j]))
    ensures Sorted(a[..i] + [k] + a[i..])
  {
    hide AtMost;
    var r := a[..i] + [k] + a[i..];
    forall x, y | 0 <= x < y < |r|
      ensures AtMost(r[x], r[y])
    {
      assert r[x] == if x < i then a[x] else if x == i then k else a[x - 1];
      assert r[y] == if y < i then a[y] else if y == i then k else a[y - 1];
    }
  }

  method Sort(a: seq<string>) returns (r: seq<string>)
    ensures Sorted(r) && multiset(r) == multiset(a)
  {
    r := [];
    for i := 0 to |a|
      invariant Sorted(r) && multiset(r) == multiset(a[..i])
    {
      assert a[..i + 1] == a[..i] + [a[i]];
      r := Insert(r, a[i]);
    }
    assert a[..|a|] == a;
  }

  // ---------------------------------------------------------------- the class

  ghost predicate IsPartialMap(m: map<string, string>, keys: seq<string>) {
    forall s :: (s in m <==> Representative(keys, s).Some?) && (s in m ==> m[s] == Representative(keys, s).value)
  }

  /** What partialMap holds for s when the suffixes of k that start before i have been entered. */
  function Entered(before: Option<string>, k: string, i: int, s: string): Option<string> {
    if s != "" && IsSuffix(s, k) && |k| - |s| < i && (before.None? || |before.value| < |k|) then Some(k) else before
  }

  predicate Holds(m: map<string, string>, s: string, entry: Option<string>) {
    (s in m <==> entry.Some?) && (s in m ==> m[s] == entry.value)
  }

  lemma EnterSuffix(m: map<string, string>, before: Option<string>, k: string, i: nat, s: string)
    requires i < |k| && Holds(m, s, Entered(before, k, i, s))
    ensures var n := if k[i..] !in m || |m[k[i..]]| < |k| then m[k[i..] := k] else m;
      Holds(n, s, Entered(before, k, i + 1, s))
  {
    if s != k[i..] {
      assert !(IsSuffix(s, k) && |k| - |s| == i);
    }
  }

  method EnterKey(m: map<string, string>, ghost keys: seq<string>, k: string) returns (n: map<string, string>)
    requires IsPartialMap(m, keys)
    ensures IsPartialMap(n, keys + [k])
  {
    n := m;
    assert (keys + [k])[..|keys|] == keys;
    if k == "" {
      n := n[k := k];
    } else {
      forall s
        ensures Holds(n, s, Entered(Representative(keys, s), k, 0, s))
      {
      }
      for i := 0 to |k|
        invariant forall s :: Holds(n, s, Entered(Representative(keys, s), k, i, s))
      {
        forall s
          ensures var next := if k[i..] !in n || |n[k[i..]]| < |k| then n[k[i..] := k] else n;
            Holds(next, s, Entered(Representative(keys, s), k, i + 1, s))
        {
          EnterSuffix(n, Representative(keys, s), k, i, s);
        }
        var kp := k[i..];
        if kp !in n || |n[kp]| < |k| { n := n[kp := k]; }
      }
      forall s
        ensures Representative(keys + [k], s) == Entered(Representative(keys, s), k, |k|, s)
      {
      }
    }
  }

  /** The offset of each string in the data, and the length of the data. */
  method Layout(stored: seq<string>) returns (offMap: map<string, int>, offset: int)
    ensures offset == |Data(stored)| && forall k :: k in stored ==> k in offMap && FoundAt(Data(stored), offMap[k], k)
  {
    hide FoundAt;
    offMap, offset := map[], 0;
    for i := 0 to |stored|
      invariant offset == |Data(stored[..i])|
      invariant forall j :: 0 <= j < i ==> stored[j] in offMap && FoundAt(Data(stored), offMap[stored[j]], stored[j])
    {
      DataHolds(stored, i);
      assert stored[..i + 1][..i] == stored[..i];
      offMap := offMap[stored[i] := offset];
      offset := offset + |stored[i]| + 1;
    }
    assert stored[..|stored|] == stored;
  }

  /** Each key has a representative that ends in it and represents itself; which keys do is known. */
  ghost predicate Represents(partialMap: map<string, string>, keys: seq<string>) {
    forall k :: k in keys ==> RepresentsKey(partialMap, keys, k)
  }

  ghost predicate RepresentsKey(partialMap: map<string, string>, keys: seq<string>, k: string) {
    && k in partialMap && partialMap[k] in keys && IsSuffix(k, partialMap[k])
    && partialMap[k] in partialMap && partialMap[partialMap[k]] == partialMap[k]
    && (partialMap[k] == k <==> Unended(keys, k))
  }

  lemma PartialRepresents(partialMap: map<string, string>, keys: seq<string>)
    requires IsPartialMap(partialMap, keys)
    ensures Represents(partialMap, keys)
  {
    hide Representative;
    hide Unended;
    hide IsSuffix;
    forall k | k in keys
      ensures RepresentsKey(partialMap, keys, k)
    {
      RepresentativeOfKey(keys, k);
      KeepsUnendedKeys(keys, k);
    }
  }

  /** Those of some keys that no other key of all ends in. */
  function Kept(all: seq<string>, keys: seq<string>): seq<string> {
    if |keys| == 0 then []
    else
      var last := keys[|keys| - 1];
      Kept(all, keys[..|keys| - 1]) + if Unended(all, last) then [last] else []
  }

  lemma {:induction false} KeptAreUnended(all: seq<string>, keys: seq<string>)
    ensures forall k :: k in Kept(all, keys) <==> k in keys && Unended(all, k)
    ensures Distinct(keys) ==> Distinct(Kept(all, keys))
  {
    hide Unended;
    if |keys| > 0 {
      var init := keys[..|keys| - 1];
      KeptAreUnended(all, init);
      assert keys == init + [keys[|keys| - 1]];
      if Distinct(keys) {
        assert keys[|keys| - 1] !in init && Distinct(init);
      }
    }
  }

  lemma {:induction false} DistinctCounts(a: seq<string>)
    ensures Distinct(a) <==> forall s :: multiset(a)[s] <= 1
  {
    if |a| > 0 {
      var init, last := a[..|a| - 1], a[|a| - 1];
      DistinctCounts(init);
      assert a == init + [last];
      assert last in init <==> multiset(init)[last] > 0;
      if Distinct(init) && last !in init {
        assert forall s :: s != last ==> multiset(a)[s] == multiset(init)[s];
      } else if last in init {
        var i :| 0 <= i < |init| && init[i] == last;
        assert a[i] == a[|init|];
        assert multiset(a)[last] > 1;
      } else {
        var s :| multiset(init)[s] > 1;
        assert multiset(a)[s] > 1;
        var i, j :| 0 <= i < j < |init| && init[i] == init[j];
        assert a[i] == a[j];
      }
    }
  }

  class IndexedString {
    /** The keys of the source's map in their iteration order. */
    var keys: seq<string>
    var offsets: map<string, int>
    var stored: seq<string>
    var size: int

    ghost predicate Valid()
      reads this
    {
      Distinct(keys) && forall k :: k in keys <==> k in offsets
    }

    constructor ()
      ensures Valid() && keys == [] && stored == []
    {
      keys, offsets, stored, size := [], map[], [], -1;
    }

    method Add(s: string)
      requires Valid()
      modifies this
      ensures Valid() && keys == (if s in old(keys) then old(keys) else old(keys) + [s])
      ensures stored == old(stored) && size == old(size)
    {
      if s !in keys { keys := keys + [s]; }
      offsets := offsets[s := -1];
    }

    method Needed(partialMap: map<string, string>) returns (needed: seq<string>)
      requires Represents(partialMap, keys)
      ensures needed == Kept(keys, keys)
    {
      hide IsSuffix;
      hide Unended;
      needed := [];
      for i := 0 to |keys|
        invariant needed == Kept(keys, keys[..i])
      {
        assert keys[..i + 1][..i] == keys[..i];
        assert RepresentsKey(partialMap, keys, keys[i]);
        if partialMap[keys[i]] == keys[i] { needed := needed + [keys[i]]; }
      }
      assert keys[..|keys|] == keys;
    }

    method Partial() returns (partialMap: map<string, string>)
      ensures IsPartialMap(partialMap, keys)
    {
      partialMap := map[];
      for i := 0 to |keys|
        invariant IsPartialMap(partialMap, keys[..i])
      {
        assert keys[..i + 1] == keys[..i] + [keys[i]];
        partialMap := EnterKey(partialMap, keys[..i], keys[i]);
      }
      assert keys[..|keys|] == keys;
    }

    method Assign(partialMap: map<string, string>, offMap: map<string, int>, ghost data: string)
      requires Valid() && Represents(partialMap, keys)
      requires forall k :: k in keys && Unended(keys, k) ==> k in offMap && FoundAt(data, offMap[k], k)
      modifies `offsets
      ensures Valid() && forall k :: k in keys ==> FoundAt(data, offsets[k], k)
    {
      hide FoundAt;
      hide IsSuffix;
      hide Unended;
      hide Distinct;
      for i := 0 to |keys|
        invariant Valid() && forall j :: 0 <= j < i ==> FoundAt(data, offsets[keys[j]], keys[j])
      {
        var kp := keys[i];
        assert RepresentsKey(partialMap, keys, kp);
        var k := partialMap[kp];
        assert RepresentsKey(partialMap, keys, k);
        SuffixFound(data, offMap[k], k, kp);
        offsets := offsets[kp := offMap[k] + |k| - |kp|];
      }
    }

    /** Whatever an earlier call stored, the kept keys come to it, and every key is found at its offset. */
    method Index()
      requires Valid()
      modifies this
      ensures Valid() && keys == old(keys)
      ensures Sorted(stored) && multiset(stored) == multiset(old(stored)) + multiset(Kept(keys, keys))
      ensures size == |Data(stored)| && forall k :: k in keys ==> FoundAt(Data(stored), offsets[k], k)
    {
      hide FoundAt;
      hide Sorted;
      hide Unended;
      hide Represents;
      hide Kept;
      var partialMap := Partial();
      PartialRepresents(partialMap, keys);
      var needed := Needed(partialMap);
      KeptAreUnended(keys, keys);
      stored := Sort(stored + needed);
      var offMap;
      offMap, size := Layout(stored);
      assert forall k :: k in needed ==> k in multiset(stored);
      Assign(partialMap, offMap, Data(stored));
    }
  }

  /** A table that was indexed once stores each of the keys that no other ends in once, and nothing else. */
  lemma IndexedOnce(keys: seq<string>, stored: seq<string>)
    requires Distinct(keys) && multiset(stored) == multiset(Kept(keys, keys))
    ensures Distinct(stored) && forall k :: k in stored <==> k in keys && Unended(keys, k)
  {
    hide Unended;
    KeptAreUnended(keys, keys);
    DistinctCounts(Kept(keys, keys));
    DistinctCounts(stored);
    assert forall k :: k in stored <==> k in multiset(stored);
  }

  /** After Index, no stored string is a suffix of another exactly when the empty string was not added beside others. */
  lemma StoredShareNoSuffix(keys: seq<string>, stored: seq<string>)
    requires forall k :: k in stored <==> k in keys && Unended(keys, k)
    ensures (forall a, b :: a in stored && b in stored && IsSuffix(a, b) ==> a == b)
       <==> "" !in keys || forall k :: k in keys ==> k == ""
  {
    if "" in keys {
      forall k | k in keys && k != ""
        ensures exists a, b :: a in stored && b in stored && IsSuffix(a, b) && a != b
      {
        RepresentativeOfKey(keys, k);
        var r := Representative(keys, k).value;
        KeepsUnendedKeys(keys, r);
        assert "" in stored && r in stored && IsSuffix("", r);
      }
    }
  }

  /** With the empty string added beside another, the table stores both, although the other ends in it. */
  lemma EmptyStringIsStored(stored: seq<string>)
    requires forall k :: k in stored <==> k in ["", "mov"] && Unended(["", "mov"], k)
    ensures "" in stored && "mov" in stored && IsSuffix("", "mov")
  {
    assert "" in ["", "mov"] && "mov" in ["", "mov"];
  }
}
