/** How compiler/dag-encoder.stanza lays a dispatch dag out as the array of ints that the interpreter walks. */
module DagEncoder {
  import opened Options
  import opened Dispatch
  import opened PerfectHash

  // ---------------------------------------------------------------- dags

  /** A solution with its id, or the dag entry to go on with. */
  datatype Target = Soln(id: nat) | Next(index: nat)

  datatype DagBranch = DagBranch(nums: seq<int>, target: Target)
  datatype DagEntry = DagEntry(depth: nat, branches: seq<DagBranch>, fallback: Target)
  type Dag = seq<DagEntry>

  predicate LeadsDeeper(dag: Dag, depth: nat, target: Target) {
    target.Next? ==> target.index < |dag| && dag[target.index].depth > depth
  }

  /** Dispatch begins at the first entry, and every step goes to an entry for a later argument. */
  predicate WellFormed(dag: Dag, maxDepth: nat) {
    && |dag| > 0
    && forall j :: 0 <= j < |dag| ==>
         && dag[j].depth <= maxDepth && LeadsDeeper(dag, dag[j].depth, dag[j].fallback)
         && forall b :: b in dag[j].branches ==> LeadsDeeper(dag, dag[j].depth, b.target)
  }

  /** The first branch for the type, or the fallback. */
  function Pick(branches: seq<DagBranch>, fallback: Target, type_id: int): (target: Target)
    ensures target == fallback || exists b :: b in branches && b.target == target
  {
    if |branches| == 0 then fallback
    else if type_id in branches[0].nums then branches[0].target
    else Pick(branches[1..], fallback, type_id)
  }

  /** The id of the solution that the dag dispatches to. */
  function EvalDag(dag: Dag, maxDepth: nat, j: nat, types: int -> int): nat
    requires WellFormed(dag, maxDepth) && j < |dag|
    decreases maxDepth - dag[j].depth
  {
    var target := Pick(dag[j].branches, dag[j].fallback, types(dag[j].depth));
    match target
    case Soln(id) => id
    case Next(i) => assert LeadsDeeper(dag, dag[j].depth, target); EvalDag(dag, maxDepth, i, types)
  }

  // ---------------------------------------------------------------- the words of one table

  /** A word of the encoding; the address of a table is filled in when all are laid out. */
  datatype Item = Word(x: int) | TrieId(id: nat)

  function ToItem(target: Target): Item {
    match target case Soln(id) => Word(-(id + 1)) case Next(i) => TrieId(i)
  }

  function SpreadNums(nums: seq<int>, item: Item): seq<Entry<Item>> {
    if |nums| == 0 then [] else [Entry(nums[0], item)] + SpreadNums(nums[1..], item)
  }

  /** One entry for each type of each branch. */
  function Spread(branches: seq<DagBranch>): seq<Entry<Item>> {
    if |branches| == 0 then []
    else SpreadNums(branches[0].nums, ToItem(branches[0].target)) + Spread(branches[1..])
  }

  /** The value of the first entry with the key, or the default. */
  function Choice(entries: seq<Entry<Item>>, key: int, default: Item): Item {
    if |entries| == 0 then default
    else if entries[0].key == key then entries[0].value
    else Choice(entries[1..], key, default)
  }

  lemma {:induction false} ChoiceOfNums(nums: seq<int>, item: Item, rest: seq<Entry<Item>>, key: int, default: Item)
    ensures Choice(SpreadNums(nums, item) + rest, key, default)
         == if key in nums then item else Choice(rest, key, default)
  {
    if |nums| == 0 {
      assert SpreadNums(nums, item) + rest == rest;
    } else {
      ChoiceOfNums(nums[1..], item, rest, key, default);
      assert (SpreadNums(nums, item) + rest)[1..] == SpreadNums(nums[1..], item) + rest;
    }
  }

  /** Spreading keeps what each type leads to. */
  lemma {:induction false} SpreadPicks(branches: seq<DagBranch>, fallback: Target, key: int)
    ensures Choice(Spread(branches), key, ToItem(fallback)) == ToItem(Pick(branches, fallback, key))
  {
    if |branches| > 0 {
      SpreadPicks(branches[1..], fallback, key);
      ChoiceOfNums(branches[0].nums, ToItem(branches[0].target), Spread(branches[1..]), key, ToItem(fallback));
    }
  }

  lemma {:induction false} ChoiceFinds(entries: seq<Entry<Item>>, key: int, default: Item, e: Entry<Item>)
    requires DistinctKeys(entries) && e in entries && e.key == key
    ensures Choice(entries, key, default) == e.value
  {
    if entries[0].key != key {
      assert entries == [entries[0]] + entries[1..];
      ChoiceFinds(entries[1..], key, default, e);
    } else {
      var k :| 0 <= k < |entries| && entries[k] == e;
    }
  }

  lemma {:induction false} ChoiceMisses(entries: seq<Entry<Item>>, key: int, default: Item)
    requires forall e :: e in entries ==> e.key != key
    ensures Choice(entries, key, default) == default
  {
    if |entries| > 0 {
      assert entries[0] in entries;
      ChoiceMisses(entries[1..], key, default);
    }
  }

  /** With distinct keys only the set of entries matters. */
  lemma ChoiceOfSet(a: seq<Entry<Item>>, b: seq<Entry<Item>>, key: int, default: Item)
    requires DistinctKeys(a) && DistinctKeys(b) && forall e :: e in a <==> e in b
    ensures Choice(a, key, default) == Choice(b, key, default)
  {
    if e :| e in a && e.key == key {
      ChoiceFinds(a, key, default, e);
      ChoiceFinds(b, key, default, e);
    } else {
      ChoiceMisses(a, key, default);
      ChoiceMisses(b, key, default);
    }
  }

  function KeyValues(entries: seq<Entry<Item>>): (items: seq<Item>)
    ensures |items| == 2 * |entries|
  {
    if |entries| == 0 then []
    else KeyValues(entries[..|entries| - 1]) + [Word(entries[|entries| - 1].key), entries[|entries| - 1].value]
  }

  lemma {:induction false} KeyValuesAt(entries: seq<Entry<Item>>, i: nat)
    requires i < |entries|
    ensures KeyValues(entries)[2 * i] == Word(entries[i].key) && KeyValues(entries)[2 * i + 1] == entries[i].value
  {
    if i < |entries| - 1 {
      KeyValuesAt(entries[..|entries| - 1], i);
    }
  }

  function Words(xs: seq<int>): (items: seq<Item>)
    ensures |items| == |xs| && forall i :: 0 <= i < |xs| ==> items[i] == Word(xs[i])
  {
    seq(|xs|, i requires 0 <= i < |xs| => Word(xs[i]))
  }

  /** The entries of a dag entry in the order in which they are laid out. */
  function Laid(entry: DagEntry, table: Table<Item>): seq<Entry<Item>> {
    if |Spread(entry.branches)| <= 4 then Spread(entry.branches) else table.entries
  }

  /** The encoding of a dag entry, with its hash table when it has more than four keys. */
  function ItemsOf(entry: DagEntry, table: Table<Item>): seq<Item> {
    HeadOf(entry, table) + KeyValues(Laid(entry, table)) + [ToItem(entry.fallback)]
  }

  function HeadOf(entry: DagEntry, table: Table<Item>): seq<Item> {
    var n := |Spread(entry.branches)|;
    [Word(entry.depth), Word(n)] + if n <= 4 then [] else [Word(table.d0)] + Words(table.dtable)
  }

  ghost predicate Suits(entry: DagEntry, table: Table<Item>) {
    |Spread(entry.branches)| > 4 ==>
      DistinctKeys(Spread(entry.branches)) && IsPerfect(Spread(entry.branches), table)
  }

  // ---------------------------------------------------------------- filling in

  predicate Resolvable(items: seq<Item>, addresses: seq<nat>) {
    forall k :: 0 <= k < |items| && items[k].TrieId? ==> items[k].id < |addresses|
  }

  function Resolve(item: Item, addresses: seq<nat>): int
    requires item.TrieId? ==> item.id < |addresses|
  {
    match item case Word(x) => x case TrieId(i) => addresses[i]
  }

  function Fill(items: seq<Item>, addresses: seq<nat>): (t: seq<int>)
    requires Resolvable(items, addresses)
    ensures |t| == |items| && forall k :: 0 <= k < |items| ==> t[k] == Resolve(items[k], addresses)
  {
    seq(|items|, k requires 0 <= k < |items| => Resolve(items[k], addresses))
  }

  predicate LaidAt(items: seq<Item>, o: nat, entry: DagEntry, table: Table<Item>) {
    o + |ItemsOf(entry, table)| <= |items| && items[o..o + |ItemsOf(entry, table)|] == ItemsOf(entry, table)
  }

  lemma LaidSize(entry: DagEntry, table: Table<Item>)
    requires Suits(entry, table)
    ensures var n := |Spread(entry.branches)|;
      && |Laid(entry, table)| == n && |HeadOf(entry, table)| == EntriesAt(0, n)
      && |ItemsOf(entry, table)| == EntriesAt(0, n) + 2 * n + 1
  {
    hide Spread;
    hide KeyValues;
  }

  /** Where the words of an encoded entry are. */
  lemma ItemsAt(entry: DagEntry, table: Table<Item>)
    requires Suits(entry, table)
    ensures var n, items := |Spread(entry.branches)|, ItemsOf(entry, table);
      && |Laid(entry, table)| == n && |items| == EntriesAt(0, n) + 2 * n + 1
      && items[0] == Word(entry.depth) && items[1] == Word(n)
      && (n > 4 ==> |table.dtable| == n && items[2] == Word(table.d0)
                    && forall j :: 0 <= j < n ==> items[3 + j] == Word(table.dtable[j]))
      && items[EntriesAt(0, n) + 2 * n] == ToItem(entry.fallback)
  {
    hide Spread;
    hide KeyValues;
    LaidSize(entry, table);
  }

  /** An entry's key and value, and what the encoding has before and after. */
  lemma PairAt(head: seq<Item>, es: seq<Entry<Item>>, default: Item, i: nat)
    requires i < |es|
    ensures var items := head + KeyValues(es) + [default];
      items[|head| + 2 * i] == Word(es[i].key) && items[|head| + 2 * i + 1] == es[i].value
  {
    KeyValuesAt(es, i);
    hide KeyValues;
  }

  lemma EntryAt(entry: DagEntry, table: Table<Item>, i: nat)
    requires Suits(entry, table) && i < |Laid(entry, table)|
    ensures var n, items, e := |Spread(entry.branches)|, ItemsOf(entry, table), Laid(entry, table)[i];
      && |Laid(entry, table)| == n && |items| == EntriesAt(0, n) + 2 * n + 1
      && items[EntriesAt(0, n) + 2 * i] == Word(e.key) && items[EntriesAt(0, n) + 2 * i + 1] == e.value
  {
    LaidSize(entry, table);
    PairAt(HeadOf(entry, table), Laid(entry, table), ToItem(entry.fallback), i);
    hide Suits;
    hide HeadOf;
    hide Laid;
    hide Spread;
    hide KeyValues;
    hide EntriesAt;
  }

  // ---------------------------------------------------------------- one table, filled in

  /** The head of the entry's table and its default. */
  ghost predicate HoldsHead(t: seq<int>, o: nat, entry: DagEntry, table: Table<Item>, addresses: seq<nat>) {
    var n := |Spread(entry.branches)|;
    && Suits(entry, table) && |Laid(entry, table)| == n && EntriesAt(o, n) + 2 * n + 1 <= |t|
    && t[o] == entry.depth && t[o + 1] == n
    && (n > 4 ==> t[o + 2] == table.d0 && forall j: nat :: j < n ==> Displacement(t, o, j) == table.dtable[j])
    && (entry.fallback.Next? ==> entry.fallback.index < |addresses|)
    && Default(t, EntriesAt(o, n), n) == Resolve(ToItem(entry.fallback), addresses)
  }

  ghost predicate HoldsEntry(t: seq<int>, e: nat, i: nat, entry: Entry<Item>, addresses: seq<nat>)
    requires e + 2 * i + 1 < |t|
  {
    && (entry.value.TrieId? ==> entry.value.id < |addresses|)
    && Key(t, e, i) == entry.key && Value(t, e, i) == Resolve(entry.value, addresses)
  }

  /** The filled array holds the entry's table at the offset. */
  ghost predicate Holds(t: seq<int>, o: nat, entry: DagEntry, table: Table<Item>, addresses: seq<nat>) {
    && HoldsHead(t, o, entry, table, addresses)
    && forall i: nat :: i < |Spread(entry.branches)| ==>
         HoldsEntry(t, EntriesAt(o, |Spread(entry.branches)|), i, Laid(entry, table)[i], addresses)
  }

  lemma FilledAt(items: seq<Item>, addresses: seq<nat>, o: nat, entry: DagEntry, table: Table<Item>, k: nat)
    requires Resolvable(items, addresses) && LaidAt(items, o, entry, table) && k < |ItemsOf(entry, table)|
    ensures var own, t := ItemsOf(entry, table), Fill(items, addresses);
      && o + k < |t| && (own[k].TrieId? ==> own[k].id < |addresses|)
      && t[o + k] == Resolve(own[k], addresses)
  {
    var own := ItemsOf(entry, table);
    hide ItemsOf;
    assert items[o + k] == own[k];
  }

  lemma FilledKey(items: seq<Item>, addresses: seq<nat>, o: nat, entry: DagEntry, table: Table<Item>, i: nat)
    requires Resolvable(items, addresses) && Suits(entry, table) && LaidAt(items, o, entry, table)
    requires i < |Laid(entry, table)|
    ensures var e := EntriesAt(o, |Spread(entry.branches)|);
      e + 2 * i < |items| && Key(Fill(items, addresses), e, i) == Laid(entry, table)[i].key
  {
    hide LaidAt;
    hide Spread;
    hide ItemsOf;
    hide Suits;
    hide Fill;
    hide Laid;
    hide Resolvable;
    EntryAt(entry, table, i);
    FilledAt(items, addresses, o, entry, table, EntriesAt(0, |Spread(entry.branches)|) + 2 * i);
  }

  lemma FilledValue(items: seq<Item>, addresses: seq<nat>, o: nat, entry: DagEntry, table: Table<Item>, i: nat)
    requires Resolvable(items, addresses) && Suits(entry, table) && LaidAt(items, o, entry, table)
    requires i < |Laid(entry, table)|
    ensures var e, value := EntriesAt(o, |Spread(entry.branches)|), Laid(entry, table)[i].value;
      && e + 2 * i + 1 < |items| && (value.TrieId? ==> value.id < |addresses|)
      && Value(Fill(items, addresses), e, i) == Resolve(value, addresses)
  {
    hide LaidAt;
    hide Spread;
    hide ItemsOf;
    hide Suits;
    hide Fill;
    hide Laid;
    hide Resolvable;
    hide Resolve;
    EntryAt(entry, table, i);
    FilledAt(items, addresses, o, entry, table, EntriesAt(0, |Spread(entry.branches)|) + 2 * i + 1);
  }

  lemma FilledDefault(items: seq<Item>, addresses: seq<nat>, o: nat, entry: DagEntry, table: Table<Item>)
    requires Resolvable(items, addresses) && Suits(entry, table) && LaidAt(items, o, entry, table)
    ensures var n, item := |Spread(entry.branches)|, ToItem(entry.fallback);
      && EntriesAt(o, n) + 2 * n < |items| && (item.TrieId? ==> item.id < |addresses|)
      && Default(Fill(items, addresses), EntriesAt(o, n), n) == Resolve(item, addresses)
  {
    hide LaidAt;
    hide Spread;
    hide ItemsOf;
    hide Suits;
    hide Fill;
    hide Laid;
    hide Resolvable;
    hide Resolve;
    ItemsAt(entry, table);
    FilledAt(items, addresses, o, entry, table,
             EntriesAt(0, |Spread(entry.branches)|) + 2 * |Spread(entry.branches)|);
  }

  lemma FilledDisplacement(items: seq<Item>, addresses: seq<nat>, o: nat, entry: DagEntry, table: Table<Item>, j: nat)
    requires Resolvable(items, addresses) && Suits(entry, table) && LaidAt(items, o, entry, table)
    requires |Spread(entry.branches)| > 4 && j < |Spread(entry.branches)|
    ensures |table.dtable| == |Spread(entry.branches)| && o + 3 + j < |items|
    ensures Displacement(Fill(items, addresses), o, j) == table.dtable[j]
  {
    hide LaidAt;
    hide Spread;
    hide ItemsOf;
    hide Suits;
    hide Fill;
    hide Laid;
    hide Resolvable;
    ItemsAt(entry, table);
    FilledAt(items, addresses, o, entry, table, 3 + j);
  }

  lemma FilledHoldsHead(items: seq<Item>, addresses: seq<nat>, o: nat, entry: DagEntry, table: Table<Item>)
    requires Resolvable(items, addresses) && Suits(entry, table) && LaidAt(items, o, entry, table)
    ensures HoldsHead(Fill(items, addresses), o, entry, table, addresses)
  {
    hide LaidAt;
    hide Spread;
    hide ItemsOf;
    hide IsPerfect;
    hide Fill;
    hide Laid;
    hide Resolvable;
    hide Displacement;
    hide Default;
    ItemsAt(entry, table);
    FilledAt(items, addresses, o, entry, table, 0);
    FilledAt(items, addresses, o, entry, table, 1);
    FilledDefault(items, addresses, o, entry, table);
    if |Spread(entry.branches)| > 4 {
      FilledAt(items, addresses, o, entry, table, 2);
      forall j: nat | j < |Spread(entry.branches)|
        ensures o + 3 + j < |items| && Displacement(Fill(items, addresses), o, j) == table.dtable[j]
      {
        FilledDisplacement(items, addresses, o, entry, table, j);
      }
    }
  }

  lemma FilledHolds(items: seq<Item>, addresses: seq<nat>, o: nat, entry: DagEntry, table: Table<Item>)
    requires Resolvable(items, addresses) && Suits(entry, table) && LaidAt(items, o, entry, table)
    ensures Holds(Fill(items, addresses), o, entry, table, addresses)
  {
    FilledHoldsHead(items, addresses, o, entry, table);
    forall i: nat | i < |Spread(entry.branches)|
      ensures HoldsEntry(Fill(items, addresses), EntriesAt(o, |Spread(entry.branches)|), i,
                         Laid(entry, table)[i], addresses)
    {
      FilledKey(items, addresses, o, entry, table, i);
      FilledValue(items, addresses, o, entry, table, i);
    }
  }

  lemma PerfectDistinct(entries: seq<Entry<Item>>, table: Table<Item>)
    requires IsPerfect(entries, table)
    ensures DistinctKeys(table.entries)
  {
    hide Home;
    hide PlaceOf;
  }

  lemma HoldsFits(t: seq<int>, o: nat, entry: DagEntry, table: Table<Item>, addresses: seq<nat>)
    requires Holds(t, o, entry, table, addresses)
    ensures Fits(t, o)
  {
    hide Home;
    hide PlaceOf;
    hide Spread;
    hide Resolve;
    hide Laid;
  }

  lemma SlotInTable(t: seq<int>, o: nat, d0: int, dtable: seq<int>, key: int, i: nat)
    requires Fits(t, o) && Count(t, o) > 4 && |dtable| == Count(t, o) && t[o + 2] == d0
    requires forall j: nat :: j < |dtable| ==> Displacement(t, o, j) == dtable[j]
    requires PlaceOf(dtable[Home(d0, key, |dtable|)], key, |dtable|) == At(i)
    ensures SlotOf(t, o, key) == At(i)
  {
    hide DHash;
  }

  /** The table of the interpreter: inside the array, and every entry where the hashes lead. */
  lemma HoldsIsPlaced(t: seq<int>, o: nat, entry: DagEntry, table: Table<Item>, addresses: seq<nat>)
    requires Holds(t, o, entry, table, addresses)
    ensures Fits(t, o) && WellPlaced(t, o)
  {
    HoldsFits(t, o, entry, table, addresses);
    hide Spread;
    hide Resolve;
    hide Home;
    hide PlaceOf;
    hide SlotOf;
    hide Fits;
    var n := |Spread(entry.branches)|;
    if n > 4 {
      forall i: nat | i < n
        ensures SlotOf(t, o, Key(t, EntriesAt(o, n), i)) == At(i)
      {
        assert Laid(entry, table)[i] == table.entries[i];
        SlotInTable(t, o, table.d0, table.dtable, table.entries[i].key, i);
      }
    }
  }

  /** A scan of the laid out entries finds what the first of them with the key holds. */
  lemma {:induction false} ScanIsChoice(t: seq<int>, o: nat, entry: DagEntry, table: Table<Item>, addresses: seq<nat>,
                                        key: int, i: nat)
    requires Holds(t, o, entry, table, addresses) && i <= |Laid(entry, table)|
    ensures var n, item := |Spread(entry.branches)|, Choice(Laid(entry, table)[i..], key, ToItem(entry.fallback));
      && (item.TrieId? ==> item.id < |addresses|)
      && Scan(t, EntriesAt(o, n), n, key, i) == Resolve(item, addresses)
    decreases |Laid(entry, table)| - i
  {
    hide Spread;
    hide Laid;
    hide IsPerfect;
    var es := Laid(entry, table);
    if i < |es| {
      ScanIsChoice(t, o, entry, table, addresses, key, i + 1);
      assert es[i..][0] == es[i] && es[i..][1..] == es[i + 1..];
    } else {
      assert es[i..] == [];
    }
  }

  /** So the interpreter's scan finds what the dag entry picks for the type. */
  lemma ScanIsPick(t: seq<int>, o: nat, entry: DagEntry, table: Table<Item>, addresses: seq<nat>, type_id: int)
    requires Holds(t, o, entry, table, addresses)
    ensures var n, target := |Spread(entry.branches)|, Pick(entry.branches, entry.fallback, type_id);
      && (target.Next? ==> target.index < |addresses|)
      && Scan(t, EntriesAt(o, n), n, type_id, 0) == Resolve(ToItem(target), addresses)
  {
    var es, spread := Laid(entry, table), Spread(entry.branches);
    ScanIsChoice(t, o, entry, table, addresses, type_id, 0);
    assert es[0..] == es;
    if |spread| > 4 {
      PerfectDistinct(spread, table);
      ChoiceOfSet(spread, es, type_id, ToItem(entry.fallback));
    }
    SpreadPicks(entry.branches, entry.fallback, type_id);
  }

  // ---------------------------------------------------------------- the whole array

  /** The array holds every entry of the dag at its address. */
  ghost predicate HoldsDag(t: seq<int>, dag: Dag, tables: seq<Table<Item>>, addresses: seq<nat>) {
    && |tables| == |addresses| == |dag|
    && forall j :: 0 <= j < |dag| ==> Holds(t, addresses[j], dag[j], tables[j], addresses)
  }

  /** What an entry's table refers to is a solution or a dag entry for a later argument. */
  lemma LaidLeads(dag: Dag, maxDepth: nat, j: nat, table: Table<Item>, item: Item)
    requires WellFormed(dag, maxDepth) && j < |dag| && Suits(dag[j], table)
    requires item == ToItem(dag[j].fallback) || exists e :: e in Laid(dag[j], table) && e.value == item
    ensures item.TrieId? ==> item.id < |dag| && dag[item.id].depth > dag[j].depth
    ensures item.Word? ==> item.x < 0
  {
    hide Spread;
    hide Home;
    hide PlaceOf;
    if e :| e in Laid(dag[j], table) && e.value == item {
      SpreadLeads(dag[j].branches, e, dag, dag[j].depth);
    } else {
      assert LeadsDeeper(dag, dag[j].depth, dag[j].fallback);
    }
  }

  lemma {:induction false} SpreadLeads(branches: seq<DagBranch>, e: Entry<Item>, dag: Dag, depth: nat)
    requires e in Spread(branches) && forall b :: b in branches ==> LeadsDeeper(dag, depth, b.target)
    ensures e.value.TrieId? ==> e.value.id < |dag| && dag[e.value.id].depth > depth
    ensures e.value.Word? ==> e.value.x < 0
  {
    if e in SpreadNums(branches[0].nums, ToItem(branches[0].target)) {
      NumsLead(branches[0].nums, ToItem(branches[0].target), e);
      assert branches[0] in branches;
    } else {
      SpreadLeads(branches[1..], e, dag, depth);
    }
  }

  lemma {:induction false} NumsLead(nums: seq<int>, item: Item, e: Entry<Item>)
    requires e in SpreadNums(nums, item)
    ensures e.value == item
  {
    if e != Entry(nums[0], item) {
      NumsLead(nums[1..], item, e);
    }
  }

  /** The array is a trie, as high as there are arguments left to look at. */
  lemma {:induction false} EncodedIsTrie(t: seq<int>, dag: Dag, maxDepth: nat, tables: seq<Table<Item>>,
                                         addresses: seq<nat>, j: nat, height: nat)
    requires HoldsDag(t, dag, tables, addresses) && WellFormed(dag, maxDepth) && j < |dag|
    requires height >= maxDepth - dag[j].depth
    ensures IsTrie(t, addresses[j], height)
    decreases height, 1
  {
    hide Spread;
    hide WellPlaced;
    hide Fits;
    hide WellFormed;
    hide LeadsDeeper;
    hide IsPerfect;
    hide Laid;
    var o, entry, table := addresses[j], dag[j], tables[j];
    assert Holds(t, o, entry, table, addresses);
    HoldsIsPlaced(t, o, entry, table, addresses);
    var n := |Spread(entry.branches)|;
    var e := EntriesAt(o, n);
    forall i: nat | i < n
      ensures Value(t, e, i) < 0 || (height > 0 && IsTrie(t, Value(t, e, i), height - 1))
    {
      assert HoldsEntry(t, e, i, Laid(entry, table)[i], addresses);
      TargetIsTrie(t, dag, maxDepth, tables, addresses, j, height, Laid(entry, table)[i].value);
    }
    TargetIsTrie(t, dag, maxDepth, tables, addresses, j, height, ToItem(entry.fallback));
  }

  lemma {:induction false} TargetIsTrie(t: seq<int>, dag: Dag, maxDepth: nat, tables: seq<Table<Item>>,
                                        addresses: seq<nat>, j: nat, height: nat, item: Item)
    requires HoldsDag(t, dag, tables, addresses) && WellFormed(dag, maxDepth) && j < |dag|
    requires height >= maxDepth - dag[j].depth
    requires item == ToItem(dag[j].fallback) || exists e :: e in Laid(dag[j], tables[j]) && e.value == item
    ensures item.TrieId? ==> item.id < |addresses|
    ensures var v := Resolve(item, addresses); v < 0 || (height > 0 && IsTrie(t, v, height - 1))
    decreases height, 0
  {
    hide Spread;
    hide Laid;
    hide IsTrie;
    assert Holds(t, addresses[j], dag[j], tables[j], addresses);
    LaidLeads(dag, maxDepth, j, tables[j], item);
    if item.TrieId? {
      EncodedIsTrie(t, dag, maxDepth, tables, addresses, item.id, height - 1);
    }
  }

  /** Walking the trie gives the solution that the dag dispatches to. */
  lemma {:induction false} EncodedEvaluates(t: seq<int>, dag: Dag, maxDepth: nat, tables: seq<Table<Item>>,
                                            addresses: seq<nat>, j: nat, height: nat, types: int -> int)
    requires HoldsDag(t, dag, tables, addresses) && WellFormed(dag, maxDepth) && j < |dag|
    requires height >= maxDepth - dag[j].depth
    ensures IsTrie(t, addresses[j], height)
    ensures Eval(TreeAt(t, addresses[j], height), types) == EvalDag(dag, maxDepth, j, types)
    decreases height
  {
    hide Spread;
    hide Laid;
    hide IsTrie;
    hide Scan;
    hide Choose;
    hide HoldsEntry;
    hide BranchesAt;
    EncodedIsTrie(t, dag, maxDepth, tables, addresses, j, height);
    var o, entry := addresses[j], dag[j];
    assert Holds(t, o, entry, tables[j], addresses);
    var type_id := types(entry.depth);
    var target := Pick(entry.branches, entry.fallback, type_id);
    TrieFits(t, o, height);
    ChooseIsScan(t, o, height, 0, type_id, types);
    ScanIsPick(t, o, entry, tables[j], addresses, type_id);
    assert LeadsDeeper(dag, entry.depth, target);
    if target.Next? {
      EncodedEvaluates(t, dag, maxDepth, tables, addresses, target.index, height - 1, types);
    }
  }

  lemma TrieFits(t: seq<int>, o: nat, height: nat)
    requires IsTrie(t, o, height)
    ensures Fits(t, o)
  {
    hide WellPlaced;
  }

  // ---------------------------------------------------------------- the encoder

  lemma {:induction false} KeyValuesLead(entries: seq<Entry<Item>>)
    ensures forall item :: item in KeyValues(entries) ==> item.Word? || exists e :: e in entries && e.value == item
  {
    if |entries| > 0 {
      var init, last := entries[..|entries| - 1], entries[|entries| - 1];
      KeyValuesLead(init);
      assert last in entries && forall e :: e in init ==> e in entries;
    }
  }

  lemma ItemsLead(dag: Dag, maxDepth: nat, j: nat, table: Table<Item>, item: Item)
    requires WellFormed(dag, maxDepth) && j < |dag| && Suits(dag[j], table) && item in ItemsOf(dag[j], table)
    ensures item.TrieId? ==> item.id < |dag|
  {
    KeyValuesLead(Laid(dag[j], table));
    hide KeyValues;
    hide Laid;
    hide Spread;
    hide Suits;
    hide WellFormed;
    if item.TrieId? {
      LaidLeads(dag, maxDepth, j, table, item);
    }
  }

  method SpreadOut(branches: seq<DagBranch>) returns (entries: seq<Entry<Item>>)
    ensures entries == Spread(branches)
  {
    entries := [];
    for i := 0 to |branches|
      invariant entries + Spread(branches[i..]) == Spread(branches)
    {
      var target, nums := ToItem(branches[i].target), branches[i].nums;
      ghost var rest := Spread(branches[i + 1..]);
      assert branches[i..][0] == branches[i] && branches[i..][1..] == branches[i + 1..];
      assert entries + (SpreadNums(nums[0..], target) + rest) == Spread(branches) by { assert nums[0..] == nums; }
      for k := 0 to |nums|
        invariant entries + (SpreadNums(nums[k..], target) + rest) == Spread(branches)
      {
        assert nums[k..][1..] == nums[k + 1..];
        assert entries + ([Entry(nums[k], target)] + SpreadNums(nums[k + 1..], target) + rest)
            == entries + [Entry(nums[k], target)] + (SpreadNums(nums[k + 1..], target) + rest);
        entries := entries + [Entry(nums[k], target)];
      }
      assert SpreadNums(nums[|nums|..], target) + rest == rest;
    }
  }

  method EmitEntries(accum: seq<Item>, entries: seq<Entry<Item>>) returns (longer: seq<Item>)
    ensures longer == accum + KeyValues(entries)
  {
    longer := accum;
    for i := 0 to |entries|
      invariant longer == accum + KeyValues(entries[..i])
    {
      assert entries[..i + 1][..i] == entries[..i];
      longer := longer + [Word(entries[i].key), entries[i].value];
    }
    assert entries[..|entries|] == entries;
  }

  /** Its keys repeat, which is fatal, or the search for its hash takes more than the tries. */
  ghost predicate Unencodable(entry: DagEntry, tries: nat) {
    var entries := Spread(entry.branches);
    |entries| > 4 && (DistinctKeys(entries) ==> forall d0 :: 1 <= d0 <= tries ==> Stuck(entries, d0))
  }

  /** One dag entry. */
  method Encode(accum: seq<Item>, entry: DagEntry, tries: nat)
    returns (longer: Option<seq<Item>>, ghost table: Table<Item>)
    ensures longer.Some? ==> Suits(entry, table) && longer.value == accum + ItemsOf(entry, table)
    ensures longer.None? ==> Unencodable(entry, tries)
  {
    hide IsPerfect;
    hide Stuck;
    hide KeyValues;
    hide Spread;
    table := Table(0, [], []);
    var entries := SpreadOut(entry.branches);
    var n := |entries|;
    var items := accum + [Word(entry.depth), Word(n)];
    if n <= 4 {
      items := EmitEntries(items, entries);
    } else {
      var found := PerfectHashTable(entries, tries);
      if found.None? {
        return None, table;
      }
      table := found.value;
      items := items + [Word(found.value.d0)];
      items := items + Words(found.value.dtable);
      items := EmitEntries(items, found.value.entries);
    }
    items := items + [ToItem(entry.fallback)];
    assert items == accum + ItemsOf(entry, table);
    longer := Some(items);
  }

  method FillAddresses(items: seq<Item>, addresses: seq<nat>) returns (t: seq<int>)
    requires Resolvable(items, addresses)
    ensures t == Fill(items, addresses)
  {
    t := [];
    for k := 0 to |items|
      invariant |t| == k && forall i :: 0 <= i < k ==> t[i] == Resolve(items[i], addresses)
    {
      t := t + [Resolve(items[k], addresses)];
    }
  }

  lemma LaidGrows(items: seq<Item>, more: seq<Item>, o: nat, entry: DagEntry, table: Table<Item>)
    requires LaidAt(items, o, entry, table)
    ensures LaidAt(items + more, o, entry, table)
  {
    hide ItemsOf;
  }

  lemma LaidLast(items: seq<Item>, entry: DagEntry, table: Table<Item>)
    ensures LaidAt(items + ItemsOf(entry, table), |items|, entry, table)
  {
    hide ItemsOf;
  }

  /** The items hold the first dag entries at their offsets, the first one at their start. */
  ghost predicate AllLaid(items: seq<Item>, dag: Dag, tables: seq<Table<Item>>, starts: seq<nat>) {
    && |tables| == |starts| <= |dag| && (|starts| == 0 ==> |items| == 0) && (|starts| > 0 ==> starts[0] == 0)
    && (forall j :: 0 <= j < |starts| ==> Suits(dag[j], tables[j]) && LaidAt(items, starts[j], dag[j], tables[j]))
    && (forall item :: item in items && item.TrieId? ==> item.id < |dag|)
  }

  lemma OneMoreLaid(dag: Dag, maxDepth: nat, items: seq<Item>, tables: seq<Table<Item>>, starts: seq<nat>,
                    table: Table<Item>)
    requires WellFormed(dag, maxDepth) && AllLaid(items, dag, tables, starts) && |starts| < |dag|
    requires Suits(dag[|starts|], table)
    ensures AllLaid(items + ItemsOf(dag[|starts|], table), dag, tables + [table], starts + [|items|])
  {
    hide WellFormed;
    hide ItemsOf;
    hide Suits;
    hide LaidAt;
    var entry := dag[|starts|];
    var more := ItemsOf(entry, table);
    forall j | 0 <= j < |starts|
      ensures LaidAt(items + more, starts[j], dag[j], tables[j])
    {
      LaidGrows(items, more, starts[j], dag[j], tables[j]);
    }
    forall item | item in more && item.TrieId?
      ensures item.id < |dag|
    {
      ItemsLead(dag, maxDepth, |starts|, table, item);
    }
    LaidLast(items, entry, table);
  }

  lemma AllFilled(dag: Dag, items: seq<Item>, tables: seq<Table<Item>>, starts: seq<nat>)
    requires AllLaid(items, dag, tables, starts) && |starts| == |dag|
    ensures Resolvable(items, starts) && HoldsDag(Fill(items, starts), dag, tables, starts)
  {
    hide Holds;
    hide Fill;
    hide LaidAt;
    hide Suits;
    forall j | 0 <= j < |dag|
      ensures Holds(Fill(items, starts), starts[j], dag[j], tables[j], starts)
    {
      FilledHolds(items, starts, starts[j], dag[j], tables[j]);
    }
  }

  /** encode-dag: the array holds every entry of the dag, the first one at its start. */
  method EncodeDag(dag: Dag, ghost maxDepth: nat, tries: nat)
    returns (t: Option<seq<int>>, ghost tables: seq<Table<Item>>, ghost addresses: seq<nat>)
    requires WellFormed(dag, maxDepth)
    ensures t.Some? ==> HoldsDag(t.value, dag, tables, addresses) && addresses[0] == 0
    ensures t.None? ==> exists j :: 0 <= j < |dag| && Unencodable(dag[j], tries)
  {
    assert |dag| > 0;
    hide Unencodable;
    hide WellFormed;
    hide ItemsOf;
    hide Suits;
    hide LaidAt;
    hide Resolvable;
    hide Fill;
    hide Holds;
    var accum: seq<Item>, starts: seq<nat> := [], [];
    tables, addresses := [], [];
    for j := 0 to |dag|
      invariant AllLaid(accum, dag, tables, starts) && |starts| == j
    {
      var longer, table := Encode(accum, dag[j], tries);
      if longer.None? {
        return None, tables, addresses;
      }
      OneMoreLaid(dag, maxDepth, accum, tables, starts, table);
      starts, tables, accum := starts + [|accum|], tables + [table], longer.value;
    }
    AllFilled(dag, accum, tables, starts);
    addresses := starts;
    var filled := FillAddresses(accum, starts);
    t := Some(filled);
  }

  /** Encoding a dag and walking the array as the interpreter does gives the solution that the dag dispatches to. */
  method EncodeAndDispatch(dag: Dag, ghost maxDepth: nat, tries: nat, types: int -> int) returns (result: Option<int>)
    requires WellFormed(dag, maxDepth)
    ensures result.Some? ==> result.value == EvalDag(dag, maxDepth, 0, types)
    ensures result.None? ==> exists j :: 0 <= j < |dag| && Unencodable(dag[j], tries)
  {
    var t, tables, addresses := EncodeDag(dag, maxDepth, tries);
    if t.None? {
      return None;
    }
    EncodedEvaluates(t.value, dag, maxDepth, tables, addresses, 0, maxDepth, types);
    var code := ReadDispatchTable(t.value, types, maxDepth);
    result := Some(code);
  }
}
