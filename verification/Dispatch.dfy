/** Multi-argument dispatch in compiler/cvm.c: perfect-hash tables chained into a trie, all in one array of ints. */
module Dispatch {
  // ---------------------------------------------------------------- hashing

  /** A C int as the 32 bits it is stored in. */
  function Bits(x: int): bv32 { (x % 0x1_0000_0000) as bv32 }

  function Mix(d: bv32, x: bv32): bv32 {
    var a := x;
    var a := (a + 0x7ed55d16 + d) + (a << 12);
    var a := (a ^ 0xc761c23c) ^ (a >> 19);
    var a := (a + 0x165667b1) + (a << 5);
    var a := (a + 0xd3a2646c) ^ (a << 9);
    var a := (a + 0xfd7046c5) + (a << 3);
    (a ^ 0xb55a4f09) ^ (a >> 16)
  }

  function DHash(d: int, x: int, n: nat): (slot: nat)
    requires n > 0
    ensures slot < n
  {
    ((Mix(Bits(d), Bits(x)) & 0x7FFFFFFF) as int) % n
  }

  /** Three values of the mixing, worked out by the formula of the source. */
  lemma KnownMixes()
    ensures Mix(0, 0) == 0x6b4ed927 && Mix(1, 2) == 0xe262f390 && Mix(0xfffffffd, 7) == 0xf3c8bbbd
  {
  }

  // ---------------------------------------------------------------- one table

  /** The table at an offset: its argument index, its entry count n, and for n > 4 a hash seed and n displacements. */
  function Count(t: seq<int>, o: nat): int
    requires o + 2 <= |t|
  {
    t[o + 1]
  }

  function EntriesAt(o: nat, n: nat): nat { if n <= 4 then o + 2 else o + 3 + n }

  function Displacement(t: seq<int>, o: nat, j: nat): int
    requires o + 3 + j < |t|
  {
    t[o + 3 + j]
  }

  /** The table lies inside the array, its negative displacements name entries. */
  predicate Fits(t: seq<int>, o: nat) {
    && o + 2 <= |t| && 0 <= Count(t, o)
    && var n := Count(t, o);
    && EntriesAt(o, n) + 2 * n + 1 <= |t|
    && (n > 4 ==> forall j :: 0 <= j < n && Displacement(t, o, j) < 0 ==> -Displacement(t, o, j) - 1 < n)
  }

  function Key(t: seq<int>, e: nat, i: nat): int
    requires e + 2 * i < |t|
  {
    t[e + 2 * i]
  }

  function Value(t: seq<int>, e: nat, i: nat): int
    requires e + 2 * i + 1 < |t|
  {
    t[e + 2 * i + 1]
  }

  /** default_value: the key field of the entry after the last. */
  function Default(t: seq<int>, e: nat, n: nat): int
    requires e + 2 * n < |t|
  {
    t[e + 2 * n]
  }

  /** The value of the first of the entries from `i` on with this key, or the default. */
  function Scan(t: seq<int>, e: nat, n: nat, key: int, i: nat): int
    requires e + 2 * n < |t| && i <= n
    decreases n - i
  {
    if i == n then Default(t, e, n)
    else if Key(t, e, i) == key then Value(t, e, i)
    else Scan(t, e, n, key, i + 1)
  }

  /** The entry the two-level hash looks at, or none. */
  datatype Slot = NoSlot | At(i: nat)

  function SlotOf(t: seq<int>, o: nat, key: int): (s: Slot)
    requires Fits(t, o) && Count(t, o) > 4
    ensures s.At? ==> s.i < Count(t, o)
  {
    var n: nat := Count(t, o);
    var d := Displacement(t, o, DHash(t[o + 2], key, n));
    if d == 0 then NoSlot else if d < 0 then At(-d - 1) else At(DHash(d, key, n))
  }

  function Hashed(t: seq<int>, o: nat, key: int): int
    requires Fits(t, o) && Count(t, o) > 4
  {
    var n: nat := Count(t, o);
    var e := EntriesAt(o, n);
    match SlotOf(t, o, key)
    case NoSlot => Default(t, e, n)
    case At(i) => if Key(t, e, i) == key then Value(t, e, i) else Default(t, e, n)
  }

  /** What the table generator has to achieve: the hash finds every entry. */
  predicate WellPlaced(t: seq<int>, o: nat)
    requires Fits(t, o)
  {
    var n: nat := Count(t, o);
    n > 4 ==> forall i :: 0 <= i < n ==> SlotOf(t, o, Key(t, EntriesAt(o, n), i)) == At(i)
  }

  lemma {:induction false} ScanFindsFirst(t: seq<int>, e: nat, n: nat, key: int, i: nat, k: nat)
    requires e + 2 * n < |t| && i <= k <= n
    requires forall j :: i <= j < k ==> Key(t, e, j) != key
    requires k == n || Key(t, e, k) == key
    ensures Scan(t, e, n, key, i) == if k == n then Default(t, e, n) else Value(t, e, k)
    decreases n - i
  {
    if i < k {
      ScanFindsFirst(t, e, n, key, i + 1, k);
    }
  }

  /** For a well-placed table and any type id, present or not, the hashed lookup is the linear scan. */
  lemma HashedIsScan(t: seq<int>, o: nat, key: int)
    requires Fits(t, o) && Count(t, o) > 4 && WellPlaced(t, o)
    ensures Hashed(t, o, key) == Scan(t, EntriesAt(o, Count(t, o)), Count(t, o), key, 0)
  {
    hide DHash;
    var n: nat := Count(t, o);
    var e := EntriesAt(o, n);
    if k: nat :| k < n && Key(t, e, k) == key {
      forall j | 0 <= j < k ensures Key(t, e, j) != key {
        assert SlotOf(t, o, Key(t, e, j)) == At(j);
      }
      assert SlotOf(t, o, key) == At(k);
      ScanFindsFirst(t, e, n, key, 0, k);
    } else {
      ScanFindsFirst(t, e, n, key, 0, n);
    }
  }

  /** However the entries are placed, an id that is no key gets the default. */
  lemma AbsentGetsDefault(t: seq<int>, o: nat, key: int)
    requires Fits(t, o) && Count(t, o) > 4
    requires forall j :: 0 <= j < Count(t, o) ==> Key(t, EntriesAt(o, Count(t, o)), j) != key
    ensures Hashed(t, o, key) == Default(t, EntriesAt(o, Count(t, o)), Count(t, o))
  {
    hide DHash;
  }

  /** The hashed lookup is the scan for every type id exactly when it is for the keys of the table. */
  lemma ScanExactlyIfKeysFound(t: seq<int>, o: nat)
    requires Fits(t, o) && Count(t, o) > 4
    ensures var n: nat, e := Count(t, o), EntriesAt(o, Count(t, o));
      (forall key :: Hashed(t, o, key) == Scan(t, e, n, key, 0)) <==>
      (forall i :: 0 <= i < n ==> Hashed(t, o, Key(t, e, i)) == Scan(t, e, n, Key(t, e, i), 0))
  {
    hide Hashed;
    var n: nat, e := Count(t, o), EntriesAt(o, Count(t, o));
    if forall i :: 0 <= i < n ==> Hashed(t, o, Key(t, e, i)) == Scan(t, e, n, Key(t, e, i), 0) {
      forall key ensures Hashed(t, o, key) == Scan(t, e, n, key, 0) {
        if forall j :: 0 <= j < n ==> Key(t, e, j) != key {
          AbsentGetsDefault(t, o, key);
          ScanFindsFirst(t, e, n, key, 0, n);
        }
      }
    }
  }

  // ---------------------------------------------------------------- the trie

  /** The decision tree over the argument types that a table stands for. */
  datatype Tree = Leaf(result: int) | Node(index: int, branches: Branches)
  datatype Branches = Otherwise(tree: Tree) | Branch(key: int, tree: Tree, rest: Branches)

  function Eval(tree: Tree, types: int -> int): int
    decreases tree, 1
  {
    match tree
    case Leaf(result) => result
    case Node(index, branches) => Choose(branches, types(index), types)
  }

  function Choose(b: Branches, type_id: int, types: int -> int): int
    decreases b, 0
  {
    match b
    case Otherwise(tree) => Eval(tree, types)
    case Branch(key, tree, rest) => if key == type_id then Eval(tree, types) else Choose(rest, type_id, types)
  }

  /**
   * A trie of at most the height: every table is placed well, and every value is a result (negative) or the offset of a
   * table that is the root of a lower trie.
   */
  predicate IsTrie(t: seq<int>, o: nat, height: nat)
    decreases height
  {
    && Fits(t, o) && WellPlaced(t, o)
    && var n: nat, e := Count(t, o), EntriesAt(o, Count(t, o));
    && (forall i :: 0 <= i < n ==> Value(t, e, i) < 0 || (height > 0 && IsTrie(t, Value(t, e, i), height - 1)))
    && (Default(t, e, n) < 0 || (height > 0 && IsTrie(t, Default(t, e, n), height - 1)))
  }

  /** The same with offsets that increase from each table to the next. */
  predicate IsIncreasing(t: seq<int>, o: nat)
    decreases |t| - o
  {
    && Fits(t, o) && WellPlaced(t, o)
    && var n: nat, e := Count(t, o), EntriesAt(o, Count(t, o));
    && (forall i :: 0 <= i < n ==> Value(t, e, i) < 0 || (o < Value(t, e, i) && IsIncreasing(t, Value(t, e, i))))
    && (Default(t, e, n) < 0 || (o < Default(t, e, n) && IsIncreasing(t, Default(t, e, n))))
  }

  /** Increasing offsets are one way of being a trie. */
  lemma {:induction false} IncreasingIsTrie(t: seq<int>, o: nat, height: nat)
    requires IsIncreasing(t, o) && height >= |t| - o
    ensures IsTrie(t, o, height)
    decreases |t| - o
  {
    hide WellPlaced;
    var n: nat, e := Count(t, o), EntriesAt(o, Count(t, o));
    forall v: nat | o < v && IsIncreasing(t, v)
      ensures height > 0 && IsTrie(t, v, height - 1)
    {
      IncreasingIsTrie(t, v, height - 1);
    }
  }

  function TreeAt(t: seq<int>, o: nat, height: nat): Tree
    requires IsTrie(t, o, height)
    decreases height, Count(t, o) + 1
  {
    Node(t[o], BranchesAt(t, o, height, 0))
  }

  function BranchesAt(t: seq<int>, o: nat, height: nat, i: nat): Branches
    requires IsTrie(t, o, height) && i <= Count(t, o)
    decreases height, Count(t, o) - i
  {
    hide WellPlaced;
    var n: nat, e := Count(t, o), EntriesAt(o, Count(t, o));
    if i == n then
      var v := Default(t, e, n);
      Otherwise(if v < 0 then Leaf(-v - 1) else TreeAt(t, v, height - 1))
    else
      var v := Value(t, e, i);
      Branch(Key(t, e, i), if v < 0 then Leaf(-v - 1) else TreeAt(t, v, height - 1), BranchesAt(t, o, height, i + 1))
  }

  /** The tree for a value found in a table of a trie of the height. */
  function TreeOf(t: seq<int>, v: int, height: nat): Tree
    requires v < 0 || (height > 0 && IsTrie(t, v, height - 1))
  {
    if v < 0 then Leaf(-v - 1) else TreeAt(t, v, height - 1)
  }

  lemma {:induction false} ChooseIsScan(t: seq<int>, o: nat, height: nat, i: nat, type_id: int, types: int -> int)
    requires IsTrie(t, o, height) && i <= Count(t, o)
    ensures var v := Scan(t, EntriesAt(o, Count(t, o)), Count(t, o), type_id, i);
      && (v < 0 || (height > 0 && IsTrie(t, v, height - 1)))
      && Choose(BranchesAt(t, o, height, i), type_id, types) == Eval(TreeOf(t, v, height), types)
    decreases Count(t, o) - i
  {
    hide Eval;
    hide WellPlaced;
    if i < Count(t, o) {
      ChooseIsScan(t, o, height, i + 1, type_id, types);
    }
  }

  // ---------------------------------------------------------------- the code

  method LookupSmallEtable(t: seq<int>, e: nat, type_id: int, n: nat) returns (value: int)
    requires e + 2 * n < |t|
    ensures value == Scan(t, e, n, type_id, 0)
  {
    for i := 0 to n
      invariant Scan(t, e, n, type_id, 0) == Scan(t, e, n, type_id, i)
    {
      if Key(t, e, i) == type_id {
        return Value(t, e, i);
      }
    }
    return Default(t, e, n);
  }

  method LookupTrieTable(t: seq<int>, o: nat, type_id: int) returns (value: int)
    requires Fits(t, o) && WellPlaced(t, o)
    ensures value == Scan(t, EntriesAt(o, Count(t, o)), Count(t, o), type_id, 0)
  {
    hide DHash;
    var n: nat := Count(t, o);
    if n <= 4 {
      value := LookupSmallEtable(t, o + 2, type_id, n);
    } else {
      HashedIsScan(t, o, type_id);
      var e := o + 3 + n;
      var dslot := DHash(t[o + 2], type_id, n);
      var d := Displacement(t, o, dslot);
      if d == 0 {
        value := Default(t, e, n);
      } else {
        var slot := if d < 0 then -d - 1 else DHash(d, type_id, n);
        value := if Key(t, e, slot) == type_id then Value(t, e, slot) else Default(t, e, n);
      }
    }
  }

  /** The walk ends, and its result is that of the nested decision tree over the argument types. */
  method ReadDispatchTable(t: seq<int>, types: int -> int, ghost height: nat) returns (result: int)
    requires IsTrie(t, 0, height)
    ensures result == Eval(TreeAt(t, 0, height), types)
  {
    hide Scan;
    hide Choose;
    hide WellPlaced;
    var table_offset: nat := 0;
    ghost var left := height;
    while true
      invariant IsTrie(t, table_offset, left)
      invariant Eval(TreeAt(t, table_offset, left), types) == Eval(TreeAt(t, 0, height), types)
      decreases left
    {
      var type_id := types(t[table_offset]);
      ChooseIsScan(t, table_offset, left, 0, type_id, types);
      var value := LookupTrieTable(t, table_offset, type_id);
      if value < 0 {
        return -value - 1;
      }
      table_offset, left := value, left - 1;
    }
  }
}
