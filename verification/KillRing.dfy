/** The kill ring of runtime/linenoise-ng/linenoise.cpp and the keys that use it. */
module KillRing {
  import opened Options

  /** UTF-32 units. */
  type Text = seq<int>

  const CAPACITY := 10

  datatype Action = OtherAction | KillAction | YankAction

  // ---------------------------------------------------------------- the ring as a list

  /** The entries, newest first, and the one that was yanked last. */
  datatype Ring = Ring(entries: seq<Text>, index: nat, lastAction: Action)

  /** initFromBuffer: a text ends at its first NUL. */
  function UpToNul(t: Text): Text {
    if |t| == 0 || t[0] == 0 then [] else [t[0]] + UpToNul(t[1..])
  }

  lemma {:induction false} UpToNulKeeps(t: Text)
    ensures UpToNul(t) == t <==> 0 !in t
  {
    if |t| > 0 {
      UpToNulKeeps(t[1..]);
      assert t == [t[0]] + t[1..];
      if UpToNul(t) == t {
        assert UpToNul(t)[1..] == t[1..];
      }
    }
  }

  function Joined(entry: Text, text: Text, forward: bool): Text {
    UpToNul(if forward then entry + text else text + entry)
  }

  function Newest(entries: seq<Text>): seq<Text> { if |entries| <= CAPACITY then entries else entries[..CAPACITY] }

  /** A kill: empty text does nothing, a kill after a kill joins the front entry, any other is a new entry. */
  function Kill(r: Ring, text: Text, forward: bool): Ring {
    if |text| == 0 then r
    else if r.lastAction.KillAction? && |r.entries| > 0 then
      r.(entries := r.entries[0 := Joined(r.entries[0], text, forward)])
    else r.(entries := Newest([text] + r.entries), index := 0)
  }

  function Yank(r: Ring): Option<Text> { if r.index < |r.entries| then Some(r.entries[r.index]) else None }

  function YankPop(r: Ring): Ring {
    if |r.entries| == 0 then r else r.(index := if r.index + 1 == |r.entries| then 0 else r.index + 1)
  }

  predicate Good(r: Ring) {
    |r.entries| <= CAPACITY && (if |r.entries| == 0 then r.index == 0 else r.index < |r.entries|)
  }

  // ---------------------------------------------------------------- keys

  /** A key that kills, even nothing; ctrl-Y; meta-Y; and a key that ends a run of kills or yanks. */
  datatype Key = KillKey(text: Text, forward: bool) | YankKey | YankPopKey | OtherKey

  function Press(r: Ring, k: Key): Ring {
    match k
    case KillKey(text, forward) => Kill(r, text, forward).(lastAction := KillAction)
    case YankKey => if Yank(r).Some? then r.(lastAction := YankAction) else r
    case YankPopKey => if r.lastAction.YankAction? then YankPop(r) else r
    case OtherKey => r.(lastAction := OtherAction)
  }

  function Run(r: Ring, keys: seq<Key>): Ring {
    if |keys| == 0 then r else Press(Run(r, keys[..|keys| - 1]), keys[|keys| - 1])
  }

  lemma PressKeepsGood(r: Ring, k: Key)
    requires Good(r)
    ensures Good(Press(r, k))
  {
  }

  lemma {:induction false} RunKeepsGood(r: Ring, keys: seq<Key>)
    requires Good(r)
    ensures Good(Run(r, keys))
    decreases |keys|
  {
    if |keys| > 0 {
      RunKeepsGood(r, keys[..|keys| - 1]);
      PressKeepsGood(Run(r, keys[..|keys| - 1]), keys[|keys| - 1]);
    }
  }

  /** All that was ever killed, newest first, when a ring without a bound had been kept. */
  function History(before: seq<Text>, lastAction: Action, keys: seq<Key>): seq<Text> {
    if |keys| == 0 then before
    else
      var init, k := keys[..|keys| - 1], keys[|keys| - 1];
      var past := History(before, lastAction, init);
      if !k.KillKey? || |k.text| == 0 then past
      else if LastAction(before, lastAction, init).KillAction? && |past| > 0 then
        [Joined(past[0], k.text, k.forward)] + past[1..]
      else [k.text] + past
  }

  /** What the last key that counts was; a yank of nothing and a yank-pop leave it. */
  function LastAction(before: seq<Text>, lastAction: Action, keys: seq<Key>): Action {
    if |keys| == 0 then lastAction
    else
      var init := keys[..|keys| - 1];
      match keys[|keys| - 1]
      case KillKey(_, _) => KillAction
      case YankKey =>
        if |History(before, lastAction, init)| > 0 then YankAction else LastAction(before, lastAction, init)
      case YankPopKey => LastAction(before, lastAction, init)
      case OtherKey => OtherAction
  }

  /** Dropping all but the newest before a kill or after it is the same. */
  lemma NewestAfterKill(past: seq<Text>, text: Text)
    ensures Newest([text] + Newest(past)) == Newest([text] + past)
    ensures |past| > 0 ==> |Newest(past)| > 0 && Newest(past)[0] == past[0]
    ensures |past| > 0 ==> Newest([text] + past[1..]) == Newest(past)[0 := text]
    ensures |past| == 0 <==> |Newest(past)| == 0
  {
  }

  /** The ring is the ten latest of all entries ever made: a full ring gives up its oldest and nothing else. */
  lemma {:induction false} RingIsLatestTen(r: Ring, keys: seq<Key>)
    requires Good(r)
    ensures Run(r, keys).entries == Newest(History(r.entries, r.lastAction, keys))
    ensures Run(r, keys).lastAction == LastAction(r.entries, r.lastAction, keys)
    decreases |keys|
  {
    if |keys| > 0 {
      var init, k := keys[..|keys| - 1], keys[|keys| - 1];
      var past := History(r.entries, r.lastAction, init);
      RingIsLatestTen(r, init);
      RunKeepsGood(r, init);
      if k.KillKey? {
        NewestAfterKill(past, k.text);
        if |past| > 0 {
          NewestAfterKill(past, Joined(past[0], k.text, k.forward));
        }
      } else {
        NewestAfterKill(past, []);
      }
      hide Joined;
      hide Newest;
    }
  }

  /** The key makes a new entry: it kills something, and not right after a kill that it could join. */
  predicate MakesEntry(before: seq<Text>, lastAction: Action, init: seq<Key>, k: Key) {
    && k.KillKey? && |k.text| > 0
    && (!LastAction(before, lastAction, init).KillAction? || |History(before, lastAction, init)| == 0)
  }

  /** The yank-pops that counted since the last new entry, or since the start on top of where the ring stood then. */
  function Pops(before: seq<Text>, lastAction: Action, start: nat, keys: seq<Key>): nat {
    if |keys| == 0 then start
    else
      var init, k := keys[..|keys| - 1], keys[|keys| - 1];
      if MakesEntry(before, lastAction, init, k) then 0
      else
        Pops(before, lastAction, start, init) +
        if k.YankPopKey? && LastAction(before, lastAction, init).YankAction? then 1 else 0
  }

  /**
   * Over any run of keys the entry that ctrl-Y yanks is the one so many places behind the newest, round the ring, as
   * yank-pops have counted since the last new entry; without an entry it yanks nothing.
   */
  lemma {:induction false} YankedAfterRun(r: Ring, keys: seq<Key>)
    requires Good(r)
    ensures var entries := Newest(History(r.entries, r.lastAction, keys));
      && (|entries| == 0 ==> Yank(Run(r, keys)) == None)
      && (|entries| > 0 ==>
            var i := Pops(r.entries, r.lastAction, r.index, keys) % |entries|;
            Run(r, keys).index == i && Yank(Run(r, keys)) == Some(entries[i]))
    decreases |keys|
  {
    hide History;
    hide LastAction;
    hide Press;
    hide Newest;
    hide Good;
    RunKeepsGood(r, keys);
    RingIsLatestTen(r, keys);
    GoodIndex(Run(r, keys));
    if |keys| > 0 {
      var init, k := keys[..|keys| - 1], keys[|keys| - 1];
      RingIsLatestTen(r, init);
      RunKeepsGood(r, init);
      YankedAfterRun(r, init);
      NewestAfterKill(History(r.entries, r.lastAction, init), []);
      PressTurns(Run(r, init), k, Pops(r.entries, r.lastAction, r.index, init));
    } else if |r.entries| > 0 {
      NoTurn(r.index, |r.entries|);
    }
  }

  lemma GoodIndex(r: Ring)
    requires Good(r)
    ensures |r.entries| > 0 ==> r.index < |r.entries|
    ensures |r.entries| == 0 ==> r.index == 0
  {
  }

  lemma NoTurn(i: nat, n: nat)
    requires i < n
    ensures i % n == i
  {
  }

  /** What a key does to the index: 0 at a new entry, one on round the ring at a yank-pop, and else nothing. */
  lemma PressMovesIndex(r: Ring, k: Key)
    requires Good(r)
    ensures var now := Press(r, k);
      if k.KillKey? && |k.text| > 0 && (!r.lastAction.KillAction? || |r.entries| == 0) then
        now.index == 0 && |now.entries| > 0
      else
        && |now.entries| == |r.entries|
        && now.index == if k.YankPopKey? && r.lastAction.YankAction? && |r.entries| > 0
                        then if r.index + 1 == |r.entries| then 0 else r.index + 1
                        else r.index
  {
    hide UpToNul;
  }

  /** The same with the index counted as so many turns round the ring. */
  lemma PressTurns(r: Ring, k: Key, turns: nat)
    requires Good(r) && (|r.entries| > 0 ==> r.index == turns % |r.entries|)
    ensures var now := Press(r, k);
      var entry := k.KillKey? && |k.text| > 0 && (!r.lastAction.KillAction? || |r.entries| == 0);
      var on := if k.YankPopKey? && r.lastAction.YankAction? then 1 else 0;
      |now.entries| > 0 ==> now.index == (if entry then 0 else turns + on) % |now.entries|
  {
    PressMovesIndex(r, k);
    hide Press;
    if |r.entries| > 0 {
      NextModulo(turns, |r.entries|);
    }
    var now := Press(r, k);
    if |now.entries| > 0 {
      NoTurn(0, |now.entries|);
    }
  }

  function YankPops(r: Ring, k: nat): Ring { if k == 0 then r else YankPop(YankPops(r, k - 1)) }

  /** From the newest entry on, the k-th yank-pop shows entry k modulo the size of the ring, and changes no entry. */
  lemma {:induction false} YankPopsGoRound(r: Ring, k: nat)
    requires |r.entries| > 0 && r.index == 0
    ensures YankPops(r, k).entries == r.entries && YankPops(r, k).index == k % |r.entries|
    ensures Yank(YankPops(r, k)) == Some(r.entries[k % |r.entries|])
  {
    if k > 0 {
      YankPopsGoRound(r, k - 1);
      NextModulo(k - 1, |r.entries|);
    }
  }

  lemma NextModulo(k: nat, n: nat)
    requires n > 0
    ensures (k + 1) % n == if k % n + 1 == n then 0 else k % n + 1
  {
    var r, m, d := k % n, (k + 1) % n, (k + 1) / n - k / n;
    assert k == n * (k / n) + r && k + 1 == n * ((k + 1) / n) + m;
    assert n * d == n * ((k + 1) / n) - n * (k / n) == r + 1 - m;
    MultipleBounds(n, d);
  }

  lemma MultipleBounds(n: int, d: int)
    requires n > 0
    ensures d >= 2 ==> n * d >= n * 2
    ensures d <= -1 ==> n * d <= -n
  {
  }

  /** A kill right after a kill puts the two texts together in the order of the line, unless a NUL cuts them off. */
  lemma KillJoinsFront(r: Ring, text: Text, forward: bool)
    requires |r.entries| > 0 && r.lastAction.KillAction? && |text| > 0
    ensures var front := Kill(r, text, forward).entries[0];
      front == (if forward then r.entries[0] + text else text + r.entries[0]) <==> 0 !in r.entries[0] && 0 !in text
  {
    UpToNulKeeps(if forward then r.entries[0] + text else text + r.entries[0]);
  }

  /**
   * After a kill ctrl-Y yanks the front entry, the one that holds the killed text, exactly when the kill made a new
   * entry or the front entry was the one in turn before: a joining kill does not go back to the front.
   */
  lemma KillIsYankedNext(r: Ring, text: Text, forward: bool)
    requires Good(r) && |text| > 0
    ensures var now := Kill(r, text, forward);
      && |now.entries| > 0
      && (now.index == 0 <==> !r.lastAction.KillAction? || |r.entries| == 0 || r.index == 0)
      && (now.index == 0 ==> Yank(now) == Some(now.entries[0]))
  {
  }

  /** Killing nothing after a yank-pop joins the next kill to an old entry, and ctrl-Y then yanks another one. */
  lemma EmptyKillMisleadsYank()
    ensures var keys := [KillKey([97], true), OtherKey, KillKey([98], true), YankKey, YankPopKey, KillKey([], true),
                         KillKey([99], true)];
      var now := Run(Ring([], 0, OtherAction), keys);
      now.entries == [[98, 99], [97]] && Yank(now) == Some([97])
  {
    var r0 := Ring([], 0, OtherAction);
    RunOn(r0, [], KillKey([97], true));
    RunOn(r0, [KillKey([97], true)], OtherKey);
    RunOn(r0, [KillKey([97], true), OtherKey], KillKey([98], true));
    var three := [KillKey([97], true), OtherKey, KillKey([98], true)];
    assert Run(r0, three) == Ring([[98], [97]], 0, KillAction);
    RunOn(r0, three, YankKey);
    RunOn(r0, three + [YankKey], YankPopKey);
    RunOn(r0, three + [YankKey] + [YankPopKey], KillKey([], true));
    RunOn(r0, three + [YankKey] + [YankPopKey] + [KillKey([], true)], KillKey([99], true));
    var six := three + [YankKey] + [YankPopKey] + [KillKey([], true)];
    assert Run(r0, six) == Ring([[98], [97]], 1, KillAction);
    assert [98] + [99] == [98, 99];
    UpToNulKeeps([98, 99]);
    assert six + [KillKey([99], true)]
        == [KillKey([97], true), OtherKey, KillKey([98], true), YankKey, YankPopKey, KillKey([], true),
            KillKey([99], true)];
  }

  lemma RunOn(r: Ring, keys: seq<Key>, k: Key)
    ensures Run(r, keys + [k]) == Press(Run(r, keys), k)
  {
    assert (keys + [k])[..|keys|] == keys;
  }

  /** When no key kills nothing, the entry in turn after a kill is always the front one. */
  lemma {:induction false} RealKillsAreYanked(r: Ring, keys: seq<Key>)
    requires Good(r) && (r.lastAction.KillAction? ==> r.index == 0)
    requires forall k :: k in keys && k.KillKey? ==> |k.text| > 0
    ensures Run(r, keys).lastAction.KillAction? ==> Run(r, keys).index == 0
    decreases |keys|
  {
    if |keys| > 0 {
      assert keys[|keys| - 1] in keys;
      RealKillsAreYanked(r, keys[..|keys| - 1]);
    }
  }

  // ---------------------------------------------------------------- slots

  /** The slots in use are the slots of the ring, each under one index. */
  predicate IsPermutation(slots: seq<nat>, size: nat) {
    && |slots| == CAPACITY && size <= CAPACITY
    && (forall i :: 0 <= i < size ==> slots[i] < size)
    && (forall i, j :: 0 <= i < j < size ==> slots[i] != slots[j])
  }

  /** The ring read through the slots. */
  function ReadThrough(slots: seq<nat>, ring: seq<Text>): (entries: seq<Text>)
    requires IsPermutation(slots, |ring|)
    ensures |entries| == |ring| && forall i :: 0 <= i < |ring| ==> entries[i] == ring[slots[i]]
  {
    seq(|ring|, i requires 0 <= i < |ring| => ring[slots[i]])
  }

  /** The first n slots move up by one, and the slot comes first. */
  function Fronted(slots: seq<nat>, n: nat, slot: nat): seq<nat>
    requires n < |slots|
  {
    [slot] + slots[..n] + slots[n + 1..]
  }

  lemma AddsEntry(slots: seq<nat>, ring: seq<Text>, text: Text)
    requires IsPermutation(slots, |ring|) && |ring| < CAPACITY
    ensures var now := Fronted(slots, |ring|, |ring|);
      IsPermutation(now, |ring| + 1) && ReadThrough(now, ring + [text]) == [text] + ReadThrough(slots, ring)
  {
    var now := Fronted(slots, |ring|, |ring|);
    assert forall i :: 0 < i <= |ring| ==> now[i] == slots[i - 1];
  }

  lemma ReplacesOldest(slots: seq<nat>, ring: seq<Text>, text: Text)
    requires IsPermutation(slots, CAPACITY) && |ring| == CAPACITY
    ensures var slot := slots[CAPACITY - 1];
      var now := Fronted(slots, CAPACITY - 1, slot);
      && IsPermutation(now, CAPACITY)
      && ReadThrough(now, ring[slot := text]) == [text] + ReadThrough(slots, ring)[..CAPACITY - 1]
  {
    var now := Fronted(slots, CAPACITY - 1, slots[CAPACITY - 1]);
    assert forall i :: 0 < i < CAPACITY ==> now[i] == slots[i - 1];
  }

  lemma ReplacesFront(slots: seq<nat>, ring: seq<Text>, text: Text)
    requires IsPermutation(slots, |ring|) && |ring| > 0
    ensures ReadThrough(slots, ring[slots[0] := text]) == ReadThrough(slots, ring)[0 := text]
  {
  }

  // ---------------------------------------------------------------- the class

  class KillRing {
    var size: nat
    var index: nat
    const indexToSlot: array<nat>
    var theRing: seq<Text>
    var lastAction: Action

    ghost predicate Valid()
      reads this, indexToSlot
    {
      && indexToSlot.Length == CAPACITY && |theRing| == size && IsPermutation(indexToSlot[..], size)
      && (if size == 0 then index == 0 else index < size)
    }

    ghost function Value(): (ring: Ring)
      requires Valid()
      reads this, indexToSlot
      ensures Good(ring)
    {
      Ring(ReadThrough(indexToSlot[..], theRing), index, lastAction)
    }

    constructor ()
      ensures Valid() && fresh(indexToSlot) && Value() == Ring([], 0, OtherAction)
    {
      size, index, lastAction, theRing := 0, 0, OtherAction, [];
      indexToSlot := new nat[CAPACITY];
    }

    /** memmove(&indexToSlot[1], &indexToSlot[0], n), and the slot put first. */
    method PutFirst(n: nat, slot: nat)
      requires n < indexToSlot.Length
      modifies indexToSlot
      ensures indexToSlot[..] == Fronted(old(indexToSlot[..]), n, slot)
    {
      var i := n;
      while i > 0
        invariant 0 <= i <= n
        invariant forall k :: i < k <= n ==> indexToSlot[k] == old(indexToSlot[k - 1])
        invariant forall k :: 0 <= k <= i || n < k < indexToSlot.Length ==> indexToSlot[k] == old(indexToSlot[k])
      {
        indexToSlot[i] := indexToSlot[i - 1];
        i := i - 1;
      }
      indexToSlot[0] := slot;
    }

    method KillText(text: Text, forward: bool)
      requires Valid()
      modifies this, indexToSlot
      ensures Valid() && Value() == Kill(old(Value()), text, forward)
    {
      if |text| == 0 { return; }
      if lastAction.KillAction? && size > 0 {
        JoinFront(text, forward);
      } else {
        AddFront(text);
      }
    }

    method JoinFront(text: Text, forward: bool)
      requires Valid() && size > 0
      modifies this`theRing
      ensures Valid()
      ensures Value() == old(Value()).(entries := old(Value()).entries[0 :=
                                         Joined(old(Value()).entries[0], text, forward)])
    {
      hide IsPermutation;
      hide ReadThrough;
      hide UpToNul;
      assert indexToSlot[..][0] < size by { FirstSlot(indexToSlot[..], size); }
      var slot := indexToSlot[0];
      var temp := if forward then theRing[slot] + text else text + theRing[slot];
      ReplacesFront(indexToSlot[..], theRing, UpToNul(temp));
      theRing := theRing[slot := UpToNul(temp)];
    }

    method AddFront(text: Text)
      requires Valid()
      modifies this`theRing, this`size, this`index, indexToSlot
      ensures Valid()
      ensures Value() == old(Value()).(entries := Newest([text] + old(Value()).entries), index := 0)
    {
      hide IsPermutation;
      hide ReadThrough;
      hide Fronted;
      if size < CAPACITY {
        AddsEntry(indexToSlot[..], theRing, text);
        PutFirst(size, size);
        size := size + 1;
        theRing := theRing + [text];
      } else {
        FirstSlot(indexToSlot[..], size);
        ReplacesOldest(indexToSlot[..], theRing, text);
        var slot := indexToSlot[CAPACITY - 1];
        theRing := theRing[slot := text];
        PutFirst(CAPACITY - 1, slot);
      }
      index := 0;
    }

    method YankText() returns (text: Option<Text>)
      requires Valid()
      ensures text == Yank(Value())
    {
      text := if size > 0 then Some(theRing[indexToSlot[index]]) else None;
    }

    method PopText() returns (text: Option<Text>)
      requires Valid()
      modifies this
      ensures Valid() && Value() == YankPop(old(Value())) && text == Yank(Value())
    {
      if size == 0 { return None; }
      index := index + 1;
      if index == size { index := 0; }
      text := Some(theRing[indexToSlot[index]]);
    }

    /** What the editor's loop does with the ring at a key; the text is what it yanks into the line. */
    method Handle(k: Key) returns (text: Option<Text>)
      requires Valid()
      modifies this, indexToSlot
      ensures Valid() && Value() == Press(old(Value()), k)
      ensures text == if k.YankKey? || (k.YankPopKey? && Value().lastAction.YankAction?) then Yank(Value()) else None
    {
      hide Kill;
      hide IsPermutation;
      hide ReadThrough;
      text := None;
      match k
      case KillKey(killed, forward) =>
        KillText(killed, forward);
        lastAction := KillAction;
      case YankKey =>
        text := YankText();
        if text.Some? { lastAction := YankAction; }
      case YankPopKey =>
        if lastAction.YankAction? { text := PopText(); }
      case OtherKey =>
        lastAction := OtherAction;
    }
  }

  lemma FirstSlot(slots: seq<nat>, size: nat)
    requires IsPermutation(slots, size) && size > 0
    ensures slots[0] < size <= CAPACITY && slots[size - 1] < size
  {
  }
}
