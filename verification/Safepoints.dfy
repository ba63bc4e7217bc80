/** Breakpoint bytes of the debug adapter: debug/safepoints.h and debug/debug-adapter.c. */
module Safepoints {
  import opened Options

  const NOP: bv8 := 0x90
  const INT3: bv8 := 0xCC

  /** The bytes of the program's code. */
  type Code = map<nat, bv8>

  datatype Entry = Entry(line: nat, addresses: seq<nat>)

  /** The safepoint entries of each file, in the order of the table. */
  type Table = seq<seq<Entry>>

  /** The active entries of one file, by their index in the file. */
  datatype Node = Node(file: nat, entries: seq<nat>)

  /** cleared, which the code does not keep, records the files whose breakpoints were set since all were enabled. */
  datatype State = State(code: Code, active: seq<Node>, enabled: bool, cleared: set<nat>)

  // ---------------------------------------------------------------- addresses

  ghost function EntryAddresses(e: Entry): set<nat> { set a | a in e.addresses }

  ghost function EntriesAddresses(entries: seq<Entry>): set<nat> { set e, a | e in entries && a in e.addresses :: a }

  ghost function TableAddresses(t: Table): set<nat> { set f, a | f in t && a in EntriesAddresses(f) :: a }

  predicate GoodNode(t: Table, n: Node) {
    n.file < |t| && forall i :: 0 <= i < |n.entries| ==> n.entries[i] < |t[n.file]|
  }

  ghost function Picked(t: Table, f: nat, entries: seq<nat>): set<nat>
    requires GoodNode(t, Node(f, entries))
  {
    set e, a | e in entries && a in t[f][e].addresses :: a
  }

  ghost function ActiveAddresses(t: Table, active: seq<Node>): set<nat> {
    set n, a | n in active && GoodNode(t, n) && a in Picked(t, n.file, n.entries) :: a
  }

  /** The code after the instruction byte is stored at each of the addresses. */
  ghost function Put(code: Code, addresses: set<nat>, inst: bv8): Code {
    map a | a in code :: if a in addresses then inst else code[a]
  }

  lemma PutTwice(code: Code, a: set<nat>, b: set<nat>, inst: bv8)
    ensures Put(Put(code, a, inst), b, inst) == Put(code, a + b, inst)
    ensures Put(code, {}, inst) == code
  {
  }

  // ---------------------------------------------------------------- requests

  /** The line of a breakpoint object is an int64_t kept in a uint64_t. */
  function LineOf(requested: int): nat { requested % 0x1_0000_0000_0000_0000 }

  function FindEntry(entries: seq<Entry>, line: nat): (found: Option<nat>)
    ensures found.None? ==> forall e :: 0 <= e < |entries| ==> entries[e].line < line
    ensures found.Some? ==> found.value < |entries| && entries[found.value].line >= line
    ensures found.Some? ==> forall e :: 0 <= e < found.value ==> entries[e].line < line
  {
    FindFrom(entries, line, 0)
  }

  function FindFrom(entries: seq<Entry>, line: nat, i: nat): (found: Option<nat>)
    requires i <= |entries|
    ensures found.None? ==> forall e :: i <= e < |entries| ==> entries[e].line < line
    ensures found.Some? ==> i <= found.value < |entries| && entries[found.value].line >= line
    ensures found.Some? ==> forall e :: i <= e < found.value ==> entries[e].line < line
    decreases |entries| - i
  {
    if i == |entries| then None else if entries[i].line >= line then Some(i) else FindFrom(entries, line, i + 1)
  }

  /**
   * A setBreakpoints request: the file that its path names, if the table has it, and the breakpoints array, if it is
   * there; an element that is an object gives its line.
   */
  datatype Request = Request(file: Option<nat>, breakpoints: Option<seq<Option<int>>>)

  /** What the response says of one breakpoint. */
  datatype Reply = Reply(entry: Option<nat>, verified: bool, line: nat)

  function ReplyTo(entries: seq<Entry>, requested: int): Reply {
    var found := FindEntry(entries, LineOf(requested));
    Reply(found, found.Some?, if found.Some? then entries[found.value].line else LineOf(requested))
  }

  function Replies(entries: seq<Entry>, breakpoints: seq<Option<int>>): seq<Reply> {
    if |breakpoints| == 0 then []
    else
      var before, last := Replies(entries, breakpoints[..|breakpoints| - 1]), breakpoints[|breakpoints| - 1];
      if last.Some? then before + [ReplyTo(entries, last.value)] else before
  }

  /** A line from 0 up stays, and a negative one becomes the large unsigned number with the same bits. */
  lemma LineIsUnsigned(requested: int)
    requires -0x8000_0000_0000_0000 <= requested <= 0x7FFF_FFFF_FFFF_FFFF
    ensures LineOf(requested) == if requested >= 0 then requested else requested + 0x1_0000_0000_0000_0000
  {
  }

  /**
   * The reply names the entry of which all earlier ones lie before the line and which does not itself, and carries that
   * entry's line; it names none and carries the line as it came exactly when all entries lie before it.
   */
  predicate Answers(entries: seq<Entry>, line: nat, reply: Reply) {
    && (reply.verified <==> reply.entry.Some?)
    && (reply.entry.None? <==> forall e :: 0 <= e < |entries| ==> entries[e].line < line)
    && match reply.entry
       case None => reply.line == line
       case Some(e) =>
         && e < |entries| && line <= entries[e].line && reply.line == entries[e].line
         && forall d :: 0 <= d < e ==> entries[d].line < line
  }

  /** There is one reply for each breakpoint that is an object, in their order, and it answers that breakpoint. */
  lemma {:induction false} RepliesAnswer(entries: seq<Entry>, breakpoints: seq<Option<int>>) returns (places: seq<nat>)
    ensures |places| == |Replies(entries, breakpoints)|
    ensures forall i, j :: 0 <= i < j < |places| ==> places[i] < places[j]
    ensures forall k :: 0 <= k < |breakpoints| ==> (k in places <==> breakpoints[k].Some?)
    ensures forall i :: 0 <= i < |places| ==>
      && places[i] < |breakpoints| && breakpoints[places[i]].Some?
      && Answers(entries, LineOf(breakpoints[places[i]].value), Replies(entries, breakpoints)[i])
    decreases |breakpoints|
  {
    hide LineOf;
    places := [];
    if |breakpoints| > 0 {
      var init, last := breakpoints[..|breakpoints| - 1], breakpoints[|breakpoints| - 1];
      places := RepliesAnswer(entries, init);
      assert forall i :: 0 <= i < |places| ==> places[i] < |init|;
      if last.Some? {
        ReplyAnswers(entries, last.value);
        hide ReplyTo;
        hide Answers;
        places := places + [|init|];
      }
    }
  }

  lemma ReplyAnswers(entries: seq<Entry>, requested: int)
    ensures Answers(entries, LineOf(requested), ReplyTo(entries, requested))
  {
    hide LineOf;
  }

  /** The entries found, each once, in the order in which they are first found. */
  function Chosen(entries: seq<Entry>, breakpoints: seq<Option<int>>): (chosen: seq<nat>)
    ensures forall i :: 0 <= i < |chosen| ==> chosen[i] < |entries|
    ensures forall i, j :: 0 <= i < j < |chosen| ==> chosen[i] != chosen[j]
  {
    if |breakpoints| == 0 then []
    else
      var before, last := Chosen(entries, breakpoints[..|breakpoints| - 1]), breakpoints[|breakpoints| - 1];
      if last.None? then before
      else
        var found := FindEntry(entries, LineOf(last.value));
        if found.None? || found.value in before then before else before + [found.value]
  }

  /** An entry is chosen exactly when a requested line is after the lines of all earlier entries, not after its own. */
  lemma {:induction false} ChosenAreFirstAtOrAfter(entries: seq<Entry>, breakpoints: seq<Option<int>>, e: nat)
    requires e < |entries|
    ensures e in Chosen(entries, breakpoints)
       <==> exists b :: b in breakpoints && b.Some? && LineOf(b.value) <= entries[e].line
                        && forall d :: 0 <= d < e ==> entries[d].line < LineOf(b.value)
  {
    if |breakpoints| > 0 {
      var init, last := breakpoints[..|breakpoints| - 1], breakpoints[|breakpoints| - 1];
      ChosenAreFirstAtOrAfter(entries, init, e);
      assert breakpoints == init + [last];
      hide LineOf;
    }
  }

  // ---------------------------------------------------------------- steps

  function Without(active: seq<Node>, f: nat): seq<Node> {
    if |active| == 0 then []
    else if active[0].file == f then active[1..]
    else [active[0]] + Without(active[1..], f)
  }

  predicate GoodRequest(t: Table, r: Request) { r.file.Some? ==> r.file.value < |t| }

  datatype Command = EnableAll | DisableAll | SetBreakpoints(request: Request)

  ghost function EnableAllStep(t: Table, s: State): State {
    if s.enabled then s else s.(code := Put(s.code, TableAddresses(t), INT3), enabled := true, cleared := {})
  }

  ghost function DisableAllStep(t: Table, s: State): State {
    if !s.enabled then s
    else
      s.(code := Put(Put(s.code, TableAddresses(t), NOP), ActiveAddresses(t, s.active), INT3), enabled := false)
  }

  ghost function SetStep(t: Table, s: State, r: Request): State
    requires GoodRequest(t, r)
  {
    if r.file.None? then s
    else
      var f := r.file.value;
      var code, active := Put(s.code, EntriesAddresses(t[f]), NOP), Without(s.active, f);
      var cleared := s.cleared + {f};
      if r.breakpoints.None? then State(code, active, s.enabled, cleared)
      else
        var chosen := Chosen(t[f], r.breakpoints.value);
        State(
          if s.enabled then code else Put(code, Picked(t, f, chosen), INT3),
          if chosen == [] then active else [Node(f, chosen)] + active,
          s.enabled,
          cleared
        )
  }

  ghost function Step(t: Table, s: State, c: Command): State
    requires c.SetBreakpoints? ==> GoodRequest(t, c.request)
  {
    match c
    case EnableAll => EnableAllStep(t, s)
    case DisableAll => DisableAllStep(t, s)
    case SetBreakpoints(r) => SetStep(t, s, r)
  }

  // ---------------------------------------------------------------- the invariant

  /** No two entries share an address. */
  ghost predicate Disjoint(t: Table) {
    forall f, e, g, d, a ::
      0 <= f < |t| && 0 <= e < |t[f]| && 0 <= g < |t| && 0 <= d < |t[g]|
      && a in t[f][e].addresses && a in t[g][d].addresses
      ==> f == g && e == d
  }

  predicate IsActive(active: seq<Node>, f: nat, e: nat) { exists n :: n in active && n.file == f && e in n.entries }

  predicate OneNodePerFile(active: seq<Node>) {
    && (forall i, j :: 0 <= i < j < |active| ==> active[i].file != active[j].file)
    && (forall n :: n in active ==> n.entries != [])
    && (forall n, i, j :: n in active && 0 <= i < j < |n.entries| ==> n.entries[i] != n.entries[j])
  }

  /** What the bytes of an entry hold. */
  function ByteOf(s: State, f: nat, e: nat): bv8 {
    if (if s.enabled then f !in s.cleared else IsActive(s.active, f, e)) then INT3 else NOP
  }

  ghost predicate BytesAgree(t: Table, s: State) {
    forall f, e, a :: 0 <= f < |t| && 0 <= e < |t[f]| && a in t[f][e].addresses ==>
      a in s.code && s.code[a] == ByteOf(s, f, e)
  }

  ghost predicate Inv(t: Table, s: State) {
    && Disjoint(t) && (forall n :: n in s.active ==> GoodNode(t, n))
    && OneNodePerFile(s.active) && BytesAgree(t, s)
  }

  lemma TableHas(t: Table, f: nat, e: nat, a: nat)
    requires f < |t| && e < |t[f]| && a in t[f][e].addresses
    ensures a in TableAddresses(t) && a in EntriesAddresses(t[f])
  {
    assert t[f] in t && t[f][e] in t[f];
    assert a in EntriesAddresses(t[f]);
  }

  lemma EnableKeepsInv(t: Table, s: State)
    requires Inv(t, s)
    ensures Inv(t, EnableAllStep(t, s))
  {
    forall f, e, a | 0 <= f < |t| && 0 <= e < |t[f]| && a in t[f][e].addresses
      ensures a in TableAddresses(t)
    {
      TableHas(t, f, e, a);
    }
    hide TableAddresses;
    hide IsActive;
  }

  lemma InActive(t: Table, active: seq<Node>, f: nat, e: nat, a: nat)
    requires Disjoint(t) && (forall n :: n in active ==> GoodNode(t, n))
    requires f < |t| && e < |t[f]| && a in t[f][e].addresses
    ensures a in ActiveAddresses(t, active) <==> IsActive(active, f, e)
  {
    if a in ActiveAddresses(t, active) {
      var n :| n in active && a in Picked(t, n.file, n.entries);
      var d :| d in n.entries && a in t[n.file][d].addresses;
      assert n.file == f && d == e;
    }
    if IsActive(active, f, e) {
      var n :| n in active && n.file == f && e in n.entries;
      assert a in Picked(t, n.file, n.entries);
    }
  }

  lemma DisableKeepsInv(t: Table, s: State)
    requires Inv(t, s)
    ensures Inv(t, DisableAllStep(t, s))
  {
    forall f, e, a | 0 <= f < |t| && 0 <= e < |t[f]| && a in t[f][e].addresses
      ensures a in TableAddresses(t) && (a in ActiveAddresses(t, s.active) <==> IsActive(s.active, f, e))
    {
      TableHas(t, f, e, a);
      InActive(t, s.active, f, e, a);
    }
    hide TableAddresses;
    hide ActiveAddresses;
    hide IsActive;
    hide Disjoint;
  }

  lemma {:induction false} WithoutDrops(active: seq<Node>, f: nat)
    requires OneNodePerFile(active)
    ensures OneNodePerFile(Without(active, f))
    ensures forall n :: n in Without(active, f) <==> n in active && n.file != f
  {
    if |active| > 0 {
      assert active == [active[0]] + active[1..];
      if active[0].file != f {
        WithoutDrops(active[1..], f);
      }
    }
  }

  lemma InFile(t: Table, f: nat, g: nat, e: nat, a: nat)
    requires Disjoint(t) && f < |t| && g < |t| && e < |t[g]| && a in t[g][e].addresses
    ensures a in EntriesAddresses(t[f]) <==> f == g
  {
    if a in EntriesAddresses(t[f]) {
      var d :| 0 <= d < |t[f]| && a in t[f][d].addresses;
    }
    if f == g {
      assert t[f][e] in t[f];
    }
  }

  lemma InPicked(t: Table, f: nat, entries: seq<nat>, g: nat, e: nat, a: nat)
    requires Disjoint(t) && GoodNode(t, Node(f, entries)) && g < |t| && e < |t[g]| && a in t[g][e].addresses
    ensures a in Picked(t, f, entries) <==> f == g && e in entries
  {
    if a in Picked(t, f, entries) {
      var d :| d in entries && a in t[f][d].addresses;
    }
  }

  lemma ActiveAfterSet(active: seq<Node>, f: nat, chosen: seq<nat>, g: nat, e: nat)
    requires OneNodePerFile(active)
    requires forall i, j :: 0 <= i < j < |chosen| ==> chosen[i] != chosen[j]
    ensures var now := if chosen == [] then Without(active, f) else [Node(f, chosen)] + Without(active, f);
      && OneNodePerFile(now)
      && (IsActive(now, g, e) <==> if f == g then e in chosen else IsActive(active, g, e))
  {
    WithoutDrops(active, f);
    var rest := Without(active, f);
    assert IsActive(rest, g, e) <==> f != g && IsActive(active, g, e);
    if chosen != [] {
      var now := [Node(f, chosen)] + rest;
      assert now[1..] == rest;
      assert IsActive(now, g, e) <==> (f == g && e in chosen) || IsActive(rest, g, e) by {
        assert now[0] in now;
        assert forall n :: n in now <==> n == Node(f, chosen) || n in rest;
      }
    }
  }

  function ChosenBy(t: Table, r: Request): (chosen: seq<nat>)
    requires GoodRequest(t, r) && r.file.Some?
    ensures GoodNode(t, Node(r.file.value, chosen))
    ensures forall i, j :: 0 <= i < j < |chosen| ==> chosen[i] != chosen[j]
  {
    if r.breakpoints.None? then [] else Chosen(t[r.file.value], r.breakpoints.value)
  }

  lemma SetByte(t: Table, s: State, r: Request, g: nat, e: nat, a: nat)
    requires Inv(t, s) && GoodRequest(t, r) && r.file.Some?
    requires g < |t| && e < |t[g]| && a in t[g][e].addresses
    ensures var now := SetStep(t, s, r); a in now.code && now.code[a] == ByteOf(now, g, e)
  {
    var f, chosen := r.file.value, ChosenBy(t, r);
    InFile(t, f, g, e, a);
    InPicked(t, f, chosen, g, e, a);
    assert Picked(t, f, []) == {};
    ActiveAfterSet(s.active, f, chosen, g, e);
    assert a in s.code && s.code[a] == ByteOf(s, g, e);
    hide Picked;
    hide EntriesAddresses;
    hide Inv;
    hide IsActive;
    hide OneNodePerFile;
    hide Without;
    hide Chosen;
  }

  lemma SetKeepsInv(t: Table, s: State, r: Request)
    requires Inv(t, s) && GoodRequest(t, r)
    ensures Inv(t, SetStep(t, s, r))
  {
    if r.file.Some? {
      WithoutDrops(s.active, r.file.value);
      ActiveAfterSet(s.active, r.file.value, ChosenBy(t, r), 0, 0);
      forall g, e, a | 0 <= g < |t| && 0 <= e < |t[g]| && a in t[g][e].addresses
        ensures a in SetStep(t, s, r).code && SetStep(t, s, r).code[a] == ByteOf(SetStep(t, s, r), g, e)
      {
        SetByte(t, s, r, g, e, a);
      }
      hide IsActive;
      hide OneNodePerFile;
      hide Disjoint;
      hide Put;
      hide ByteOf;
      hide Chosen;
      hide Without;
      hide Picked;
      hide EntriesAddresses;
    }
  }

  lemma StepKeepsInv(t: Table, s: State, c: Command)
    requires Inv(t, s) && (c.SetBreakpoints? ==> GoodRequest(t, c.request))
    ensures Inv(t, Step(t, s, c))
  {
    hide Inv;
    match c
    case EnableAll => EnableKeepsInv(t, s);
    case DisableAll => DisableKeepsInv(t, s);
    case SetBreakpoints(r) => SetKeepsInv(t, s, r);
  }

  // ---------------------------------------------------------------- runs

  predicate GoodRun(t: Table, cs: seq<Command>) {
    forall c :: c in cs && c.SetBreakpoints? ==> GoodRequest(t, c.request)
  }

  ghost function Run(t: Table, s: State, cs: seq<Command>): State
    requires GoodRun(t, cs)
  {
    if |cs| == 0 then s else Step(t, Run(t, s, cs[..|cs| - 1]), cs[|cs| - 1])
  }

  /** At the start every safepoint is a NOP, nothing is active and the flag is off. */
  ghost predicate Fresh(t: Table, s: State) {
    && Disjoint(t) && s.active == [] && !s.enabled
    && forall f, e, a :: 0 <= f < |t| && 0 <= e < |t[f]| && a in t[f][e].addresses ==> a in s.code && s.code[a] == NOP
  }

  lemma {:induction false} RunKeepsInv(t: Table, s: State, cs: seq<Command>)
    requires Fresh(t, s) && GoodRun(t, cs)
    ensures Inv(t, Run(t, s, cs))
    decreases |cs|
  {
    if |cs| > 0 {
      assert cs[|cs| - 1] in cs;
      RunKeepsInv(t, s, cs[..|cs| - 1]);
      StepKeepsInv(t, Run(t, s, cs[..|cs| - 1]), cs[|cs| - 1]);
      hide Inv;
      hide Step;
    }
  }

  /** The entries that the last request for the file chose. */
  function LastChosen(t: Table, cs: seq<Command>, f: nat): seq<nat>
    requires f < |t|
  {
    if |cs| == 0 then []
    else
      var c := cs[|cs| - 1];
      if c.SetBreakpoints? && GoodRequest(t, c.request) && c.request.file == Some(f) then ChosenBy(t, c.request)
      else LastChosen(t, cs[..|cs| - 1], f)
  }

  lemma {:induction false} ActiveAreLastChosen(t: Table, s: State, cs: seq<Command>, f: nat, e: nat)
    requires Fresh(t, s) && GoodRun(t, cs) && f < |t|
    ensures IsActive(Run(t, s, cs).active, f, e) <==> e in LastChosen(t, cs, f)
    decreases |cs|
  {
    if |cs| > 0 {
      assert cs[|cs| - 1] in cs;
      var before, c := Run(t, s, cs[..|cs| - 1]), cs[|cs| - 1];
      RunKeepsInv(t, s, cs[..|cs| - 1]);
      ActiveAreLastChosen(t, s, cs[..|cs| - 1], f, e);
      hide IsActive;
      if c.SetBreakpoints? && c.request.file.Some? {
        ActiveAfterSet(before.active, c.request.file.value, ChosenBy(t, c.request), f, e);
      }
    }
  }

  /** The flag is on when the last enabling or disabling was an enabling. */
  predicate FlagAfter(cs: seq<Command>) {
    && |cs| > 0
    && match cs[|cs| - 1]
       case EnableAll => true
       case DisableAll => false
       case SetBreakpoints(_) => FlagAfter(cs[..|cs| - 1])
  }

  /** A request for the file came after the command that turned the flag on; enabling once more changes nothing. */
  predicate RequestedSince(cs: seq<Command>, f: nat) {
    && |cs| > 0
    && var before := cs[..|cs| - 1];
       match cs[|cs| - 1]
       case EnableAll => FlagAfter(before) && RequestedSince(before, f)
       case DisableAll => false
       case SetBreakpoints(r) => r.file == Some(f) || RequestedSince(before, f)
  }

  lemma {:induction false} FlagIsLastSwitch(t: Table, s: State, cs: seq<Command>, f: nat)
    requires !s.enabled && GoodRun(t, cs)
    ensures Run(t, s, cs).enabled <==> FlagAfter(cs)
    ensures FlagAfter(cs) ==> (f in Run(t, s, cs).cleared <==> RequestedSince(cs, f))
    decreases |cs|
  {
    hide Put;
    hide Chosen;
    hide Without;
    if |cs| > 0 {
      assert cs[|cs| - 1] in cs;
      FlagIsLastSwitch(t, s, cs[..|cs| - 1], f);
    }
  }

  /**
   * After any run of commands, while the flag is off, a safepoint's byte is INT3 exactly when the last request for its
   * file chose its entry, and NOP otherwise; while the flag is on it is NOP exactly when a request for its file came
   * since the flag was turned on, and INT3 otherwise.
   */
  lemma RunIsExact(t: Table, s: State, cs: seq<Command>, f: nat, e: nat, a: nat)
    requires Fresh(t, s) && GoodRun(t, cs) && f < |t| && e < |t[f]| && a in t[f][e].addresses
    ensures var now := Run(t, s, cs);
      && (now.enabled <==> FlagAfter(cs)) && a in now.code
      && (!FlagAfter(cs) ==> now.code[a] == if e in LastChosen(t, cs, f) then INT3 else NOP)
      && (FlagAfter(cs) ==> now.code[a] == if RequestedSince(cs, f) then NOP else INT3)
  {
    RunKeepsInv(t, s, cs);
    ActiveAreLastChosen(t, s, cs, f, e);
    FlagIsLastSwitch(t, s, cs, f);
    hide Run;
    hide IsActive;
  }

  lemma PickedInTable(t: Table, f: nat, entries: seq<nat>)
    requires GoodNode(t, Node(f, entries))
    ensures Picked(t, f, entries) <= EntriesAddresses(t[f]) <= TableAddresses(t)
  {
    assert t[f] in t;
    forall e, a | e in entries && a in t[f][e].addresses
      ensures a in EntriesAddresses(t[f])
    {
      TableHas(t, f, e, a);
    }
  }

  /** No byte that belongs to no safepoint is ever written. */
  lemma {:induction false} OtherBytesStay(t: Table, s: State, cs: seq<Command>, a: nat)
    requires Fresh(t, s) && GoodRun(t, cs) && a !in TableAddresses(t) && a in s.code
    ensures a in Run(t, s, cs).code && Run(t, s, cs).code[a] == s.code[a]
    decreases |cs|
  {
    if |cs| > 0 {
      assert cs[|cs| - 1] in cs;
      OtherBytesStay(t, s, cs[..|cs| - 1], a);
      var before := Run(t, s, cs[..|cs| - 1]);
      forall f: nat, entries: seq<nat> | GoodNode(t, Node(f, entries))
        ensures a !in Picked(t, f, entries) && a !in EntriesAddresses(t[f])
      {
        PickedInTable(t, f, entries);
      }
      RunKeepsInv(t, s, cs[..|cs| - 1]);
      assert a !in ActiveAddresses(t, before.active);
      hide TableAddresses;
      hide EntriesAddresses;
      hide ActiveAddresses;
      hide Picked;
      hide Inv;
    }
  }
}
