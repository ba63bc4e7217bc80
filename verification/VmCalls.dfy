/** What a caller and a suspended coroutine get back, over whole runs of the interpreter. */
module VmCalls {
  import opened VmStack

  // ---------------------------------------------------------------- one stack seen on its own

  function SpOf(s: State, k: nat): int
    requires k in s.stacks
  {
    if s.current == k then s.sp else s.stacks[k].sp
  }

  function PcOf(s: State, k: nat): int
    requires k in s.stacks
  {
    if s.current == k then s.pc else s.stacks[k].pc
  }

  /** The walk over the headers from `sp` passes the frame at `b`. */
  ghost predicate Passes(code: Code, mem: map<int, int>, sp: int, r: int, b: int)
    decreases sp
  {
    || sp == b
    || (b < sp && 0 <= r < |code.instrs| && code.instrs[r].PopFrame? && 0 <= b
        && var base := sp - HEADER - 8 * code.instrs[r].num_locals;
           Passes(code, mem, base, Read(mem, base), b))
  }

  /** The frame at `b` of a stack is still there, and the words up to its header are those of `mem0`. */
  ghost predicate Holding(code: Code, s: State, k: nat, b: int, mem0: map<int, int>) {
    && k in s.stacks && k in s.entered && 0 < b && 0 <= PcOf(s, k) < |code.instrs|
    && (forall a :: a < b + 8 ==> Read(s.stacks[k].mem, a) == Read(mem0, a))
    && var mem, sp, pc := s.stacks[k].mem, SpOf(s, k), PcOf(s, k);
       if code.instrs[pc].PopFrame? then b < sp && Passes(code, mem, sp, pc, b)
       else Passes(code, mem, sp, Read(mem, sp), b)
  }

  /** The turn that ends the frame at `b`. */
  predicate Ends(code: Code, s: State, k: nat, b: int) {
    s.current == k && s.phase == Running && 0 <= s.pc < |code.instrs| && code.instrs[s.pc] == Return && s.sp == b
  }

  lemma {:induction false} PassesSame(code: Code, mem: map<int, int>, mem': map<int, int>, sp: int, r: int, b: int)
    requires Passes(code, mem, sp, r, b) && forall a :: a < sp ==> Read(mem', a) == Read(mem, a)
    ensures Passes(code, mem', sp, r, b)
    decreases sp
  {
    hide Read;
    if sp != b {
      var base := sp - HEADER - 8 * code.instrs[r].num_locals;
      PassesSame(code, mem, mem', base, Read(mem, base), b);
    }
  }

  lemma {:induction false} PassesAbove(code: Code, mem: map<int, int>, sp: int, r: int, b: int)
    requires Passes(code, mem, sp, r, b)
    ensures b <= sp
  {
  }

  /** A turn on the stack itself, other than the return from `b`, leaves the frame at `b` alone. */
  lemma LocalHolds(code: Code, s: State, ch: Choice, b: int, mem0: map<int, int>)
    requires Static(code) && Inv(code, s) && s.phase == Running && CanStep(code, s, ch) && Local(code, s)
    requires Holding(code, s, s.current, b, mem0)
    ensures Holding(code, Step(code, s, ch), s.current, b, mem0)
  {
    assert StaticAt(code, s.pc);
    LocalStep(code, s, ch);
    var t := Step(code, s, ch);
    if code.instrs[s.pc].PopFrame? {
      assert Mem(t) == Mem(s);
    } else {
      PassesAbove(code, Mem(s), s.sp, Read(Mem(s), s.sp), b);
      PassesSame(code, Mem(s), Mem(t), s.sp, Read(Mem(s), s.sp), b);
    }
    hide Linked;
  }

  /** A stack that is not running keeps its frames, stack pointer and resume pc, and has them when it is resumed. */
  lemma OtherStackKept(code: Code, s: State, ch: Choice, k: nat)
    requires Static(code) && Inv(code, s) && CanStep(code, s, ch) && k in s.entered && k != s.current
    ensures var t := Step(code, s, ch);
      && k in t.stacks && k in t.entered && t.stacks[k] == s.stacks[k].(size := t.stacks[k].size)
      && s.stacks[k].size <= t.stacks[k].size
      && (k != s.system ==> k != t.system && t.stacks[k] == s.stacks[k])
      && (t.current == k ==> t.phase == Running && t.sp == s.stacks[k].sp && t.pc == s.stacks[k].pc)
  {
    hide Linked;
    hide InOrder;
    hide FreshStack;
    hide Waiting;
    hide Static;
  }

  lemma SwitchHolds(code: Code, s: State, ch: Choice, b: int, mem0: map<int, int>)
    requires Static(code) && Inv(code, s) && s.phase == Running && CanStep(code, s, ch) && !Local(code, s)
    requires Holding(code, s, s.current, b, mem0) && !Ends(code, s, s.current, b)
    ensures Holding(code, Step(code, s, ch), s.current, b, mem0)
  {
    hide Linked;
    assert StaticAt(code, s.pc);
  }

  /** Whatever any stack does, short of the return from `b` itself. */
  lemma StepHolds(code: Code, s: State, ch: Choice, k: nat, b: int, mem0: map<int, int>)
    requires Static(code) && Inv(code, s) && CanStep(code, s, ch)
    requires Holding(code, s, k, b, mem0) && !Ends(code, s, k, b)
    ensures Holding(code, Step(code, s, ch), k, b, mem0)
  {
    if k != s.current {
      OtherStackKept(code, s, ch, k);
      hide Step;
      hide Inv;
    } else if Local(code, s) {
      LocalHolds(code, s, ch, b, mem0);
    } else {
      SwitchHolds(code, s, ch, b, mem0);
    }
  }

  lemma {:induction false} RunHolds(code: Code, states: seq<State>, chs: seq<Choice>, k: nat,
                                    b: int, mem0: map<int, int>)
    requires Static(code) && IsRun(code, states, chs) && Inv(code, states[0]) && Holding(code, states[0], k, b, mem0)
    requires forall i :: 0 <= i < |chs| ==> !Ends(code, states[i], k, b)
    ensures Inv(code, states[|chs|]) && Holding(code, states[|chs|], k, b, mem0)
    decreases |chs|
  {
    hide Inv;
    hide Step;
    hide Static;
    hide Ends;
    hide Holding;
    if |chs| > 0 {
      StepKeepsInv(code, states[0], chs[0]);
      StepHolds(code, states[0], chs[0], k, b, mem0);
      RunHolds(code, states[1..], chs[1..], k, b, mem0);
    }
  }

  // ---------------------------------------------------------------- locals

  /** All locals of the current frame. */
  function Frame(s: State, n: nat): (locals: seq<int>)
    requires s.current in s.stacks
    ensures |locals| == n
  {
    seq(n, l requires 0 <= l < n => Read(Mem(s), Slot(s.sp, l)))
  }

  /**
   * What stays in the frame keeps its return pc. A move sets one local and no other, a branch and the noting of live
   * locals change none, and a foreign call none of those that it leaves below its header.
   */
  lemma FrameAfter(code: Code, s: State, ch: Choice)
    requires Static(code) && Inv(code, s) && s.phase == Running && CanStep(code, s, ch)
    requires var i := code.instrs[s.pc]; i.Move? || i.Jump? || i.Live? || i.CallC?
    ensures var t, f, args := Step(code, s, ch), code.frame[s.pc], Args(code, s);
      && t.current == s.current && t.current in t.stacks && t.sp == s.sp && Read(Mem(t), t.sp) == Read(Mem(s), s.sp)
      && t.pc == (if code.instrs[s.pc].Jump? && ch.taken(args) then code.instrs[s.pc].target else s.pc + 1)
      && match code.instrs[s.pc]
         case Move(dst, _) => dst < f && Frame(t, f) == Frame(s, f)[dst := ch.result(args)]
         case CallC(n, _) => n <= f && Frame(t, n) == Frame(s, n)
         case Live => Frame(t, f) == Frame(s, f) && Read(Mem(t), t.sp + 8) == ch.live
         case _ => Frame(t, f) == Frame(s, f)
  {
    hide Linked;
    hide Args;
    assert StaticAt(code, s.pc);
  }

  // ---------------------------------------------------------------- calls

  /** A call, a tail call and the start of a coroutine lead to the entry of the function that the locals name. */
  lemma EntersCallee(code: Code, s: State, ch: Choice)
    requires Static(code) && Inv(code, s) && s.phase == Running && CanStep(code, s, ch)
    requires var i := code.instrs[s.pc]; i.Call? || i.TCall? || i.EnterStack?
    ensures var t, args := Step(code, s, ch), Args(code, s);
      var fid := if code.instrs[s.pc].EnterStack? then s.stacks[ch.stack(args)].pc else ch.callee(args);
      && 0 <= fid < |code.offsets| && t.pc == code.offsets[fid] < |code.instrs| && code.instrs[t.pc].FnEntry?
      && t.current == (if code.instrs[s.pc].EnterStack? then ch.stack(args) else s.current)
      && t.sp == match code.instrs[s.pc] case Call(n, _) => Pushed(s.sp, n) case TCall(_) => s.sp case _ => 0
  {
    hide Linked;
    hide Args;
  }

  lemma CallHolds(code: Code, s: State, ch: Choice)
    requires Static(code) && Inv(code, s) && s.phase == Running && CanStep(code, s, ch) && code.instrs[s.pc].Call?
    ensures var t := Step(code, s, ch);
      Holding(code, t, s.current, Pushed(s.sp, code.instrs[s.pc].num_locals), Mem(t))
  {
    hide Linked;
    assert StaticAt(code, s.pc);
  }

  /**
   * A call, any run of the callee (with calls, tail calls, coroutine switches and stack extensions of its own), the
   * callee's return and the pop at the return site: the caller has its stack pointer, its frame and everything below
   * it back, and continues after the pop.
   */
  lemma CalleeGivesBack(code: Code, states: seq<State>, chs: seq<Choice>)
    requires Static(code) && IsRun(code, states, chs) && |chs| >= 3
    requires Inv(code, states[0]) && states[0].phase == Running && code.instrs[states[0].pc].Call?
    requires var k, b := states[0].current, Pushed(states[0].sp, code.instrs[states[0].pc].num_locals);
      && Ends(code, states[|chs| - 2], k, b)
      && forall i :: 1 <= i < |chs| - 2 ==> !Ends(code, states[i], k, b)
    ensures var first, last := states[0], states[|chs|];
      && last.current == first.current && last.current in last.stacks && last.phase == Running
      && last.sp == first.sp && last.pc == first.pc + 2
      && forall a :: a < Pushed(first.sp, code.instrs[first.pc].num_locals) ==>
           Read(Mem(last), a) == Read(Mem(first), a)
  {
    var s, n := states[0], |chs|;
    var k, b := s.current, Pushed(s.sp, code.instrs[s.pc].num_locals);
    var called, ending := states[1], states[n - 2];
    StepKeepsInv(code, s, chs[0]);
    CallHolds(code, s, chs[0]);
    CallWrites(code, s, chs[0]);
    hide Inv;
    hide Step;
    hide Static;
    RunHolds(code, states[1..n - 1], chs[1..n - 2], k, b, Mem(called));
    assert states[1..n - 1][n - 3] == ending;
    ReturnAndPop(code, s, Mem(called), ending, chs[n - 2], chs[n - 1]);
  }

  lemma CallWrites(code: Code, s: State, ch: Choice)
    requires Static(code) && Inv(code, s) && s.phase == Running && CanStep(code, s, ch) && code.instrs[s.pc].Call?
    ensures var t, b := Step(code, s, ch), Pushed(s.sp, code.instrs[s.pc].num_locals);
      && Read(Mem(t), b) == s.pc + 1 && forall a :: a < b ==> Read(Mem(t), a) == Read(Mem(s), a)
    ensures s.pc + 1 < |code.instrs| && code.instrs[s.pc + 1] == PopFrame(code.instrs[s.pc].num_locals)
  {
    hide Linked;
    assert StaticAt(code, s.pc);
  }

  lemma ReturnAndPop(code: Code, s: State, mem0: map<int, int>, ending: State, ch: Choice, ch': Choice)
    requires 0 <= s.pc && s.pc + 1 < |code.instrs| && code.instrs[s.pc].Call?
    requires code.instrs[s.pc + 1] == PopFrame(code.instrs[s.pc].num_locals)
    requires var b := Pushed(s.sp, code.instrs[s.pc].num_locals);
      && Holding(code, ending, s.current, b, mem0) && Ends(code, ending, s.current, b) && Read(mem0, b) == s.pc + 1
    requires CanStep(code, ending, ch) && CanStep(code, Step(code, ending, ch), ch')
    ensures Step(code, Step(code, ending, ch), ch') == ending.(sp := s.sp, pc := s.pc + 2)
  {
    hide Passes;
    assert Step(code, ending, ch) == ending.(pc := s.pc + 1);
  }

  // ---------------------------------------------------------------- the stack check

  function RoomFor(locals: nat): nat { locals * 8 + HEADER + HEADER }

  lemma EntryStep(code: Code, s: State, ch: Choice)
    requires Static(code) && Inv(code, s) && s.phase == Running && CanStep(code, s, ch) && code.instrs[s.pc].FnEntry?
    ensures var t, required := Step(code, s, ch), RoomFor(code.instrs[s.pc].locals);
      if s.sp + required <= s.limit then t == s.(pc := s.pc + 1)
      else
        && t.phase == Extending(required) && t.current == s.system != s.current && t.system == s.current
        && s.current in t.stacks && t.stacks[s.current] == s.stacks[s.current].(sp := s.sp, pc := s.pc + 1)
        && t.current in t.stacks && t.sp == 0 && Read(Mem(t), 0) == SYSTEM_RETURN_STUB
        && 0 <= t.pc && t.pc + 1 < |code.instrs| && code.instrs[t.pc] == ExtendStack && code.instrs[t.pc + 1] == Return
  {
    hide Linked;
    ExtenderIs(code);
    hide Static;
  }

  lemma ExtenderRuns(code: Code, s: State, ch: Choice, ch': Choice, required: nat)
    requires s.phase == Extending(required) && CanStep(code, s, ch) && CanStep(code, Step(code, s, ch), ch')
    requires s.system != s.current && s.pc + 1 < |code.instrs|
    requires code.instrs[s.pc] == ExtendStack && code.instrs[s.pc + 1] == Return
    requires s.sp == 0 && Read(Mem(s), 0) == SYSTEM_RETURN_STUB
    ensures var waiting, t := s.stacks[s.system], Step(code, Step(code, s, ch), ch');
      && Step(code, s, ch).current == s.current
      && t.current == s.system && t.current in t.stacks && t.phase == Running
      && t.sp == waiting.sp && t.pc == waiting.pc && Mem(t) == waiting.mem
      && waiting.size <= t.limit && waiting.sp + required <= t.limit
  {
  }

  /**
   * A function's entry goes on to the next instruction at once exactly when its frame and one more header fit below the
   * limit. Otherwise it does so after the extender ran, on the same stack with the same contents, and then they fit.
   */
  lemma EntryMakesRoom(code: Code, states: seq<State>, chs: seq<Choice>)
    requires Static(code) && IsRun(code, states, chs) && |chs| >= 3
    requires Inv(code, states[0]) && states[0].phase == Running && code.instrs[states[0].pc].FnEntry?
    ensures var s, required := states[0], RoomFor(code.instrs[states[0].pc].locals);
      var after := states[if s.sp + required <= s.limit then 1 else 3];
      && s.current in s.stacks && after.current == s.current && s.current in after.stacks && after.phase == Running
      && after.sp == s.sp && after.pc == s.pc + 1 && Mem(after) == Mem(s)
      && s.sp + required <= after.limit && s.limit <= after.limit
      && (s.sp + required > s.limit ==> states[1].current != s.current && states[2].current != s.current)
  {
    hide Inv;
    hide Static;
    hide Step;
    var s := states[0];
    assert s.limit == s.stacks[s.current].size by { LimitIsSize(code, s); }
    EntryStep(code, s, chs[0]);
    if s.sp + RoomFor(code.instrs[s.pc].locals) > s.limit {
      ExtenderRuns(code, states[1], chs[1], chs[2], RoomFor(code.instrs[s.pc].locals));
    }
  }

  lemma LimitIsSize(code: Code, s: State)
    requires Inv(code, s)
    ensures s.current in s.stacks && s.limit == s.stacks[s.current].size
  {
  }

  lemma ExtenderIs(code: Code)
    requires Static(code)
    ensures EXTEND_STACK_FN < |code.offsets| && code.offsets[EXTEND_STACK_FN] < |code.instrs|
    ensures var e := code.offsets[EXTEND_STACK_FN];
      code.instrs[e] == ExtendStack && e + 1 < |code.instrs| && code.instrs[e + 1] == Return
  {
    assert StaticAt(code, code.offsets[EXTEND_STACK_FN]);
  }

  // ---------------------------------------------------------------- coroutines

  /**
   * A coroutine that yields and is resumed by any later yield to it, or by its own, continues after its own yield with
   * the stack pointer and the whole memory it had, whatever the other stacks did in between.
   */
  lemma {:induction false} YieldResumes(code: Code, states: seq<State>, chs: seq<Choice>, k: nat)
    requires Static(code) && IsRun(code, states, chs) && |chs| >= 1
    requires Inv(code, states[0]) && states[0].phase == Running && states[0].current == k
    requires code.instrs[states[0].pc].Yield? || code.instrs[states[0].pc].EnterStack?
    requires (forall i :: 0 < i < |chs| ==> states[i].current != k) && states[|chs|].current == k
    ensures var first, last := states[0], states[|chs|];
      && k in last.stacks && last.phase == Running
      && last.sp == first.sp && last.pc == first.pc + 1 && Mem(last) == Mem(first) && last.limit == first.limit
  {
    var saved := states[0].stacks[k].(sp := states[0].sp, pc := states[0].pc + 1);
    YieldSaves(code, states[0], chs[0]);
    if |chs| == 1 { return; }
    StepKeepsInv(code, states[0], chs[0]);
    hide Inv;
    hide Step;
    hide Static;
    Suspended(code, states[1..], chs[1..], k, saved);
  }

  lemma YieldSaves(code: Code, s: State, ch: Choice)
    requires Static(code) && Inv(code, s) && s.phase == Running && CanStep(code, s, ch)
    requires code.instrs[s.pc].Yield? || code.instrs[s.pc].EnterStack?
    ensures var t, k := Step(code, s, ch), s.current;
      && k in t.entered && k in t.stacks && k != t.system && t.current == ch.stack(Args(code, s)) && t.phase == Running
      && t.stacks[k] == s.stacks[k].(sp := s.sp, pc := s.pc + 1) && t.stacks[k].size == s.limit
      && (ch.stack(Args(code, s)) == k ==> t.sp == s.sp && t.pc == s.pc + 1 && t.limit == s.limit)
  {
    hide Linked;
  }

  /** While other stacks run, a suspended stack is not touched; the run ends with it resumed. */
  lemma {:induction false} Suspended(code: Code, states: seq<State>, chs: seq<Choice>, k: nat, saved: Stack)
    requires Static(code) && IsRun(code, states, chs) && |chs| > 0 && Inv(code, states[0])
    requires k in states[0].entered && k in states[0].stacks && k != states[0].system && states[0].stacks[k] == saved
    requires (forall i :: 0 <= i < |chs| ==> states[i].current != k) && states[|chs|].current == k
    ensures var last := states[|chs|];
      k in last.stacks && last.phase == Running && last.stacks[k] == saved && last.sp == saved.sp && last.pc == saved.pc
    ensures states[|chs|].limit == saved.size
    decreases |chs|
  {
    OtherStackKept(code, states[0], chs[0], k);
    StepKeepsInv(code, states[0], chs[0]);
    if |chs| == 1 {
      assert states[1].limit == states[1].stacks[k].size by {
        hide Linked;
        hide Step;
      }
    } else {
      hide Inv;
      hide Step;
      hide Static;
      assert states[1].current != k;
      Suspended(code, states[1..], chs[1..], k, saved);
    }
  }

  // ---------------------------------------------------------------- tail calls

  /**
   * Moves, jumps, tail calls and function entries, however many, use no stack: stack pointer and return pc stay put, on
   * the same stack, through any number of stack extensions.
   */
  predicate PushesNothing(code: Code, s: State) {
    && 0 <= s.pc < |code.instrs|
    && var i := code.instrs[s.pc]; i.Move? || i.Jump? || i.TCall? || i.Live? || i.FnEntry? || s.phase != Running
  }

  lemma TailStep(code: Code, s: State, ch: Choice, k: nat)
    requires Static(code) && Inv(code, s) && CanStep(code, s, ch) && PushesNothing(code, s)
    requires k in s.entered && (if s.phase == Running then k == s.current else k == s.system)
    ensures var t := Step(code, s, ch);
      && k in t.stacks && k in t.entered && t.phase != Halted
      && (if t.phase == Running then k == t.current else k == t.system)
      && SpOf(t, k) == SpOf(s, k) && Read(t.stacks[k].mem, SpOf(t, k)) == Read(s.stacks[k].mem, SpOf(s, k))
  {
    hide Linked;
    hide FreshStack;
    assert StaticAt(code, s.pc);
  }

  lemma {:induction false} TailCallsUseNoStack(code: Code, states: seq<State>, chs: seq<Choice>)
    requires Static(code) && IsRun(code, states, chs) && Inv(code, states[0]) && states[0].phase == Running
    requires forall i :: 0 <= i < |chs| ==> PushesNothing(code, states[i])
    ensures var k, last := states[0].current, states[|chs|];
      && k in states[0].stacks && k in last.stacks
      && SpOf(last, k) == states[0].sp && Read(last.stacks[k].mem, SpOf(last, k)) == Read(Mem(states[0]), states[0].sp)
  {
    TailRun(code, states, chs, states[0].current);
  }

  lemma {:induction false} TailRun(code: Code, states: seq<State>, chs: seq<Choice>, k: nat)
    requires Static(code) && IsRun(code, states, chs) && Inv(code, states[0]) && states[0].phase != Halted
    requires k in states[0].entered
    requires if states[0].phase == Running then k == states[0].current else k == states[0].system
    requires forall i :: 0 <= i < |chs| ==> PushesNothing(code, states[i])
    ensures var first, last := states[0], states[|chs|];
      && k in first.stacks && k in last.stacks
      && SpOf(last, k) == SpOf(first, k)
      && Read(last.stacks[k].mem, SpOf(last, k)) == Read(first.stacks[k].mem, SpOf(first, k))
    decreases |chs|
  {
    if |chs| > 0 {
      TailStep(code, states[0], chs[0], k);
      StepKeepsInv(code, states[0], chs[0]);
      hide Inv;
      hide Step;
      hide Static;
      hide PushesNothing;
      TailRun(code, states[1..], chs[1..], k);
    }
  }
}
