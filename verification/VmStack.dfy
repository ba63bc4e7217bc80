/**
 * The stack discipline of the bytecode interpreter in compiler/cvm.c: frames, calls, tail calls, coroutines and the
 * stack check at function entry. Addresses are byte offsets from the start of a stack's frames.
 */
module VmStack {
  import opened Options

  // ---------------------------------------------------------------- programs

  /**
   * The opcodes that touch frames. `Move` stands for all that compute a local from locals, `Jump` for all branches on
   * locals. `Call`, `TCall` and `CallC` stand for the ways of naming a callee: by a local (a function id, a closure or
   * an address) or, with no local, by a constant. `ExtendStack` is the unseen body of the stack extender.
   */
  datatype Instr =
    | Move(dst: nat, srcs: seq<nat>)
    | Jump(target: nat, srcs: seq<nat>)
    | Call(num_locals: nat, callee: Option<nat>)
    | TCall(callee: Option<nat>)
    | CallC(num_locals: nat, callee: Option<nat>)
    | PopFrame(num_locals: nat)
    | Live
    | EnterStack(src: nat)
    | Yield(src: nat)
    | Return
    | FnEntry(locals: nat)
    | ExtendStack

  /** `frame[pc]` is the number of locals that the function around `pc` declared at its entry. */
  datatype Code = Code(instrs: seq<Instr>, frame: seq<nat>, offsets: seq<nat>)

  const HEADER := 16
  const EXTEND_STACK_FN := 1
  const SYSTEM_RETURN_STUB := -2
  const EXIT := -1

  predicate Plain(code: Code, pc: int, frame: nat) {
    && 0 <= pc < |code.instrs| == |code.frame| && code.frame[pc] == frame
    && !code.instrs[pc].PopFrame? && !code.instrs[pc].FnEntry? && !code.instrs[pc].ExtendStack?
  }

  /** The locals that an instruction reads. */
  function Operands(instr: Instr): seq<nat> {
    match instr
    case Move(_, srcs) => srcs
    case Jump(_, srcs) => srcs
    case Call(_, callee) => CalleeOperand(callee)
    case TCall(callee) => CalleeOperand(callee)
    case CallC(_, callee) => CalleeOperand(callee)
    case EnterStack(src) => [src]
    case Yield(src) => [src]
    case _ => []
  }

  function CalleeOperand(callee: Option<nat>): seq<nat> { if callee.Some? then [callee.value] else [] }

  /** What the compiler promises about one instruction. */
  predicate StaticAt(code: Code, pc: nat)
    requires pc < |code.instrs| == |code.frame|
  {
    var f := code.frame[pc];
    && (forall l :: l in Operands(code.instrs[pc]) ==> l < f)
    && match code.instrs[pc]
    case Move(dst, _) => dst < f && Plain(code, pc + 1, f)
    case Jump(target, _) => Plain(code, target, f) && Plain(code, pc + 1, f)
    case Call(n, _) =>
      n <= f && pc + 1 < |code.instrs| && code.instrs[pc + 1] == PopFrame(n) && code.frame[pc + 1] == f
    case TCall(_) => true
    case CallC(n, _) => n <= f && Plain(code, pc + 1, f)
    case PopFrame(n) => n <= f && Plain(code, pc + 1, f)
    case Live => Plain(code, pc + 1, f)
    case EnterStack(_) => Plain(code, pc + 1, f)
    case Yield(_) => Plain(code, pc + 1, f)
    case Return => true
    case FnEntry(locals) => Plain(code, pc + 1, locals)
    case ExtendStack => pc + 1 < |code.instrs| && code.instrs[pc + 1] == Return
  }

  /** The assumption on code: pushes fit the frame, return sites pop what the call pushed, functions open by FNENTRY. */
  predicate Static(code: Code) {
    && |code.instrs| == |code.frame| && EXTEND_STACK_FN < |code.offsets|
    && (forall fid :: 0 <= fid < |code.offsets| ==> code.offsets[fid] < |code.instrs|)
    && (forall fid :: 0 <= fid < |code.offsets| && fid != EXTEND_STACK_FN ==> code.instrs[code.offsets[fid]].FnEntry?)
    && code.instrs[code.offsets[EXTEND_STACK_FN]] == ExtendStack
    && forall pc :: 0 <= pc < |code.instrs| ==> StaticAt(code, pc)
  }

  // ---------------------------------------------------------------- states

  datatype Stack = Stack(size: nat, sp: int, pc: int, mem: map<int, int>)

  /** Running, or inside the extender: before or after it has made the room that was asked for. */
  datatype Phase = Running | Extending(required: nat) | Extended | Halted

  /**
   * The interpreter's variables and stacks. `entered` records which stacks have been started, which the machine itself
   * does not keep.
   */
  datatype State = State(stacks: map<nat, Stack>, current: nat, system: nat, sp: int, pc: int, limit: nat,
                         phase: Phase, entered: set<nat>)

  /**
   * What the modelled part does not determine: the result, the branch, the callee and the stack that follow from the
   * locals read, the liveness map, and the extender's new size.
   */
  datatype Choice = Choice(result: seq<int> -> int, taken: seq<int> -> bool, callee: seq<int> -> nat,
                           stack: seq<int> -> nat, live: int, size: nat)

  function Read(mem: map<int, int>, a: int): int { if a in mem then mem[a] else 0 }
  function Slot(sp: int, l: nat): int { sp + HEADER + 8 * l }
  function Pushed(sp: int, n: nat): int { sp + HEADER + 8 * n }

  /** The values of some locals of the current frame. */
  function Locals(s: State, slots: seq<nat>): (values: seq<int>)
    requires s.current in s.stacks
    ensures |values| == |slots|
  {
    seq(|slots|, i requires 0 <= i < |slots| => Read(s.stacks[s.current].mem, Slot(s.sp, slots[i])))
  }

  /** What the instruction at pc reads. */
  function Args(code: Code, s: State): seq<int>
    requires s.current in s.stacks && 0 <= s.pc < |code.instrs|
  {
    Locals(s, Operands(code.instrs[s.pc]))
  }

  /**
   * What a turn relies on beyond the code: callees are functions, ENTER_STACK names a stack never entered and YIELD one
   * that was, neither the system stack, and the extender makes the room that was asked for.
   */
  predicate CanStep(code: Code, s: State, ch: Choice) {
    && !s.phase.Halted? && 0 <= s.pc < |code.instrs|
    && s.current in s.stacks && s.system in s.stacks
    && var args := Args(code, s);
       match code.instrs[s.pc]
       case Call(_, _) => ch.callee(args) < |code.offsets| && ch.callee(args) != EXTEND_STACK_FN
       case TCall(_) => ch.callee(args) < |code.offsets| && ch.callee(args) != EXTEND_STACK_FN
       case EnterStack(_) => ch.stack(args) in s.stacks && ch.stack(args) !in s.entered && ch.stack(args) != s.system
       case Yield(_) => ch.stack(args) in s.stacks && ch.stack(args) in s.entered && ch.stack(args) != s.system
       case FnEntry(_) => EXTEND_STACK_FN < |code.offsets|
       case ExtendStack =>
         s.phase.Extending? && s.stacks[s.system].size <= ch.size && s.stacks[s.system].sp + s.phase.required <= ch.size
       case _ => true
  }

  // ---------------------------------------------------------------- one turn of the interpreter's loop

  function Mem(s: State): map<int, int>
    requires s.current in s.stacks
  {
    s.stacks[s.current].mem
  }

  function Write(s: State, a: int, v: int): State
    requires s.current in s.stacks
  {
    s.(stacks := s.stacks[s.current := s.stacks[s.current].(mem := Mem(s)[a := v])])
  }

  /** Leaves the current stack with its stack pointer and resume pc saved. */
  function Save(s: State, pc: int): State
    requires s.current in s.stacks
  {
    s.(stacks := s.stacks[s.current := s.stacks[s.current].(sp := s.sp, pc := pc)])
  }

  function Load(s: State, k: nat, sp: int, pc: int): State
    requires k in s.stacks
  {
    s.(current := k, sp := sp, pc := pc, limit := s.stacks[k].size)
  }

  function Step(code: Code, s: State, ch: Choice): State
    requires CanStep(code, s, ch)
  {
    var args := Args(code, s);
    match code.instrs[s.pc]
    case Move(dst, _) => Write(s, Slot(s.sp, dst), ch.result(args)).(pc := s.pc + 1)
    case Jump(target, _) => s.(pc := if ch.taken(args) then target else s.pc + 1)
    case Call(n, _) =>
      Write(s, Pushed(s.sp, n), s.pc + 1).(sp := Pushed(s.sp, n), pc := code.offsets[ch.callee(args)])
    case TCall(_) => s.(pc := code.offsets[ch.callee(args)])
    case CallC(n, _) => Write(s, Pushed(s.sp, n), s.pc + 1).(pc := s.pc + 1)
    case PopFrame(n) => s.(sp := s.sp - HEADER - 8 * n, pc := s.pc + 1)
    case Live => Write(s, s.sp + 8, ch.live).(pc := s.pc + 1)
    case EnterStack(_) => EnterFresh(code, Save(s, s.pc + 1), ch.stack(args))
    case Yield(_) =>
      var saved, k := Save(s, s.pc + 1), ch.stack(args);
      Load(saved, k, saved.stacks[k].sp, saved.stacks[k].pc)
    case Return =>
      var retpc := Read(Mem(s), s.sp);
      if retpc == SYSTEM_RETURN_STUB then
        var swapped := s.(system := s.current, phase := Running);
        Load(swapped, s.system, s.stacks[s.system].sp, s.stacks[s.system].pc)
      else if retpc < 0 then s.(phase := Halted)
      else s.(pc := retpc)
    case FnEntry(locals) =>
      var required := locals * 8 + HEADER + HEADER;
      if s.sp + required > s.limit then CallExtender(code, Save(s, s.pc + 1), required)
      else s.(pc := s.pc + 1)
    case ExtendStack =>
      var larger := s.stacks[s.system].(size := ch.size);
      s.(stacks := s.stacks[s.system := larger], pc := s.pc + 1, phase := Extended)
  }

  function EnterFresh(code: Code, s: State, k: nat): State
    requires k in s.stacks
  {
    var fid := s.stacks[k].pc;
    Load(s, k, 0, if 0 <= fid < |code.offsets| then code.offsets[fid] else -1).(entered := s.entered + {k})
  }

  /** The swap to the system stack in FNENTRY; a return to the stub undoes it. */
  function CallExtender(code: Code, s: State, required: nat): State
    requires s.system in s.stacks && EXTEND_STACK_FN < |code.offsets|
  {
    var swapped := Load(s.(system := s.current), s.system, 0, code.offsets[EXTEND_STACK_FN]);
    Write(swapped, 0, SYSTEM_RETURN_STUB).(phase := Extending(required))
  }

  // ---------------------------------------------------------------- the words of frames that a turn touches

  /**
   * The words that a turn reads: their stack, and the first of their eight bytes. CALLC reads back a return pc too, but
   * the one that it wrote itself.
   */
  function Reads(code: Code, s: State): set<(nat, int)>
    requires 0 <= s.pc < |code.instrs|
  {
    (set l | l in Operands(code.instrs[s.pc]) :: (s.current, Slot(s.sp, l))) +
    (if code.instrs[s.pc].Return? then {(s.current, s.sp)} else {})
  }

  /** The words that a turn may change. */
  function Writes(code: Code, s: State): set<(nat, int)>
    requires 0 <= s.pc < |code.instrs|
  {
    match code.instrs[s.pc]
    case Move(dst, _) => {(s.current, Slot(s.sp, dst))}
    case Live => {(s.current, s.sp + 8)}
    case _ => if Pushes(code, s).Some? then {Pushes(code, s).value} else {}
  }

  /** Where the turn pushes a frame header: at a call, or at the base of the system stack for the extender. */
  function Pushes(code: Code, s: State): Option<(nat, int)>
    requires 0 <= s.pc < |code.instrs|
  {
    match code.instrs[s.pc]
    case Call(n, _) => Some((s.current, Pushed(s.sp, n)))
    case CallC(n, _) => Some((s.current, Pushed(s.sp, n)))
    case FnEntry(locals) => if s.sp + locals * 8 + HEADER + HEADER > s.limit then Some((s.system, 0)) else None
    case _ => None
  }

  /** All eight bytes of the word lie on its stack, below the limit that holds while it runs, and it is aligned. */
  predicate OnStack(s: State, word: (nat, int)) {
    && word.0 in s.stacks && 0 <= word.1 && word.1 + 8 <= s.stacks[word.0].size && word.1 % 8 == 0
    && (word.0 == s.current ==> s.stacks[word.0].size == s.limit)
  }

  // ---------------------------------------------------------------- the invariant

  /**
   * The frames below `sp`, found by walking the headers: `r` is the return pc of the frame at `sp`, every caller has
   * room for the frame it declared and one header more, and the walk ends at the base of the stack.
   */
  ghost predicate Linked(code: Code, mem: map<int, int>, sp: int, r: int, size: nat)
    decreases sp
  {
    if r < 0 then sp == 0 && r == EXIT
    else
      && r < |code.instrs| == |code.frame| && code.instrs[r].PopFrame?
      && var base := sp - HEADER - 8 * code.instrs[r].num_locals;
      && 0 <= base && base + 2 * HEADER + 8 * code.frame[r] <= size
      && Linked(code, mem, base, Read(mem, base), size)
  }

  /** The frames are in order for a stack about to run `pc`. */
  ghost predicate InOrder(code: Code, mem: map<int, int>, sp: int, pc: int, size: nat) {
    && 0 <= pc < |code.instrs| == |code.frame| && 0 <= sp && sp + HEADER <= size && sp % 8 == 0
    && match code.instrs[pc]
       case PopFrame(_) => Linked(code, mem, sp, pc, size)
       case FnEntry(_) => Linked(code, mem, sp, Read(mem, sp), size)
       case ExtendStack => false
       case _ => Linked(code, mem, sp, Read(mem, sp), size) && sp + 2 * HEADER + 8 * code.frame[pc] <= size
  }

  /** A stack not started yet: its creator left the exit return pc at its base and a function id to start with. */
  ghost predicate FreshStack(code: Code, k: Stack) {
    HEADER <= k.size && Read(k.mem, 0) == EXIT && 0 <= k.pc < |code.offsets| && k.pc != EXTEND_STACK_FN
  }

  function Required(code: Code, pc: int): nat {
    2 * HEADER + if 0 <= pc < |code.frame| then 8 * code.frame[pc] else 0
  }

  /** The extender runs at the base of the system stack; the stack it was called for waits just after its FNENTRY. */
  ghost predicate Waiting(code: Code, s: State, required: nat)
    requires s.system in s.stacks
  {
    var k := s.stacks[s.system];
    && 0 <= k.pc < |code.instrs| == |code.frame| && Plain(code, k.pc, code.frame[k.pc])
    && required == Required(code, k.pc) && 0 <= k.sp && k.sp % 8 == 0
    && Linked(code, k.mem, k.sp, Read(k.mem, k.sp), k.size)
  }

  ghost predicate Inv(code: Code, s: State) {
    && s.current in s.stacks && s.system in s.stacks && s.current != s.system
    && s.limit == s.stacks[s.current].size && s.entered <= s.stacks.Keys
    && (forall k :: k in s.stacks && k !in s.entered && k != s.current && k != s.system ==>
          FreshStack(code, s.stacks[k]))
    && (forall k :: k in s.entered && k != s.current && k != s.system ==>
          InOrder(code, s.stacks[k].mem, s.stacks[k].sp, s.stacks[k].pc, s.stacks[k].size))
    && match s.phase
       case Running =>
         && s.current in s.entered && s.system !in s.entered && HEADER <= s.stacks[s.system].size
         && InOrder(code, Mem(s), s.sp, s.pc, s.limit)
       case Extending(required) =>
         && s.current !in s.entered && s.system in s.entered && HEADER <= s.limit
         && s.sp == 0 && 0 <= s.pc < |code.instrs| && code.instrs[s.pc] == ExtendStack
         && Read(Mem(s), 0) == SYSTEM_RETURN_STUB
         && Waiting(code, s, required)
       case Extended =>
         && s.current !in s.entered && s.system in s.entered && HEADER <= s.limit
         && s.sp == 0 && 0 <= s.pc < |code.instrs| && code.instrs[s.pc] == Return
         && Read(Mem(s), 0) == SYSTEM_RETURN_STUB
         && Waiting(code, s, Required(code, s.stacks[s.system].pc))
         && s.stacks[s.system].sp + Required(code, s.stacks[s.system].pc) <= s.stacks[s.system].size
       case Halted => true
  }

  lemma {:induction false} LinkedSame(code: Code, mem: map<int, int>, mem': map<int, int>, sp: int, r: int,
                                      size: nat, size': nat)
    requires Linked(code, mem, sp, r, size) && size <= size'
    requires forall a :: a < sp ==> Read(mem', a) == Read(mem, a)
    ensures Linked(code, mem', sp, r, size')
    decreases sp
  {
    hide Read;
    if r >= 0 {
      var base := sp - HEADER - 8 * code.instrs[r].num_locals;
      LinkedSame(code, mem, mem', base, Read(mem, base), size, size');
    }
  }

  // ---------------------------------------------------------------- every step keeps it

  /** The steps that stay on the current stack. */
  predicate Local(code: Code, s: State)
    requires 0 <= s.pc < |code.instrs|
  {
    var i := code.instrs[s.pc];
    !i.EnterStack? && !i.Yield? && !i.Return? && !i.FnEntry? && !i.ExtendStack?
  }

  lemma LocalStep(code: Code, s: State, ch: Choice)
    requires Static(code) && Inv(code, s) && s.phase == Running && CanStep(code, s, ch) && Local(code, s)
    ensures var t := Step(code, s, ch);
      && t == s.(stacks := t.stacks, sp := t.sp, pc := t.pc)
      && t.stacks == s.stacks[s.current := s.stacks[s.current].(mem := Mem(t))]
      && (forall a :: a < s.sp + 8 ==> Read(Mem(t), a) == Read(Mem(s), a))
  {
    hide Linked;
    assert StaticAt(code, s.pc);
  }

  lemma LocalInOrder(code: Code, s: State, ch: Choice)
    requires Static(code) && Inv(code, s) && s.phase == Running && CanStep(code, s, ch) && Local(code, s)
    ensures var t := Step(code, s, ch); InOrder(code, Mem(t), t.sp, t.pc, t.limit)
  {
    assert StaticAt(code, s.pc);
    LocalStep(code, s, ch);
    var t := Step(code, s, ch);
    if code.instrs[s.pc].PopFrame? {
      PopUnlinks(code, Mem(s), s.sp, s.pc, s.limit);
      hide Linked;
    } else {
      LinkedSame(code, Mem(s), Mem(t), s.sp, Read(Mem(s), s.sp), s.limit, s.limit);
      if code.instrs[s.pc].Call? {
        PushLinks(code, Mem(t), s.sp, s.pc + 1, s.limit);
      }
      hide Linked;
    }
  }

  /** One link of the walk, downwards and upwards. */
  lemma PopUnlinks(code: Code, mem: map<int, int>, sp: int, r: nat, size: nat)
    requires Linked(code, mem, sp, r, size)
    ensures r < |code.instrs| == |code.frame| && code.instrs[r].PopFrame?
    ensures var base := sp - HEADER - 8 * code.instrs[r].num_locals;
      && 0 <= base && base + 2 * HEADER + 8 * code.frame[r] <= size
      && Linked(code, mem, base, Read(mem, base), size)
  {
  }

  lemma PushLinks(code: Code, mem: map<int, int>, sp: int, r: nat, size: nat)
    requires Linked(code, mem, sp, Read(mem, sp), size) && 0 <= sp
    requires r < |code.instrs| == |code.frame| && code.instrs[r].PopFrame?
    requires sp + 2 * HEADER + 8 * code.frame[r] <= size
    ensures Linked(code, mem, Pushed(sp, code.instrs[r].num_locals), r, size)
  {
  }

  lemma LocalKeepsInv(code: Code, s: State, ch: Choice)
    requires Static(code) && Inv(code, s) && s.phase == Running && CanStep(code, s, ch) && Local(code, s)
    ensures Inv(code, Step(code, s, ch))
  {
    hide InOrder;
    hide Static;
    hide Step;
    hide FreshStack;
    LocalStep(code, s, ch);
    LocalInOrder(code, s, ch);
    var t := Step(code, s, ch);
    assert forall k :: k in t.stacks && k != s.current ==> t.stacks[k] == s.stacks[k];
    assert t.stacks[s.current].size == s.limit;
  }

  /** Switching to another coroutine, fresh or suspended. */
  lemma SwitchKeepsInv(code: Code, s: State, ch: Choice)
    requires Static(code) && Inv(code, s) && s.phase == Running && CanStep(code, s, ch)
    requires code.instrs[s.pc].EnterStack? || code.instrs[s.pc].Yield?
    ensures Inv(code, Step(code, s, ch))
  {
    hide Linked;
    assert StaticAt(code, s.pc);
    var t := Step(code, s, ch);
    var saved := s.stacks[s.current].(sp := s.sp, pc := s.pc + 1);
    assert t.stacks == s.stacks[s.current := saved];
    assert InOrder(code, saved.mem, saved.sp, saved.pc, saved.size);
    var k := ch.stack(Args(code, s));
    assert t.current == k && (k != s.current ==> t.stacks[k] == s.stacks[k]);
    if code.instrs[s.pc].EnterStack? {
      assert FreshStack(code, s.stacks[k]);
      assert Linked(code, s.stacks[k].mem, 0, EXIT, s.stacks[k].size) by {
        LinkedAtBase(code, s.stacks[k].mem, s.stacks[k].size);
      }
    }
  }

  lemma LinkedAtBase(code: Code, mem: map<int, int>, size: nat)
    ensures Linked(code, mem, 0, EXIT, size)
  {
  }

  lemma ReturnKeepsInv(code: Code, s: State, ch: Choice)
    requires Static(code) && Inv(code, s) && CanStep(code, s, ch) && code.instrs[s.pc] == Return
    ensures Inv(code, Step(code, s, ch))
  {
  }

  lemma FnEntryKeepsInv(code: Code, s: State, ch: Choice)
    requires Static(code) && Inv(code, s) && s.phase == Running && CanStep(code, s, ch) && code.instrs[s.pc].FnEntry?
    ensures Inv(code, Step(code, s, ch))
  {
    assert StaticAt(code, s.pc);
  }

  lemma ExtendKeepsInv(code: Code, s: State, ch: Choice)
    requires Static(code) && Inv(code, s) && CanStep(code, s, ch) && code.instrs[s.pc] == ExtendStack
    ensures Inv(code, Step(code, s, ch))
  {
    assert StaticAt(code, s.pc);
    var k := s.stacks[s.system];
    LinkedSame(code, k.mem, k.mem, k.sp, Read(k.mem, k.sp), k.size, ch.size);
  }

  lemma StepKeepsInv(code: Code, s: State, ch: Choice)
    requires Static(code) && Inv(code, s) && CanStep(code, s, ch)
    ensures Inv(code, Step(code, s, ch))
  {
    if code.instrs[s.pc] == Return {
      ReturnKeepsInv(code, s, ch);
    } else if code.instrs[s.pc] == ExtendStack {
      ExtendKeepsInv(code, s, ch);
    } else if Local(code, s) {
      LocalKeepsInv(code, s, ch);
    } else if code.instrs[s.pc].FnEntry? {
      FnEntryKeepsInv(code, s, ch);
    } else {
      SwitchKeepsInv(code, s, ch);
    }
  }

  lemma ReadsInBounds(code: Code, s: State, ch: Choice, word: (nat, int))
    requires Static(code) && Inv(code, s) && CanStep(code, s, ch) && word in Reads(code, s)
    ensures OnStack(s, word)
  {
    hide Linked;
    assert StaticAt(code, s.pc);
  }

  lemma PushesInBounds(code: Code, s: State, ch: Choice)
    requires Static(code) && Inv(code, s) && CanStep(code, s, ch) && Pushes(code, s).Some?
    ensures var (k, a) := Pushes(code, s).value; OnStack(s, (k, a)) && OnStack(s, (k, a + 8))
  {
    hide Linked;
    assert StaticAt(code, s.pc);
  }

  lemma WritesInBounds(code: Code, s: State, ch: Choice, word: (nat, int))
    requires Static(code) && Inv(code, s) && CanStep(code, s, ch) && word in Writes(code, s)
    ensures OnStack(s, word)
  {
    hide Linked;
    hide Pushes;
    if Pushes(code, s).Some? {
      PushesInBounds(code, s, ch);
    }
    assert StaticAt(code, s.pc);
  }

  /** Every word of a frame that a turn reads or writes, and both words of a pushed header, lie on their stack. */
  lemma TouchesInBounds(code: Code, s: State, ch: Choice)
    requires Static(code) && Inv(code, s) && CanStep(code, s, ch)
    ensures forall word :: word in Reads(code, s) || word in Writes(code, s) ==> OnStack(s, word)
    ensures Pushes(code, s).Some? ==>
      var (k, a) := Pushes(code, s).value; OnStack(s, (k, a)) && OnStack(s, (k, a + 8))
  {
    hide Inv;
    hide Reads;
    hide Writes;
    hide Pushes;
    hide Static;
    forall word | word in Reads(code, s) || word in Writes(code, s)
      ensures OnStack(s, word)
    {
      if word in Reads(code, s) {
        ReadsInBounds(code, s, ch, word);
      } else {
        WritesInBounds(code, s, ch, word);
      }
    }
    if Pushes(code, s).Some? {
      PushesInBounds(code, s, ch);
    }
  }

  /** A word that a turn changes is one of those, so nothing else is written. */
  lemma StepWrites(code: Code, s: State, ch: Choice, k: nat, a: int)
    requires Static(code) && Inv(code, s) && CanStep(code, s, ch)
    ensures var t := Step(code, s, ch);
      && t.stacks.Keys == s.stacks.Keys
      && (k in s.stacks && Read(t.stacks[k].mem, a) != Read(s.stacks[k].mem, a) ==> (k, a) in Writes(code, s))
  {
    hide Linked;
    hide InOrder;
    hide FreshStack;
    hide Waiting;
    hide Static;
  }

  /** The same machine with other contents in the stacks. */
  ghost predicate SameButContents(s: State, t: State) {
    && t.current == s.current && t.system == s.system && t.sp == s.sp && t.pc == s.pc && t.limit == s.limit
    && t.phase == s.phase && t.entered == s.entered && t.stacks.Keys == s.stacks.Keys
    && forall k :: k in s.stacks ==> t.stacks[k] == s.stacks[k].(mem := t.stacks[k].mem)
  }

  ghost predicate AgreeAt(s: State, t: State, word: (nat, int)) {
    && word.0 in s.stacks && word.0 in t.stacks
    && Read(s.stacks[word.0].mem, word.1) == Read(t.stacks[word.0].mem, word.1)
  }

  /** The two words that control a turn: what the instruction reads, and the return pc. */
  ghost predicate SameControl(code: Code, s: State, t: State)
    requires s.current in s.stacks && t.current in t.stacks && 0 <= s.pc < |code.instrs| && t.pc == s.pc
  {
    && Args(code, s) == Args(code, t)
    && (code.instrs[s.pc].Return? ==> Read(Mem(s), s.sp) == Read(Mem(t), t.sp))
  }

  lemma SameWrite(s: State, t: State, a: int, v: int)
    requires SameButContents(s, t) && s.current in s.stacks
    ensures SameButContents(Write(s, a, v), Write(t, a, v))
  {
  }

  lemma SameSave(s: State, t: State, pc: int)
    requires SameButContents(s, t) && s.current in s.stacks
    ensures SameButContents(Save(s, pc), Save(t, pc))
    ensures Save(s, pc) == s.(stacks := Save(s, pc).stacks) && Save(s, pc).stacks.Keys == s.stacks.Keys
  {
  }

  lemma SameExtender(code: Code, s: State, t: State, required: nat)
    requires SameButContents(s, t) && s.system in s.stacks && EXTEND_STACK_FN < |code.offsets|
    ensures SameButContents(CallExtender(code, s, required), CallExtender(code, t, required))
  {
  }

  lemma SameCanStep(code: Code, s: State, t: State, ch: Choice)
    requires CanStep(code, s, ch) && SameButContents(s, t) && SameControl(code, s, t)
    ensures CanStep(code, t, ch)
  {
    hide Args;
  }

  lemma SameTurn(code: Code, s: State, t: State, ch: Choice)
    requires CanStep(code, s, ch) && CanStep(code, t, ch) && SameButContents(s, t) && SameControl(code, s, t)
    ensures SameButContents(Step(code, s, ch), Step(code, t, ch))
  {
    hide Args;
    hide Write;
    hide Save;
    hide CallExtender;
    match code.instrs[s.pc]
    case Move(dst, _) => SameWrite(s, t, Slot(s.sp, dst), ch.result(Args(code, s)));
    case Live => SameWrite(s, t, s.sp + 8, ch.live);
    case Call(n, _) => SameWrite(s, t, Pushed(s.sp, n), s.pc + 1);
    case CallC(n, _) => SameWrite(s, t, Pushed(s.sp, n), s.pc + 1);
    case EnterStack(_) => SameSave(s, t, s.pc + 1);
    case Yield(_) => SameSave(s, t, s.pc + 1);
    case FnEntry(locals) =>
      SameSave(s, t, s.pc + 1);
      if s.sp + (locals * 8 + HEADER + HEADER) > s.limit {
        SameExtender(code, Save(s, s.pc + 1), Save(t, s.pc + 1), locals * 8 + HEADER + HEADER);
      }
    case _ =>
  }

  lemma SameWords(code: Code, s: State, t: State, ch: Choice, word: (nat, int))
    requires CanStep(code, s, ch) && CanStep(code, t, ch) && SameButContents(s, t) && SameControl(code, s, t)
    requires word in Writes(code, s)
    ensures AgreeAt(Step(code, s, ch), Step(code, t, ch), word)
  {
    hide Args;
  }

  /**
   * A turn depends on no other words: machines that agree on them do the same, and write the same, whatever else their
   * stacks hold.
   */
  lemma StepReads(code: Code, s: State, t: State, ch: Choice, word: (nat, int))
    requires CanStep(code, s, ch)
    requires SameButContents(s, t) && forall w :: w in Reads(code, s) ==> AgreeAt(s, t, w)
    ensures CanStep(code, t, ch) && SameButContents(Step(code, s, ch), Step(code, t, ch))
    ensures word in Writes(code, s) ==> AgreeAt(Step(code, s, ch), Step(code, t, ch), word)
  {
    hide Step;
    hide Args;
    hide Writes;
    SameArgs(code, s, t);
    SameReturn(code, s, t);
    SameCanStep(code, s, t, ch);
    SameTurn(code, s, t, ch);
    if word in Writes(code, s) {
      SameWords(code, s, t, ch, word);
    }
  }

  lemma SameReturn(code: Code, s: State, t: State)
    requires s.current in s.stacks && t.current in t.stacks && 0 <= s.pc < |code.instrs|
    requires SameButContents(s, t) && forall w :: w in Reads(code, s) ==> AgreeAt(s, t, w)
    ensures code.instrs[s.pc].Return? ==> Read(Mem(s), s.sp) == Read(Mem(t), t.sp)
  {
    if code.instrs[s.pc].Return? {
      assert AgreeAt(s, t, (s.current, s.sp));
    }
  }

  lemma SameArgs(code: Code, s: State, t: State)
    requires s.current in s.stacks && 0 <= s.pc < |code.instrs|
    requires SameButContents(s, t) && forall w :: w in Reads(code, s) ==> AgreeAt(s, t, w)
    ensures Args(code, s) == Args(code, t)
  {
    var slots := Operands(code.instrs[s.pc]);
    hide Operands;
    forall i | 0 <= i < |slots|
      ensures Locals(s, slots)[i] == Locals(t, slots)[i]
    {
      assert slots[i] in slots && AgreeAt(s, t, (s.current, Slot(s.sp, slots[i])));
    }
  }

  // ---------------------------------------------------------------- runs

  ghost predicate IsRun(code: Code, states: seq<State>, chs: seq<Choice>) {
    && |states| == |chs| + 1
    && forall i :: 0 <= i < |chs| ==> CanStep(code, states[i], chs[i]) && states[i + 1] == Step(code, states[i], chs[i])
  }

  /** Over a whole run the invariant holds, and no access leaves its stack. */
  lemma {:induction false} RunIsSafe(code: Code, states: seq<State>, chs: seq<Choice>)
    requires Static(code) && IsRun(code, states, chs) && Inv(code, states[0])
    ensures forall i :: 0 <= i < |states| ==> Inv(code, states[i])
    ensures forall i, word :: 0 <= i < |chs| && (word in Reads(code, states[i]) || word in Writes(code, states[i])) ==>
      OnStack(states[i], word)
    decreases |chs|
  {
    hide Inv;
    hide Step;
    hide Reads;
    hide Writes;
    hide Static;
    hide OnStack;
    if |chs| > 0 {
      var n := |chs| - 1;
      RunIsSafe(code, states[..n + 1], chs[..n]);
      assert Inv(code, states[n]) by { assert states[..n + 1][n] == states[n]; }
      StepKeepsInv(code, states[n], chs[n]);
      TouchesInBounds(code, states[n], chs[n]);
      forall i | 0 <= i < |states| ensures Inv(code, states[i]) {
        if i <= n {
          assert states[..n + 1][i] == states[i];
        }
      }
      forall i, word | 0 <= i < |chs| && (word in Reads(code, states[i]) || word in Writes(code, states[i]))
        ensures OnStack(states[i], word)
      {
        if i < n {
          assert states[..n + 1][i] == states[i];
        }
      }
    }
  }

  /** So no word outside the stacks ever changes. */
  lemma RunStaysInside(code: Code, states: seq<State>, chs: seq<Choice>, i: nat, k: nat, a: int)
    requires Static(code) && IsRun(code, states, chs) && Inv(code, states[0]) && i < |chs| && k in states[i].stacks
    ensures k in states[i + 1].stacks
    ensures Read(states[i + 1].stacks[k].mem, a) != Read(states[i].stacks[k].mem, a) ==> OnStack(states[i], (k, a))
  {
    hide Inv;
    hide Step;
    hide Static;
    hide Reads;
    hide Writes;
    RunIsSafe(code, states, chs);
    StepWrites(code, states[i], chs[i], k, a);
  }

  /** A machine started on one stack, with a spare system stack and any number of stacks not yet entered. */
  lemma StartsInOrder(code: Code, s: State)
    requires Static(code) && s.phase == Running && s.entered == {s.current}
    requires s.current in s.stacks && s.system in s.stacks && s.current != s.system
    requires s.limit == s.stacks[s.current].size && HEADER <= s.limit && HEADER <= s.stacks[s.system].size
    requires s.sp == 0 && Read(Mem(s), 0) == EXIT && 0 <= s.pc < |code.instrs| && code.instrs[s.pc].FnEntry?
    requires forall k :: k in s.stacks && k != s.current && k != s.system ==> FreshStack(code, s.stacks[k])
    ensures Inv(code, s)
  {
    LinkedAtBase(code, Mem(s), s.limit);
  }
}
