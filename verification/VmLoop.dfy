/** The turn of vmloop for the frame opcodes, updating the interpreter's variables in place. */
module VmLoop {
  import opened VmStack

  class Vm {
    const code: Code
    var stacks: map<nat, Stack>
    var current_stack: nat
    var system_stack: nat
    var stack_pointer: int
    var pc: int
    var stack_limit: nat
    var phase: Phase
    ghost var entered: set<nat>

    ghost function View(): State
      reads this
    {
      State(stacks, current_stack, system_stack, stack_pointer, pc, stack_limit, phase, entered)
    }

    constructor (code: Code, s: State)
      ensures this.code == code && View() == s
    {
      this.code := code;
      stacks, current_stack, system_stack := s.stacks, s.current, s.system;
      stack_pointer, pc, stack_limit, phase, entered := s.sp, s.pc, s.limit, s.phase, s.entered;
    }

    method Store(address: int, value: int)
      requires current_stack in stacks
      modifies this`stacks
      ensures View() == Write(old(View()), address, value)
    {
      var stk := stacks[current_stack];
      stacks := stacks[current_stack := stk.(mem := stk.mem[address := value])];
    }

    /** PUSH_FRAME. */
    method PushFrame(num_locals: nat)
      requires current_stack in stacks
      modifies this`stacks, this`stack_pointer
      ensures View() == Write(old(View()), Pushed(old(stack_pointer), num_locals), pc).
                          (sp := Pushed(old(stack_pointer), num_locals))
    {
      stack_pointer := stack_pointer + HEADER + num_locals * 8;
      Store(stack_pointer, pc);
    }

    method SaveStack()
      requires current_stack in stacks
      modifies this`stacks
      ensures View() == Save(old(View()), pc)
    {
      stacks := stacks[current_stack := stacks[current_stack].(sp := stack_pointer, pc := pc)];
    }

    /** Loads a stack at its saved stack pointer and resume pc. */
    method LoadStack(k: nat)
      requires k in stacks
      modifies this`current_stack, this`stack_pointer, this`stack_limit, this`pc
      ensures View() == Load(old(View()), k, stacks[k].sp, stacks[k].pc)
    {
      current_stack := k;
      var stk := stacks[k];
      stack_pointer, stack_limit, pc := stk.sp, stk.size, stk.pc;
    }

    method SwapSystemStack()
      modifies this`current_stack, this`system_stack
      ensures current_stack == old(system_stack) && system_stack == old(current_stack)
    {
      var k := system_stack;
      system_stack := current_stack;
      current_stack := k;
    }

    /** LOCAL, for each of the slots. */
    method ReadLocals(slots: seq<nat>) returns (values: seq<int>)
      requires current_stack in stacks
      ensures values == Locals(View(), slots)
    {
      values := [];
      for i := 0 to |slots|
        invariant |values| == i && forall j :: 0 <= j < i ==> values[j] == Locals(View(), slots)[j]
      {
        values := values + [Read(stacks[current_stack].mem, Slot(stack_pointer, slots[i]))];
      }
    }

    /** Decodes the instruction at pc and runs it; `ch` supplies what is not modelled. */
    method Dispatch(ch: Choice)
      requires CanStep(code, View(), ch)
      modifies this
      ensures View() == Step(code, old(View()), ch)
    {
      var instr := code.instrs[pc];
      var args := ReadLocals(Operands(instr));
      pc := pc + 1;
      match instr {
        case Move(dst, _) => Store(Slot(stack_pointer, dst), ch.result(args));
        case Jump(target, _) =>
          if ch.taken(args) {
            pc := target;
          }
        case Call(num_locals, _) =>
          PushFrame(num_locals);
          pc := code.offsets[ch.callee(args)];
        case TCall(_) => pc := code.offsets[ch.callee(args)];
        case CallC(num_locals, _) =>
          PushFrame(num_locals);
          pc := Read(stacks[current_stack].mem, stack_pointer);
          stack_pointer := stack_pointer - HEADER - num_locals * 8;
        case PopFrame(num_locals) => stack_pointer := stack_pointer - HEADER - num_locals * 8;
        case Live => Store(stack_pointer + 8, ch.live);
        case EnterStack(_) =>
          SaveStack();
          LoadStack(ch.stack(args));
          stack_pointer := 0;
          pc := if 0 <= pc < |code.offsets| then code.offsets[pc] else -1;
          entered := entered + {current_stack};
        case Yield(_) =>
          SaveStack();
          LoadStack(ch.stack(args));
        case Return =>
          var retpc := Read(stacks[current_stack].mem, stack_pointer);
          if retpc == SYSTEM_RETURN_STUB {
            SwapSystemStack();
            LoadStack(current_stack);
            phase := Running;
          } else if retpc < 0 {
            pc, phase := pc - 1, Halted;
          } else {
            pc := retpc;
          }
        case FnEntry(value) =>
          var size_required := value * 8 + HEADER + HEADER;
          if stack_pointer + size_required > stack_limit {
            SaveStack();
            SwapSystemStack();
            stack_limit := stacks[current_stack].size;
            stack_pointer := 0;
            Store(stack_pointer, SYSTEM_RETURN_STUB);
            pc, phase := code.offsets[EXTEND_STACK_FN], Extending(size_required);
          }
        case ExtendStack =>
          stacks := stacks[system_stack := stacks[system_stack].(size := ch.size)];
          phase := Extended;
      }
    }
  }
}
