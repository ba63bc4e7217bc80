/** The registered child processes of runtime/process-posix.c. */
module ChildProcesses {
  import opened Options

  // ---------------------------------------------------------------- status codes

  /** The macros of sys/wait.h: the low seven bits are 0 after an exit, 0x7f when stopped or continued, or a signal. */
  function LowBits(code: int): int { code % 128 }
  predicate Exited(code: int) { LowBits(code) == 0 }
  predicate Signaled(code: int) { LowBits(code) != 0 && LowBits(code) != 127 }
  predicate Stopped(code: int) { code % 256 == 127 }
  function ExitStatus(code: int): int { code / 256 % 256 }

  predicate IsDeadStatus(code: int) { Signaled(code) || Exited(code) }

  /** A child's record; id numbers the launches, so that it names the process even when its pid is used again. */
  datatype Record = Record(id: nat, pid: int, codeSet: bool, code: int, referenced: bool)

  predicate IsDead(r: Record) { r.codeSet && IsDeadStatus(r.code) }

  predicate IsSafeToFree(r: Record) { !r.referenced && IsDead(r) }

  datatype ProcessState = Running | Done(code: int) | Terminated(signal: int) | Halted(signal: int)

  function MakeProcessState(r: Record): (state: ProcessState)
    ensures IsDead(r) <==> state.Done? || state.Terminated?
  {
    if r.codeSet then
      if Exited(r.code) then Done(ExitStatus(r.code))
      else if Signaled(r.code) then Terminated(LowBits(r.code))
      else if Stopped(r.code) then Halted(ExitStatus(r.code))
      else Running
    else Running
  }

  /** Statuses as the system encodes them: an exit code, a signal, a signal and a core dump, a stop, a continuation. */
  lemma EncodedStatuses(r: Record, n: nat, signal: nat, core: bool)
    requires n < 256 && 0 < signal < 127
    ensures MakeProcessState(r.(codeSet := true, code := n * 256)) == Done(n)
    ensures MakeProcessState(r.(codeSet := true, code := signal + if core then 128 else 0)) == Terminated(signal)
    ensures MakeProcessState(r.(codeSet := true, code := n * 256 + 127)) == Halted(n)
    ensures MakeProcessState(r.(codeSet := true, code := 0xFFFF)) == Running
    ensures MakeProcessState(r.(codeSet := false)) == Running
  {
  }

  // ---------------------------------------------------------------- the system

  /** A child that was not reaped: the launch it comes from, and a change of its status that was not waited for yet. */
  datatype Child = Child(id: nat, pending: Option<int>)

  /** The list, newest first, the unreaped children by pid, and the number of launches so far. */
  datatype State = State(list: seq<Record>, children: map<int, Child>, launches: nat)

  // ---------------------------------------------------------------- the operations

  /** The place of the first record with the pid, or the length of the list. */
  function Find(list: seq<Record>, pid: int): (i: nat)
    ensures i <= |list| && (i < |list| ==> list[i].pid == pid) && forall k :: 0 <= k < i ==> list[k].pid != pid
  {
    if |list| == 0 || list[0].pid == pid then 0 else 1 + Find(list[1..], pid)
  }

  function SetChildStatus(list: seq<Record>, pid: int, code: int): seq<Record> {
    var i := Find(list, pid);
    if i < |list| then list[i := list[i].(codeSet := true, code := code)] else list
  }

  /** The records that the sweep leaves. */
  function Kept(list: seq<Record>): seq<Record> {
    if |list| == 0 then []
    else
      var before, last := Kept(list[..|list| - 1]), list[|list| - 1];
      if IsSafeToFree(last) then before else before + [last]
  }

  lemma KeptOneMore(list: seq<Record>, n: nat)
    requires n < |list|
    ensures Kept(list[..n + 1]) == if IsSafeToFree(list[n]) then Kept(list[..n]) else Kept(list[..n]) + [list[n]]
    ensures list[n..] == [list[n]] + list[n + 1..]
  {
    assert list[..n + 1][..n] == list[..n];
  }

  /** The kept records are those at the ascending places, and the places are those of the records not safe to free. */
  predicate Selects(from: seq<nat>, list: seq<Record>, kept: seq<Record>) {
    && |from| == |kept|
    && (forall k :: 0 <= k < |from| ==> from[k] < |list| && kept[k] == list[from[k]])
    && (forall k, l :: 0 <= k < l < |from| ==> from[k] < from[l])
    && (forall i :: 0 <= i < |list| ==> (i in from <==> !IsSafeToFree(list[i])))
  }

  lemma SelectsOneMore(from: seq<nat>, list: seq<Record>, kept: seq<Record>, r: Record)
    requires Selects(from, list, kept)
    ensures IsSafeToFree(r) ==> Selects(from, list + [r], kept)
    ensures !IsSafeToFree(r) ==> Selects(from + [|list|], list + [r], kept + [r])
  {
    hide IsSafeToFree;
    var longer := list + [r];
    assert |list| !in from;
    assert forall i :: 0 <= i < |list| ==> longer[i] == list[i];
    forall i | 0 <= i < |longer|
      ensures i in from + [|list|] <==> i in from || i == |list|
    {
    }
  }

  /** The sweep takes out the dead unreferenced records and no other, and the rest stay in order. */
  lemma {:induction false} SweepKeepsOrder(list: seq<Record>) returns (from: seq<nat>)
    ensures Selects(from, list, Kept(list))
  {
    if |list| == 0 {
      from := [];
    } else {
      var before, r := list[..|list| - 1], list[|list| - 1];
      from := SweepKeepsOrder(before);
      SelectsOneMore(from, before, Kept(before), r);
      assert before + [r] == list;
      hide Selects;
      hide IsSafeToFree;
      if !IsSafeToFree(r) { from := from + [|before|]; }
    }
  }

  datatype Step =
    | Launch(pid: int)
    | Change(pid: int, code: int)
    | Update(pid: int)
    | Unreference(id: nat)
    | Sweep

  /**
   * What each step relies on: a pid is used again only after its last holder was reaped, and only unreaped children
   * that are not dead yet change.
   */
  predicate Allowed(s: State, step: Step) {
    match step
    case Launch(pid) => pid !in s.children
    case Change(pid, _) =>
      pid in s.children && (s.children[pid].pending.Some? ==> !IsDeadStatus(s.children[pid].pending.value))
    case Update(_) => true
    case Unreference(_) => true
    case Sweep => true
  }

  function Unreferenced(list: seq<Record>, id: nat): seq<Record> {
    seq(|list|, i requires 0 <= i < |list| => if list[i].id == id then list[i].(referenced := false) else list[i])
  }

  /** waitpid gives the pending status, and reaps the child when the status is that of a dead one. */
  function Waited(children: map<int, Child>, pid: int): map<int, Child>
    requires pid in children && children[pid].pending.Some?
  {
    if IsDeadStatus(children[pid].pending.value) then children - {pid}
    else children[pid := children[pid].(pending := None)]
  }

  function HasNews(s: State, pid: int): bool { pid in s.children && s.children[pid].pending.Some? }

  function After(s: State, step: Step): State
    requires Allowed(s, step)
  {
    match step
    case Launch(pid) =>
      State([Record(s.launches, pid, false, -1, true)] + Kept(s.list), s.children[pid := Child(s.launches, None)],
            s.launches + 1)
    case Change(pid, code) => s.(children := s.children[pid := s.children[pid].(pending := Some(code))])
    case Update(pid) =>
      if HasNews(s, pid) then
        s.(list := SetChildStatus(s.list, pid, s.children[pid].pending.value), children := Waited(s.children, pid))
      else s
    case Unreference(id) => s.(list := Unreferenced(s.list, id))
    case Sweep => s.(list := Kept(s.list))
  }

  // ---------------------------------------------------------------- the invariant

  /** The record's process is not reaped. */
  predicate IsCurrent(children: map<int, Child>, r: Record) { r.pid in children && children[r.pid].id == r.id }

  /** The record is dead exactly when its process was reaped; an unreaped child with its pid was not launched before. */
  predicate Fits(children: map<int, Child>, r: Record) {
    && (IsDead(r) <==> !IsCurrent(children, r))
    && (r.pid in children ==> r.id <= children[r.pid].id)
  }

  predicate HasRecord(list: seq<Record>, pid: int, id: nat) { exists r :: r in list && r.pid == pid && r.id == id }

  predicate Ordered(list: seq<Record>) { forall i, j :: 0 <= i < j < |list| ==> list[i].id > list[j].id }

  ghost predicate Inv(s: State) {
    && Ordered(s.list)
    && (forall r :: r in s.list ==> r.id < s.launches && Fits(s.children, r))
    && (forall p :: p in s.children ==> s.children[p].id < s.launches && HasRecord(s.list, p, s.children[p].id))
  }

  /** The record that a status goes to is the newest with the pid, belongs to the process itself, and is not dead. */
  lemma StatusLandsOnItsProcess(s: State, pid: int)
    requires Inv(s) && pid in s.children
    ensures var i := Find(s.list, pid);
      && i < |s.list| && s.list[i].id == s.children[pid].id && !IsDead(s.list[i])
      && (forall r :: r in s.list && r.pid == pid ==> r.id <= s.list[i].id)
      && (forall k :: 0 <= k < |s.list| && k != i && s.list[k].pid == pid ==> IsDead(s.list[k]))
  {
    var i := Find(s.list, pid);
    var k := PlaceOf(s.list, pid, s.children[pid].id);
    assert s.list[k] in s.list && s.list[i] in s.list;
    forall r | r in s.list && r.pid == pid
      ensures r.id <= s.list[k].id && (IsDead(r) <==> r.id != s.list[k].id)
    {
      assert Fits(s.children, r);
    }
    hide IsDead;
    hide Fits;
  }

  lemma PlaceOf(list: seq<Record>, pid: int, id: nat) returns (k: nat)
    requires HasRecord(list, pid, id)
    ensures k < |list| && list[k].pid == pid && list[k].id == id
  {
    var r :| r in list && r.pid == pid && r.id == id;
    k :| 0 <= k < |list| && list[k] == r;
  }

  // ---------------------------------------------------------------- every step keeps it

  lemma {:induction false} KeptHas(list: seq<Record>)
    requires Ordered(list)
    ensures Ordered(Kept(list))
    ensures forall r :: r in Kept(list) <==> r in list && !IsSafeToFree(r)
  {
    hide IsSafeToFree;
    if |list| > 0 {
      KeptHas(list[..|list| - 1]);
      assert list == list[..|list| - 1] + [list[|list| - 1]];
      forall r | r in Kept(list[..|list| - 1])
        ensures r.id > list[|list| - 1].id
      {
        assert r in list[..|list| - 1];
      }
    }
  }

  lemma SweepKeepsInv(s: State)
    requires Inv(s)
    ensures Inv(s.(list := Kept(s.list)))
  {
    KeptHas(s.list);
    hide Kept;
    hide Ordered;
    forall p | p in s.children
      ensures HasRecord(Kept(s.list), p, s.children[p].id)
    {
      var r :| r in s.list && r.pid == p && r.id == s.children[p].id;
      assert Fits(s.children, r);
      assert r in Kept(s.list);
    }
  }

  lemma LaunchKeepsInv(s: State, pid: int)
    requires Inv(s) && pid !in s.children
    ensures Inv(After(s, Launch(pid)))
  {
    var swept, now := s.(list := Kept(s.list)), After(s, Launch(pid));
    SweepKeepsInv(s);
    var added := Record(s.launches, pid, false, -1, true);
    assert now == State([added] + swept.list, s.children[pid := Child(s.launches, None)], s.launches + 1);
    assert Fits(now.children, added);
    forall r | r in swept.list
      ensures r.id < s.launches && Fits(now.children, r)
    {
      assert Fits(s.children, r);
    }
    hide Kept;
    hide Fits;
    hide After;
    assert forall r :: r in now.list <==> r == added || r in swept.list;
    assert now.list[0] in now.list;
    forall p | p in s.children
      ensures HasRecord(now.list, p, s.children[p].id)
    {
      var k := PlaceOf(swept.list, p, s.children[p].id);
      assert swept.list[k] in now.list;
    }
    assert forall k :: 0 <= k < |swept.list| ==> swept.list[k] in swept.list;
  }

  lemma ChangeKeepsInv(s: State, pid: int, code: int)
    requires Inv(s) && Allowed(s, Change(pid, code))
    ensures Inv(After(s, Change(pid, code)))
  {
    var now := After(s, Change(pid, code));
    forall r | r in s.list
      ensures Fits(now.children, r)
    {
      assert Fits(s.children, r);
    }
    hide Fits;
    hide HasRecord;
    hide Ordered;
  }

  /** A list whose records changed in place, keeping pid and id, still has the order and the records of the children. */
  lemma ChangedInPlace(before: seq<Record>, now: seq<Record>)
    requires |now| == |before|
    requires forall k :: 0 <= k < |now| ==> now[k].pid == before[k].pid && now[k].id == before[k].id
    ensures Ordered(before) ==> Ordered(now)
    ensures forall p, id :: HasRecord(before, p, id) ==> HasRecord(now, p, id)
  {
    forall p, id | HasRecord(before, p, id)
      ensures HasRecord(now, p, id)
    {
      var k := PlaceOf(before, p, id);
      assert now[k] in now;
    }
  }

  lemma UnreferenceKeepsInv(s: State, id: nat)
    requires Inv(s)
    ensures Inv(After(s, Unreference(id)))
  {
    var now := After(s, Unreference(id));
    ChangedInPlace(s.list, now.list);
    forall r | r in now.list
      ensures r.id < s.launches && Fits(s.children, r)
    {
      var k :| 0 <= k < |now.list| && now.list[k] == r;
      assert s.list[k] in s.list && Fits(s.children, s.list[k]);
    }
    hide Fits;
    hide HasRecord;
    hide Ordered;
  }

  /** Waiting for the child's status keeps every record in step with the children. */
  lemma UpdateKeepsFits(s: State, pid: int, r: Record)
    requires Inv(s) && HasNews(s, pid) && r in s.list
    ensures var code := s.children[pid].pending.value;
      Fits(Waited(s.children, pid),
           if r.pid == pid && r.id == s.children[pid].id then r.(codeSet := true, code := code) else r)
  {
    assert Fits(s.children, r);
    hide IsDeadStatus;
  }

  lemma UpdateKeepsRecord(s: State, pid: int, k: nat)
    requires Inv(s) && HasNews(s, pid) && k < |s.list|
    ensures var now := After(s, Update(pid));
      |now.list| == |s.list| && now.list[k].id < s.launches && Fits(now.children, now.list[k])
  {
    var i := Find(s.list, pid);
    StatusLandsOnItsProcess(s, pid);
    assert s.list[k] in s.list;
    UpdateKeepsFits(s, pid, s.list[k]);
    assert s.list[k].id == s.list[i].id ==> k == i;
    hide Fits;
  }

  lemma UpdateKeepsInv(s: State, pid: int)
    requires Inv(s) && Allowed(s, Update(pid))
    ensures Inv(After(s, Update(pid)))
  {
    if HasNews(s, pid) {
      var now, i := After(s, Update(pid)), Find(s.list, pid);
      StatusLandsOnItsProcess(s, pid);
      ChangedInPlace(s.list, now.list);
      forall r | r in now.list
        ensures r.id < s.launches && Fits(now.children, r)
      {
        var k :| 0 <= k < |now.list| && now.list[k] == r;
        UpdateKeepsRecord(s, pid, k);
      }
      hide Fits;
      hide HasRecord;
      hide Ordered;
      hide Find;
    }
  }

  lemma StepKeepsInv(s: State, step: Step)
    requires Inv(s) && Allowed(s, step)
    ensures Inv(After(s, step))
  {
    match step
    case Launch(pid) => LaunchKeepsInv(s, pid);
    case Change(pid, code) => ChangeKeepsInv(s, pid, code);
    case Update(pid) => UpdateKeepsInv(s, pid);
    case Unreference(id) => UnreferenceKeepsInv(s, id);
    case Sweep => SweepKeepsInv(s);
  }

  // ---------------------------------------------------------------- runs

  predicate AllowedRun(s: State, steps: seq<Step>)
    decreases |steps|, 0
  {
    |steps| > 0 ==> AllowedRun(s, steps[..|steps| - 1]) && Allowed(Run(s, steps[..|steps| - 1]), steps[|steps| - 1])
  }

  function Run(s: State, steps: seq<Step>): State
    requires AllowedRun(s, steps)
    decreases |steps|, 1
  {
    if |steps| == 0 then s else After(Run(s, steps[..|steps| - 1]), steps[|steps| - 1])
  }

  lemma {:induction false} RunKeepsInv(s: State, steps: seq<Step>)
    requires Inv(s) && AllowedRun(s, steps)
    ensures Inv(Run(s, steps))
    decreases |steps|
  {
    hide Inv;
    hide After;
    if |steps| > 0 {
      RunKeepsInv(s, steps[..|steps| - 1]);
      StepKeepsInv(Run(s, steps[..|steps| - 1]), steps[|steps| - 1]);
    }
  }

  /** The last status that waiting gave for the process of the launch. */
  function Reported(s: State, steps: seq<Step>, id: nat): Option<int>
    requires AllowedRun(s, steps)
  {
    if |steps| == 0 then None
    else
      var init, step := steps[..|steps| - 1], steps[|steps| - 1];
      var before := Run(s, init);
      if step.Update? && HasNews(before, step.pid) && before.children[step.pid].id == id
      then before.children[step.pid].pending
      else Reported(s, init, id)
  }

  const START := State([], map[], 0)

  lemma {:induction false} OnlyLaunchedAreReported(steps: seq<Step>, id: nat)
    requires AllowedRun(START, steps) && Reported(START, steps, id).Some?
    ensures id < Run(START, steps).launches
    decreases |steps|
  {
    var init := steps[..|steps| - 1];
    RunKeepsInv(START, init);
    if Reported(START, init, id).Some? {
      OnlyLaunchedAreReported(init, id);
    }
    hide Kept;
    hide Fits;
  }

  /** What one step does to a record that is still there after it. */
  lemma RecordOneStep(s: State, step: Step, q: Record) returns (r: Record)
    requires Inv(s) && Allowed(s, step) && q in After(s, step).list
    ensures q.id == s.launches ==> step.Launch? && !q.codeSet && q.code == -1
    ensures q.id != s.launches ==> r in s.list && r.id == q.id && r.pid == q.pid
    ensures q.id != s.launches ==>
      if step.Update? && HasNews(s, step.pid) && s.children[step.pid].id == q.id
      then q.codeSet && Some(q.code) == s.children[step.pid].pending && !IsDead(r)
      else q.codeSet == r.codeSet && q.code == r.code
  {
    r := q;
    var k :| 0 <= k < |After(s, step).list| && After(s, step).list[k] == q;
    match step
    case Launch(pid) =>
      KeptHas(s.list);
      assert After(s, step).list[1..] == Kept(s.list);
    case Change(pid, code) =>
    case Update(pid) =>
      r := s.list[k];
      assert r in s.list;
      if HasNews(s, pid) {
        StatusLandsOnItsProcess(s, pid);
      }
    case Unreference(id) =>
      r := s.list[k];
      assert r in s.list;
    case Sweep =>
      KeptHas(s.list);
  }

  /** Every record holds the status last reported for its own process, or none when none was. */
  lemma {:induction false} RecordHoldsItsReport(steps: seq<Step>, q: Record)
    requires AllowedRun(START, steps) && q in Run(START, steps).list
    ensures Reported(START, steps, q.id) == if q.codeSet then Some(q.code) else None
    ensures !q.codeSet ==> q.code == -1
    decreases |steps|
  {
    if |steps| > 0 {
      var init, step := steps[..|steps| - 1], steps[|steps| - 1];
      var before := Run(START, init);
      RunKeepsInv(START, init);
      var r := RecordOneStep(before, step, q);
      if q.id == before.launches {
        if Reported(START, init, q.id).Some? {
          OnlyLaunchedAreReported(init, q.id);
        }
      } else {
        RecordHoldsItsReport(init, r);
      }
      hide After;
      hide Inv;
    }
  }

  /** The record of a dead process is never overwritten, and it stays in the list as long as Stanza refers to it. */
  lemma {:induction false} DeadRecordsStay(s: State, steps: seq<Step>, r: Record)
    requires Inv(s) && AllowedRun(s, steps) && r in s.list && IsDead(r)
    ensures forall q :: q in Run(s, steps).list && q.id == r.id ==>
      q.pid == r.pid && q.codeSet == r.codeSet && q.code == r.code
    ensures r.referenced && Unreference(r.id) !in steps ==> r in Run(s, steps).list
    decreases |steps|
  {
    if |steps| > 0 {
      var init, step := steps[..|steps| - 1], steps[|steps| - 1];
      assert steps == init + [step];
      var before := Run(s, init);
      RunKeepsInv(s, init);
      LaunchesGrow(s, init);
      DeadRecordsStay(s, init, r);
      forall q | q in Run(s, steps).list && q.id == r.id
        ensures q.pid == r.pid && q.codeSet == r.codeSet && q.code == r.code
      {
        var p := RecordOneStep(before, step, q);
      }
      if r.referenced && Unreference(r.id) !in steps {
        ReferencedStays(before, step, r);
      }
    }
  }

  lemma {:induction false} LaunchesGrow(s: State, steps: seq<Step>)
    requires AllowedRun(s, steps)
    ensures s.launches <= Run(s, steps).launches
    decreases |steps|
  {
    if |steps| > 0 {
      LaunchesGrow(s, steps[..|steps| - 1]);
    }
  }

  lemma ReferencedStays(s: State, step: Step, r: Record)
    requires Inv(s) && Allowed(s, step) && r in s.list && IsDead(r) && r.referenced && step != Unreference(r.id)
    ensures r in After(s, step).list
  {
    var k :| 0 <= k < |s.list| && s.list[k] == r;
    match step
    case Launch(pid) =>
      KeptHas(s.list);
    case Change(pid, code) =>
    case Update(pid) =>
      if HasNews(s, pid) {
        StatusLandsOnItsProcess(s, pid);
      }
      assert After(s, step).list[k] == r;
    case Unreference(id) =>
      assert After(s, step).list[k] == r;
    case Sweep =>
      KeptHas(s.list);
  }

  // ---------------------------------------------------------------- the handler

  /** The change of the process with the pid that no wait has reported yet. */
  function Unreported(steps: seq<Step>, pid: int, before: Option<int>): Option<int> {
    if |steps| == 0 then before
    else
      var step := steps[|steps| - 1];
      match step
      case Change(p, code) => if p == pid then Some(code) else Unreported(steps[..|steps| - 1], pid, before)
      case Update(p) => if p == pid then None else Unreported(steps[..|steps| - 1], pid, before)
      case Launch(p) => if p == pid then None else Unreported(steps[..|steps| - 1], pid, before)
      case Unreference(_) => Unreported(steps[..|steps| - 1], pid, before)
      case Sweep => Unreported(steps[..|steps| - 1], pid, before)
  }

  function Pending(s: State, pid: int): Option<int> { if pid in s.children then s.children[pid].pending else None }

  lemma StepPending(s: State, step: Step, pid: int)
    requires Allowed(s, step) && pid in After(s, step).children
    ensures Pending(After(s, step), pid) == Unreported([step], pid, Pending(s, pid))
    ensures !step.Launch? ==> pid in s.children
  {
    assert [step][..0] == [];
    hide Kept;
    hide SetChildStatus;
    hide IsDeadStatus;
  }

  /** In any run, launches and sweeps included, what a child has left to report is its last unreported change. */
  lemma {:induction false} PendingIsUnreported(s: State, steps: seq<Step>, pid: int)
    requires AllowedRun(s, steps) && pid in Run(s, steps).children
    ensures Pending(Run(s, steps), pid) == Unreported(steps, pid, Pending(s, pid))
    decreases |steps|
  {
    if |steps| > 0 {
      var init, step := steps[..|steps| - 1], steps[|steps| - 1];
      StepPending(Run(s, init), step, pid);
      assert [step][..0] == [];
      hide Allowed;
      hide After;
      if pid in Run(s, init).children {
        PendingIsUnreported(s, init, pid);
      }
    }
  }

  predicate AreChanges(steps: seq<Step>) { forall step :: step in steps ==> step.Change? }

  predicate NoChangeAfter(changes: seq<seq<Step>>, i: nat, pid: int) {
    forall k :: i < k < |changes| ==> forall step :: step in changes[k] ==> step.Change? ==> step.pid != pid
  }

  /** The handler asks for the pids one after the other; before each wait some children change their status. */
  function WalkSteps(pids: seq<int>, changes: seq<seq<Step>>): seq<Step>
    requires |changes| == |pids|
  {
    if |pids| == 0 then []
    else
      var last := |pids| - 1;
      WalkSteps(pids[..last], changes[..last]) + changes[last] + [Update(pids[last])]
  }

  lemma {:induction false} NoChangeNoNews(earlier: seq<Step>, later: seq<Step>, pid: int, before: Option<int>)
    requires forall step :: step in later ==> (step.Change? ==> step.pid != pid) && !step.Launch?
    ensures Unreported(earlier + later, pid, before) == Unreported(earlier, pid, before)
         || Unreported(earlier + later, pid, before) == None
    decreases |later|
  {
    if |later| == 0 {
      assert earlier + later == earlier;
    } else {
      assert (earlier + later)[..|earlier + later| - 1] == earlier + later[..|later| - 1];
      NoChangeNoNews(earlier, later[..|later| - 1], pid, before);
    }
  }

  /** A child that does not change after its turn in the walk has nothing left in the end. */
  lemma {:induction false} NoNewsSinceTurn(pids: seq<int>, changes: seq<seq<Step>>, i: nat, before: Option<int>)
    requires |changes| == |pids| && i < |pids| && forall c :: c in changes ==> AreChanges(c)
    requires NoChangeAfter(changes, i, pids[i])
    ensures Unreported(WalkSteps(pids, changes), pids[i], before) == None
    decreases |pids|
  {
    var last, steps := |pids| - 1, WalkSteps(pids, changes);
    var init := WalkSteps(pids[..last], changes[..last]);
    assert steps[|steps| - 1] == Update(pids[last]) && steps[..|steps| - 1] == init + changes[last];
    if i < last {
      assert forall c :: c in changes[..last] ==> c in changes;
      NoNewsSinceTurn(pids[..last], changes[..last], i, before);
      assert changes[last] in changes;
      NoChangeNoNews(init, changes[last], pids[i], before);
    }
  }

  /** One step of the walk leaves the pids of the list, and no child is new. */
  lemma StepKeepsPids(s: State, step: Step)
    requires Allowed(s, step) && (step.Change? || step.Update?)
    ensures Pids(After(s, step).list) == Pids(s.list) && After(s, step).children.Keys <= s.children.Keys
  {
    hide Find;
    hide IsDeadStatus;
  }

  lemma {:induction false} RunKeepsPids(s: State, steps: seq<Step>)
    requires AllowedRun(s, steps) && forall step :: step in steps ==> step.Change? || step.Update?
    ensures Pids(Run(s, steps).list) == Pids(s.list) && Run(s, steps).children.Keys <= s.children.Keys
    decreases |steps|
  {
    hide Allowed;
    hide After;
    hide Pids;
    if |steps| > 0 {
      RunKeepsPids(s, steps[..|steps| - 1]);
      StepKeepsPids(Run(s, steps[..|steps| - 1]), steps[|steps| - 1]);
    }
  }

  lemma {:induction false} WalkOnlyWaits(pids: seq<int>, changes: seq<seq<Step>>)
    requires |changes| == |pids| && forall c :: c in changes ==> AreChanges(c)
    ensures forall step :: step in WalkSteps(pids, changes) ==> step.Change? || step.Update?
  {
    if |pids| > 0 {
      var last := |pids| - 1;
      assert changes[last] in changes && forall c :: c in changes[..last] ==> c in changes;
      WalkOnlyWaits(pids[..last], changes[..last]);
    }
  }

  function Pids(list: seq<Record>): seq<int> { seq(|list|, i requires 0 <= i < |list| => list[i].pid) }

  /**
   * After the handler ran, whatever changed during its walk: a child that is left has its last unreported change
   * pending, and that is none when it did not change after the walk came to its record.
   */
  lemma HandlerLeavesNoNews(s: State, changes: seq<seq<Step>>, pid: int)
    requires Inv(s) && |changes| == |s.list| && forall c :: c in changes ==> AreChanges(c)
    requires AllowedRun(s, WalkSteps(Pids(s.list), changes))
    requires pid in Run(s, WalkSteps(Pids(s.list), changes)).children
    ensures var now, i := Run(s, WalkSteps(Pids(s.list), changes)), Find(s.list, pid);
      && Pending(now, pid) == Unreported(WalkSteps(Pids(s.list), changes), pid, Pending(s, pid))
      && i < |s.list|
      && (NoChangeAfter(changes, i, pid) ==> Pending(now, pid).None?)
  {
    var steps := WalkSteps(Pids(s.list), changes);
    PendingIsUnreported(s, steps, pid);
    WalkOnlyWaits(Pids(s.list), changes);
    RunKeepsPids(s, steps);
    StatusLandsOnItsProcess(s, pid);
    var i := Find(s.list, pid);
    assert Pids(s.list)[i] == pid;
    hide Inv;
    hide Run;
    hide AllowedRun;
    hide NoChangeAfter;
    if NoChangeAfter(changes, i, pid) {
      NoNewsSinceTurn(Pids(s.list), changes, i, Pending(s, pid));
    }
  }

  lemma {:induction false} RunSplits(s: State, a: seq<Step>, b: seq<Step>)
    requires AllowedRun(s, a + b)
    ensures AllowedRun(s, a) && AllowedRun(Run(s, a), b) && Run(s, a + b) == Run(Run(s, a), b)
    decreases |b|
  {
    hide Allowed;
    hide After;
    if |b| == 0 {
      assert a + b == a;
    } else {
      assert (a + b)[..|a + b| - 1] == a + b[..|b| - 1];
      RunSplits(s, a, b[..|b| - 1]);
    }
  }

  lemma {:induction false} RunPrefix(s: State, steps: seq<Step>, i: nat)
    requires AllowedRun(s, steps) && i < |steps|
    ensures AllowedRun(s, steps[..i + 1]) && AllowedRun(s, steps[..i]) && Allowed(Run(s, steps[..i]), steps[i])
    ensures Run(s, steps[..i + 1]) == After(Run(s, steps[..i]), steps[i])
    decreases |steps| - i
  {
    hide Allowed;
    hide After;
    if i + 1 < |steps| {
      RunPrefix(s, steps, i + 1);
    } else {
      assert steps[..i + 1] == steps;
    }
    assert steps[..i + 1][..i] == steps[..i];
  }

  /** The walk so far: then come the next changes and the next wait. */
  lemma {:induction false} WalkTurn(s: State, pids: seq<int>, changes: seq<seq<Step>>, i: nat)
    requires |changes| == |pids| && i < |pids| && AllowedRun(s, WalkSteps(pids, changes))
    ensures AllowedRun(s, WalkSteps(pids[..i], changes[..i]))
    ensures AllowedRun(s, WalkSteps(pids[..i + 1], changes[..i + 1]))
    ensures var before := Run(s, WalkSteps(pids[..i], changes[..i]));
      && AllowedRun(before, changes[i])
      && Run(s, WalkSteps(pids[..i + 1], changes[..i + 1])) == After(Run(before, changes[i]), Update(pids[i]))
    decreases |pids| - i
  {
    hide Allowed;
    hide After;
    if i + 1 < |pids| {
      WalkTurn(s, pids, changes, i + 1);
    } else {
      assert pids[..i + 1] == pids && changes[..i + 1] == changes;
    }
    var init := WalkSteps(pids[..i], changes[..i]);
    assert pids[..i + 1][..i] == pids[..i] && changes[..i + 1][..i] == changes[..i];
    var steps := init + changes[i] + [Update(pids[i])];
    assert steps == WalkSteps(pids[..i + 1], changes[..i + 1]) && steps[..|steps| - 1] == init + changes[i];
    RunSplits(s, init, changes[i]);
  }

  // ---------------------------------------------------------------- the operations on the list

  /** The list while it is swept: what is kept of the records seen, and the others. */
  ghost predicate Swept(all: seq<Record>, list: seq<Record>, seen: nat, curr: nat) {
    seen <= |all| && list == Kept(all[..seen]) + all[seen..] && curr == |Kept(all[..seen])|
  }

  lemma SweepStarts(all: seq<Record>)
    ensures Swept(all, all, 0, 0)
  {
  }

  lemma SweepTurn(all: seq<Record>, list: seq<Record>, seen: nat, curr: nat)
    requires Swept(all, list, seen, curr) && curr < |list|
    ensures seen < |all| && list[curr] == all[seen]
    ensures if IsSafeToFree(all[seen]) then Swept(all, list[..curr] + list[curr + 1..], seen + 1, curr)
            else Swept(all, list, seen + 1, curr + 1)
  {
    KeptOneMore(all, seen);
    hide Kept;
    hide IsSafeToFree;
    assert list == Kept(all[..seen]) + [all[seen]] + all[seen + 1..];
  }

  class Registry {
    var list: seq<Record>
    /** What the system knows of the children. */
    var children: map<int, Child>
    var launches: nat

    ghost function Now(): State
      reads this
    {
      State(list, children, launches)
    }

    constructor ()
      ensures Now() == START && Inv(Now())
    {
      list, children, launches := [], map[], 0;
    }

    method GetChildProcess(pid: int) returns (place: nat)
      ensures place == Find(list, pid)
    {
      place := 0;
      while place < |list| && list[place].pid != pid
        invariant place <= |list| && Find(list, pid) == place + Find(list[place..], pid)
      {
        place := place + 1;
      }
    }

    /** register_child_process and add_child_process for a child that was just launched. */
    method RegisterChildProcess(pid: int)
      requires Inv(Now()) && pid !in children
      modifies this
      ensures Inv(Now()) && Now() == After(old(Now()), Launch(pid))
    {
      LaunchKeepsInv(Now(), pid);
      RemoveDeadChildProcesses();
      var child := Record(launches, pid, false, -1, true);
      children := children[pid := Child(launches, None)];
      launches := launches + 1;
      list := [child] + list;
    }

    /** The walk along the list that unlinks the nodes it may free. */
    method RemoveDeadChildProcesses()
      modifies `list
      ensures list == Kept(old(list))
    {
      hide Kept;
      hide IsSafeToFree;
      var curr := 0;
      ghost var all, seen := list, 0;
      SweepStarts(all);
      while curr < |list|
        invariant Swept(all, list, seen, curr)
        decreases |all| - seen
      {
        SweepTurn(all, list, seen, curr);
        if IsSafeToFree(list[curr]) {
          list := list[..curr] + list[curr + 1..];
        } else {
          curr := curr + 1;
        }
        seen := seen + 1;
      }
      assert all[..seen] == all;
    }

    /** update_child_status: waitpid and, when it reports a change, set_child_status. */
    method UpdateChildStatus(pid: int)
      requires Inv(Now())
      modifies this
      ensures Inv(Now()) && Now() == After(old(Now()), Update(pid))
    {
      StepKeepsInv(Now(), Update(pid));
      if pid in children && children[pid].pending.Some? {
        var status := children[pid].pending.value;
        children := Waited(children, pid);
        var place := GetChildProcess(pid);
        if place < |list| {
          list := list[place := list[place].(codeSet := true, code := status)];
        }
      }
    }

    /** Some children change their status while the handler runs. */
    method Happen(steps: seq<Step>)
      requires AreChanges(steps) && AllowedRun(Now(), steps)
      modifies `children
      ensures Now() == Run(old(Now()), steps)
    {
      ghost var start := Now();
      assert steps[..|steps|] == steps;
      for i := 0 to |steps|
        invariant AllowedRun(start, steps[..i]) && Now() == Run(start, steps[..i])
      {
        RunPrefix(start, steps, i);
        assert steps[i] in steps;
        var pid := steps[i].pid;
        children := children[pid := children[pid].(pending := Some(steps[i].code))];
      }
    }

    /** The walk over the list; the changes are those that come before each wait. */
    method UpdateAllChildStatuses(changes: seq<seq<Step>>)
      requires Inv(Now()) && |changes| == |list| && forall c :: c in changes ==> AreChanges(c)
      requires AllowedRun(Now(), WalkSteps(Pids(list), changes))
      modifies this
      ensures Inv(Now()) && Now() == Run(old(Now()), WalkSteps(Pids(old(list)), changes))
    {
      ghost var start := Now();
      ghost var pids := Pids(list);
      hide Inv;
      hide After;
      for i := 0 to |list|
        invariant Inv(Now()) && Pids(list) == pids
        invariant AllowedRun(start, WalkSteps(pids[..i], changes[..i]))
        invariant Now() == Run(start, WalkSteps(pids[..i], changes[..i]))
      {
        WalkTurn(start, pids, changes, i);
        assert changes[i] in changes;
        RunKeepsInv(Now(), changes[i]);
        RunKeepsPids(Now(), changes[i]);
        Happen(changes[i]);
        assert list[i].pid == pids[i] by { assert Pids(list)[i] == list[i].pid; }
        StepKeepsPids(Now(), Update(pids[i]));
        UpdateChildStatus(list[i].pid);
      }
      assert pids[..|pids|] == pids && changes[..|changes|] == changes;
    }
  }
}
