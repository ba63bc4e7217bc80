/**
 * core/threadedreader.c as interleaved atomic steps: one statement of the reader thread or of its owner at a time,
 * with the mutex as a lock that a thread may have to wait for.
 */
module ThreadedReader {
  datatype Owner = Nobody | ByThread | ByClient

  /** Where the reader thread is: the loop, push_char, the final locked section. */
  datatype ThreadPc =
    | Check | Get
    | PushLock | PushTest | PushEnsure | PushStore | PushIncr | PushUnlock
    | SetNotRunning | FinishLock | FinishClear | FinishRead | FinishUnlock | ThreadFree | ThreadDone

  /** Where the owner is: between calls, in stop_threaded_reader, or in delete_threaded_reader. */
  datatype ClientPc =
    | Idle
    | StopLock | StopRequest | StopNotRunning | StopUnlock
    | DeleteLock | DeleteRead | DeleteFlag | DeleteUnlock | ClientFree | ClientDone

  /** The owner's next call; it makes any number of stops, and no call after the delete. */
  datatype Call = Stop | Delete

  /** The ThreadedReader struct, and how often it was freed. */
  datatype Reader = Reader(mutex: Owner, buffer: seq<char>, length: nat, capacity: nat, stop_requested: bool,
                           running: bool, thread_running: bool, free_on_finish: bool, freed: nat)

  datatype Thread = Thread(pc: ThreadPc, position: nat, c: char, free_resources: bool)
  datatype Client = Client(pc: ClientPc, was_running: bool)

  datatype State = State(r: Reader, t: Thread, c: Client)

  const INITIAL_CAPACITY := 1024

  /** After make_threaded_reader, its mutex being initialised before the thread takes its first step. */
  predicate Init(s: State) {
    && s.r.mutex.Nobody? && |s.r.buffer| == s.r.capacity == INITIAL_CAPACITY && s.r.length == 0
    && !s.r.stop_requested && s.r.running && s.r.thread_running && !s.r.free_on_finish && s.r.freed == 0
    && s.t.pc.Check? && s.t.position == 0 && s.c.pc.Idle?
  }

  // ---------------------------------------------------------------- the thread

  /** Doubled until it suffices: no doubling too few, and none too many. */
  function Grow(capacity: nat, wanted: nat): (r: nat)
    requires capacity > 0
    ensures r >= wanted && r >= capacity
    ensures r == capacity || r < 2 * wanted
    decreases wanted - capacity
  {
    if capacity >= wanted then capacity else Grow(2 * capacity, wanted)
  }

  /** The loop of ensure_buffer_capacity. */
  method EnsureBufferCapacity(capacity: nat, desired_cap: nat) returns (new_cap: nat)
    requires capacity > 0
    ensures new_cap == Grow(capacity, desired_cap)
    ensures desired_cap <= new_cap && (new_cap == capacity || (capacity < new_cap < 2 * desired_cap))
  {
    new_cap := capacity;
    if capacity < desired_cap {
      while new_cap < desired_cap
        invariant new_cap > 0 && Grow(new_cap, desired_cap) == Grow(capacity, desired_cap)
      {
        new_cap := new_cap * 2;
      }
    }
  }

  /** realloc: the contents are kept, the rest is arbitrary. */
  function Resize(buffer: seq<char>, capacity: nat): (r: seq<char>)
    ensures |r| == capacity && forall i :: 0 <= i < |buffer| && i < capacity ==> r[i] == buffer[i]
  {
    if |buffer| >= capacity then buffer[..capacity] else buffer + seq(capacity - |buffer|, _ => '\0')
  }

  predicate CanThread(r: Reader, t: Thread) {
    (t.pc.PushLock? || t.pc.FinishLock? ==> r.mutex.Nobody?) && !t.pc.ThreadDone?
  }

  predicate InPush(pc: ThreadPc) {
    pc.PushLock? || pc.PushTest? || pc.PushEnsure? || pc.PushStore? || pc.PushIncr? || pc.PushUnlock?
  }

  /** push_char. */
  function PushStep(r: Reader, t: Thread): (Reader, Thread)
    requires InPush(t.pc)
  {
    match t.pc
    case PushLock => (r.(mutex := ByThread), t.(pc := PushTest))
    case PushTest => (r, t.(pc := if r.stop_requested then PushUnlock else PushEnsure))
    case PushEnsure =>
      var capacity := if r.capacity == 0 then 0 else Grow(r.capacity, r.length + 1);
      (r.(capacity := capacity, buffer := Resize(r.buffer, capacity)), t.(pc := PushStore))
    case PushStore => (r.(buffer := StoreAt(r.buffer, r.length, t.c)), t.(pc := PushIncr))
    case PushIncr => (r.(length := r.length + 1), t.(pc := PushUnlock))
    case PushUnlock => (r.(mutex := Nobody), t.(pc := Check))
  }

  function StoreAt(buffer: seq<char>, i: nat, c: char): seq<char> { if i < |buffer| then buffer[i := c] else buffer }

  function ThreadStep(stream: seq<char>, r: Reader, t: Thread): (Reader, Thread)
    requires CanThread(r, t)
  {
    if InPush(t.pc) then PushStep(r, t)
    else
      match t.pc
      case Check => (r, t.(pc := if r.stop_requested then SetNotRunning else Get))
      case Get =>
        if t.position < |stream| then (r, t.(c := stream[t.position], position := t.position + 1, pc := PushLock))
        else (r, t.(pc := SetNotRunning))
      case SetNotRunning => (r.(running := false), t.(pc := FinishLock))
      case FinishLock => (r.(mutex := ByThread), t.(pc := FinishClear))
      case FinishClear => (r.(thread_running := false), t.(pc := FinishRead))
      case FinishRead => (r, t.(free_resources := r.free_on_finish, pc := FinishUnlock))
      case FinishUnlock => (r.(mutex := Nobody), t.(pc := if t.free_resources then ThreadFree else ThreadDone))
      case ThreadFree => (r.(freed := r.freed + 1), t.(pc := ThreadDone))
  }

  // ---------------------------------------------------------------- the owner

  predicate CanClient(r: Reader, c: Client) {
    (c.pc.StopLock? || c.pc.DeleteLock? ==> r.mutex.Nobody?) && !c.pc.ClientDone?
  }

  function ClientStep(r: Reader, c: Client, call: Call): (Reader, Client)
    requires CanClient(r, c)
  {
    match c.pc
    case Idle => (r, c.(pc := if call == Stop then StopLock else DeleteLock))
    case StopLock => (r.(mutex := ByClient), c.(pc := StopRequest))
    case StopRequest => (r.(stop_requested := true), c.(pc := StopNotRunning))
    case StopNotRunning => (r.(running := false), c.(pc := StopUnlock))
    case StopUnlock => (r.(mutex := Nobody), c.(pc := Idle))
    case DeleteLock => (r.(mutex := ByClient), c.(pc := DeleteRead))
    case DeleteRead => (r, c.(was_running := r.thread_running, pc := DeleteFlag))
    case DeleteFlag => (r.(free_on_finish := r.free_on_finish || c.was_running), c.(pc := DeleteUnlock))
    case DeleteUnlock => (r.(mutex := Nobody), c.(pc := if c.was_running then ClientDone else ClientFree))
    case ClientFree => (r.(freed := r.freed + 1), c.(pc := ClientDone))
  }

  // ---------------------------------------------------------------- interleavings

  datatype Move = ThreadMove | ClientMove(call: Call)

  predicate CanMove(s: State, m: Move) { if m.ThreadMove? then CanThread(s.r, s.t) else CanClient(s.r, s.c) }

  function Next(stream: seq<char>, s: State, m: Move): State
    requires CanMove(s, m)
  {
    if m.ThreadMove? then
      var (r, t) := ThreadStep(stream, s.r, s.t);
      State(r, t, s.c)
    else
      var (r, c) := ClientStep(s.r, s.c, m.call);
      State(r, s.t, c)
  }

  // ---------------------------------------------------------------- what every step keeps

  predicate ThreadHolds(pc: ThreadPc) {
    (InPush(pc) && !pc.PushLock?) || pc.FinishClear? || pc.FinishRead? || pc.FinishUnlock?
  }

  predicate ClientHolds(pc: ClientPc) {
    pc.StopRequest? || pc.StopNotRunning? || pc.StopUnlock? || pc.DeleteRead? || pc.DeleteFlag? || pc.DeleteUnlock?
  }

  predicate Pushing(pc: ThreadPc) { pc.PushEnsure? || pc.PushStore? || pc.PushIncr? }

  /** A character was read from the stream and is not in the buffer yet. */
  predicate Carrying(pc: ThreadPc) { pc.PushLock? || pc.PushTest? || Pushing(pc) }

  predicate LoopOver(pc: ThreadPc) { !pc.Check? && !pc.Get? && !InPush(pc) }

  /** The thread's final locked section has read free_on_finish; the owner's has read thread_running. */
  predicate ThreadDecided(pc: ThreadPc) { pc.FinishUnlock? || pc.ThreadFree? || pc.ThreadDone? }
  predicate ClientDecided(pc: ClientPc) { pc.DeleteUnlock? || pc.ClientFree? || pc.ClientDone? }

  predicate Locking(s: State) {
    && (s.r.mutex.ByThread? <==> ThreadHolds(s.t.pc))
    && (s.r.mutex.ByClient? <==> ClientHolds(s.c.pc))
  }

  /** Who frees: the owner exactly when the thread had already cleared thread_running, else the thread. */
  predicate Freeing(s: State) {
    && (s.r.thread_running <==> !s.t.pc.FinishRead? && !ThreadDecided(s.t.pc))
    && (s.c.pc.DeleteFlag? ==> s.c.was_running == s.r.thread_running)
    && (s.r.free_on_finish <==> ClientDecided(s.c.pc) && s.c.was_running)
    && ((s.c.pc.DeleteFlag? || ClientDecided(s.c.pc)) && !s.c.was_running ==> s.t.pc.ThreadDone?)
    && (ThreadDecided(s.t.pc) && s.t.free_resources ==> s.c.pc.ClientDone?)
    && (ThreadDecided(s.t.pc) ==> (s.t.free_resources <==> ClientDecided(s.c.pc) && s.c.was_running))
    && (s.t.pc.ThreadFree? ==> s.t.free_resources) && (s.c.pc.ClientFree? ==> !s.c.was_running)
    && s.r.freed == (if s.t.pc.ThreadDone? && s.t.free_resources then 1 else 0)
                  + (if s.c.pc.ClientDone? && !s.c.was_running then 1 else 0)
  }

  /** The buffer is a prefix of the stream, and every access stays within its capacity. */
  predicate Contents(stream: seq<char>, r: Reader, t: Thread) {
    && 0 < r.capacity == |r.buffer| && r.length <= r.capacity && r.length <= t.position <= |stream|
    && r.buffer[..r.length] == stream[..r.length]
    && (Carrying(t.pc) ==> t.position > 0 && t.c == stream[t.position - 1])
    && (Pushing(t.pc) ==> r.length == t.position - 1)
    && (t.pc.PushStore? || t.pc.PushIncr? ==> r.length < r.capacity)
    && (t.pc.PushIncr? ==> r.buffer[r.length] == t.c)
  }

  /** It is all that was read unless a stop was requested; `running` is 0 only when no push can follow. */
  predicate Stopping(stream: seq<char>, s: State) {
    && s.t.position <= |stream|
    && (Pushing(s.t.pc) ==> !s.r.stop_requested)
    && (!s.r.stop_requested ==> s.t.position == s.r.length + if Carrying(s.t.pc) then 1 else 0)
    && (LoopOver(s.t.pc) && !s.r.stop_requested ==> s.t.position == |stream|)
    && (s.c.pc.StopNotRunning? || s.c.pc.StopUnlock? ==> s.r.stop_requested)
    && (s.c.pc.StopUnlock? ==> !s.r.running)
    && (!s.r.running ==> s.r.stop_requested || (LoopOver(s.t.pc) && !s.t.pc.SetNotRunning?))
    && (LoopOver(s.t.pc) && !s.t.pc.SetNotRunning? ==> !s.r.running)
  }

  predicate Inv(stream: seq<char>, s: State) {
    Locking(s) && Freeing(s) && Contents(stream, s.r, s.t) && Stopping(stream, s)
  }

  lemma StartsInOrder(stream: seq<char>, s: State)
    requires Init(s)
    ensures Inv(stream, s)
  {
  }

  lemma NextKeepsLocking(stream: seq<char>, s: State, m: Move)
    requires Locking(s) && CanMove(s, m)
    ensures Locking(Next(stream, s, m))
  {
    hide Grow;
    hide Resize;
  }

  lemma NextKeepsFreeing(stream: seq<char>, s: State, m: Move)
    requires Locking(s) && Freeing(s) && CanMove(s, m)
    ensures Freeing(Next(stream, s, m))
  {
    hide Grow;
    hide Resize;
  }

  lemma NextKeepsStopping(stream: seq<char>, s: State, m: Move)
    requires Locking(s) && Stopping(stream, s) && CanMove(s, m)
    ensures Stopping(stream, Next(stream, s, m))
  {
    hide Grow;
    hide Resize;
  }

  lemma PushKeepsContents(stream: seq<char>, r: Reader, t: Thread)
    requires Contents(stream, r, t) && InPush(t.pc)
    requires t.pc.PushTest? && !r.stop_requested ==> r.length == t.position - 1
    ensures var (r', t') := PushStep(r, t); Contents(stream, r', t')
  {
    var (r', t') := PushStep(r, t);
    if t.pc.PushEnsure? || t.pc.PushStore? {
      assert r'.buffer[..r'.length] == r.buffer[..r.length];
    } else if t.pc.PushIncr? {
      assert r'.buffer[..r'.length] == r.buffer[..r.length] + [t.c] == stream[..r'.length];
    }
  }

  lemma LoopKeepsContents(stream: seq<char>, r: Reader, t: Thread)
    requires Contents(stream, r, t) && CanThread(r, t) && !InPush(t.pc)
    ensures var (r', t') := ThreadStep(stream, r, t); Contents(stream, r', t')
  {
    hide PushStep;
  }

  lemma ClientKeepsContents(stream: seq<char>, r: Reader, t: Thread, c: Client, call: Call)
    requires Contents(stream, r, t) && CanClient(r, c)
    ensures Contents(stream, ClientStep(r, c, call).0, t)
  {
  }

  lemma NextKeepsContents(stream: seq<char>, s: State, m: Move)
    requires Contents(stream, s.r, s.t) && Stopping(stream, s) && CanMove(s, m)
    ensures var next := Next(stream, s, m); Contents(stream, next.r, next.t)
  {
    if m.ClientMove? {
      hide ClientStep;
      ClientKeepsContents(stream, s.r, s.t, s.c, m.call);
    } else if InPush(s.t.pc) {
      hide PushStep;
      PushKeepsContents(stream, s.r, s.t);
    } else {
      hide ThreadStep;
      LoopKeepsContents(stream, s.r, s.t);
    }
  }

  lemma NextKeepsInv(stream: seq<char>, s: State, m: Move)
    requires Inv(stream, s) && CanMove(s, m)
    ensures Inv(stream, Next(stream, s, m))
  {
    hide Locking;
    hide Freeing;
    hide Contents;
    hide Stopping;
    NextKeepsLocking(stream, s, m);
    NextKeepsFreeing(stream, s, m);
    NextKeepsContents(stream, s, m);
    NextKeepsStopping(stream, s, m);
  }

  // ---------------------------------------------------------------- results, over every interleaving

  ghost predicate IsRun(stream: seq<char>, states: seq<State>, moves: seq<Move>) {
    && |states| == |moves| + 1 && Init(states[0])
    && forall i :: 0 <= i < |moves| ==>
         CanMove(states[i], moves[i]) && states[i + 1] == Next(stream, states[i], moves[i])
  }

  lemma {:induction false} Reachable(stream: seq<char>, states: seq<State>, moves: seq<Move>, n: nat)
    requires IsRun(stream, states, moves) && n <= |moves|
    ensures Inv(stream, states[n])
    decreases n
  {
    hide Next;
    hide Inv;
    if n == 0 {
      StartsInOrder(stream, states[0]);
    } else {
      Reachable(stream, states, moves, n - 1);
      NextKeepsInv(stream, states[n - 1], moves[n - 1]);
    }
  }

  /**
   * The reader is freed at most once, exactly when both sides have gone through their locked sections and finished, by
   * someone not holding the mutex; from then on neither side has a step left, so nothing touches it again.
   */
  lemma FreedExactlyOnce(stream: seq<char>, states: seq<State>, moves: seq<Move>, n: nat)
    requires IsRun(stream, states, moves) && n <= |moves|
    ensures var s := states[n];
      && s.r.freed <= 1 && (s.r.freed == 1 <==> s.t.pc.ThreadDone? && s.c.pc.ClientDone?)
      && (s.t.pc.ThreadFree? || s.c.pc.ClientFree? ==> s.r.mutex.Nobody?)
      && (s.r.freed > 0 ==> !CanMove(s, ThreadMove) && forall call :: !CanMove(s, ClientMove(call)))
  {
    Reachable(stream, states, moves, n);
  }

  /** No interleaving gets stuck before that. */
  lemma NoDeadlock(stream: seq<char>, states: seq<State>, moves: seq<Move>, n: nat)
    requires IsRun(stream, states, moves) && n <= |moves| && states[n].r.freed == 0
    ensures CanMove(states[n], ThreadMove) || CanMove(states[n], ClientMove(Delete))
  {
    Reachable(stream, states, moves, n);
  }

  /** Whatever is in the buffer is a prefix of the stream; all of it, if the reader stopped by itself. */
  lemma BufferIsPrefix(stream: seq<char>, states: seq<State>, moves: seq<Move>, n: nat)
    requires IsRun(stream, states, moves) && n <= |moves|
    ensures var r := states[n].r;
      && r.length <= |r.buffer| && r.length <= |stream| && r.buffer[..r.length] == stream[..r.length]
      && (!r.running && !r.stop_requested ==> r.length == |stream|)
  {
    Reachable(stream, states, moves, n);
  }

  lemma FrozenStep(stream: seq<char>, s: State, m: Move)
    requires Inv(stream, s) && CanMove(s, m) && !s.r.running
    ensures var next := Next(stream, s, m);
      !next.r.running && next.r.buffer == s.r.buffer && next.r.length == s.r.length
  {
    hide Freeing;
    hide Contents;
  }

  /** The promise of the header: contents retrieved once `running` is 0 are the contents retrieved ever after. */
  lemma {:induction false} StoppedMeansFrozen(stream: seq<char>, states: seq<State>, moves: seq<Move>, i: nat, j: nat)
    requires IsRun(stream, states, moves) && i <= j <= |moves| && !states[i].r.running
    ensures var r, later := states[i].r, states[j].r;
      !later.running && later.buffer == r.buffer && later.length == r.length
    decreases j
  {
    hide Next;
    hide Inv;
    hide Init;
    if i < j {
      StoppedMeansFrozen(stream, states, moves, i, j - 1);
      Reachable(stream, states, moves, j - 1);
      FrozenStep(stream, states[j - 1], moves[j - 1]);
    }
  }

  /** A stop that has released the mutex leaves `running` at 0. */
  lemma StopStops(stream: seq<char>, states: seq<State>, moves: seq<Move>, n: nat)
    requires IsRun(stream, states, moves) && n < |moves| && states[n].c.pc.StopUnlock? && moves[n].ClientMove?
    ensures !states[n + 1].r.running && states[n + 1].c.pc.Idle?
  {
    Reachable(stream, states, moves, n);
  }

  // ---------------------------------------------------------------- everything ends

  /** How many moves the thread has left at most, what is still to be read included. */
  function Left(stream: seq<char>, t: Thread): nat
    requires t.position <= |stream|
  {
    8 * (|stream| - t.position) +
    match t.pc
    case Check => 8
    case Get => 7
    case PushLock => 14
    case PushTest => 13
    case PushEnsure => 12
    case PushStore => 11
    case PushIncr => 10
    case PushUnlock => 9
    case SetNotRunning => 6
    case FinishLock => 5
    case FinishClear => 4
    case FinishRead => 3
    case FinishUnlock => 2
    case ThreadFree => 1
    case ThreadDone => 0
  }

  /** The same once a stop was requested, however much there is still to be read. */
  function LeftAfterStop(t: Thread): nat {
    match t.pc
    case Get => 11
    case PushLock => 10
    case PushTest => 9
    case PushUnlock => 8
    case Check => 7
    case SetNotRunning => 6
    case FinishLock => 5
    case FinishClear => 4
    case FinishRead => 3
    case FinishUnlock => 2
    case ThreadFree => 1
    case _ => 0
  }

  /** How many moves the owner needs to come back from its call. */
  function ClientLeft(c: Client): nat {
    match c.pc
    case StopLock => 4
    case StopRequest => 3
    case StopNotRunning => 2
    case StopUnlock => 1
    case DeleteLock => 5
    case DeleteRead => 4
    case DeleteFlag => 3
    case DeleteUnlock => 2
    case ClientFree => 1
    case _ => 0
  }

  lemma ThreadLeavesLess(stream: seq<char>, r: Reader, t: Thread)
    requires CanThread(r, t) && t.position <= |stream| && (Pushing(t.pc) ==> !r.stop_requested)
    ensures var (r', t') := ThreadStep(stream, r, t);
      && t'.position <= |stream| && Left(stream, t') < Left(stream, t)
      && (r.stop_requested ==> r'.stop_requested && LeftAfterStop(t') < LeftAfterStop(t))
  {
    hide Grow;
    hide Resize;
    hide StoreAt;
  }

  lemma ClientLeavesLess(r: Reader, c: Client, call: Call)
    requires CanClient(r, c)
    ensures var (r', c') := ClientStep(r, c, call);
      (c.pc.Idle? || ClientLeft(c') < ClientLeft(c)) && (r.stop_requested ==> r'.stop_requested)
  {
  }

  /** Every move of the thread leaves it less to do, every move of the owner leaves it as much as before. */
  lemma MoveLeavesLess(stream: seq<char>, s: State, m: Move)
    requires Inv(stream, s) && CanMove(s, m)
    ensures var next := Next(stream, s, m);
      && next.t.position <= |stream|
      && (if m.ThreadMove? then Left(stream, next.t) < Left(stream, s.t) && next.c == s.c
          else next.t == s.t && (s.c.pc.Idle? || ClientLeft(next.c) < ClientLeft(s.c)))
      && (s.r.stop_requested ==>
            next.r.stop_requested && (m.ThreadMove? ==> LeftAfterStop(next.t) < LeftAfterStop(s.t)))
  {
    hide Locking;
    hide Freeing;
    hide Contents;
    hide ThreadStep;
    hide ClientStep;
    hide Left;
    hide LeftAfterStop;
    hide ClientLeft;
    if m.ThreadMove? {
      ThreadLeavesLess(stream, s.r, s.t);
    } else {
      ClientLeavesLess(s.r, s.c, m.call);
    }
  }

  function ThreadMoves(moves: seq<Move>): nat {
    if |moves| == 0 then 0 else ThreadMoves(moves[..|moves| - 1]) + if moves[|moves| - 1].ThreadMove? then 1 else 0
  }

  /** In no run does the thread make more moves than eight for each character of the stream, and eight. */
  lemma {:induction false} ThreadEnds(stream: seq<char>, states: seq<State>, moves: seq<Move>, n: nat)
    requires IsRun(stream, states, moves) && n <= |moves|
    ensures states[n].t.position <= |stream|
    ensures ThreadMoves(moves[..n]) + Left(stream, states[n].t) <= 8 * |stream| + 8
    decreases n
  {
    hide Next;
    hide Inv;
    hide Left;
    if n == 0 {
      FullRank(stream, states[0]);
    } else {
      ThreadEnds(stream, states, moves, n - 1);
      Reachable(stream, states, moves, n - 1);
      MoveLeavesLess(stream, states[n - 1], moves[n - 1]);
      assert moves[..n][..n - 1] == moves[..n - 1];
    }
  }

  lemma FullRank(stream: seq<char>, s: State)
    requires Init(s)
    ensures Left(stream, s.t) == 8 * |stream| + 8
  {
  }

  /** A stop is prompt: after it the thread makes at most eleven moves, whatever the stream still holds. */
  lemma {:induction false} StopIsPrompt(stream: seq<char>, states: seq<State>, moves: seq<Move>, i: nat, j: nat)
    requires IsRun(stream, states, moves) && i <= j <= |moves| && states[i].r.stop_requested
    ensures states[j].r.stop_requested
    ensures ThreadMoves(moves[i..j]) + LeftAfterStop(states[j].t) <= LeftAfterStop(states[i].t) <= 11
    decreases j
  {
    hide Next;
    hide Inv;
    if i < j {
      StopIsPrompt(stream, states, moves, i, j - 1);
      Reachable(stream, states, moves, j - 1);
      MoveLeavesLess(stream, states[j - 1], moves[j - 1]);
      assert moves[i..j][..j - 1 - i] == moves[i..j - 1];
    }
  }

  /**
   * So a thread that goes on moving gets to its end: one that cannot move is done, with `running` at 0 and all of the
   * stream read if there was no stop, or waits for the mutex that the owner holds; the owner can then move, and gives
   * the mutex back within three moves.
   */
  lemma StuckMeansDone(stream: seq<char>, states: seq<State>, moves: seq<Move>, n: nat)
    requires IsRun(stream, states, moves) && n <= |moves| && !CanMove(states[n], ThreadMove)
    ensures var s := states[n];
      if s.t.pc.ThreadDone? then !s.r.running && (!s.r.stop_requested ==> s.r.length == |stream|)
      else s.r.mutex.ByClient? && forall call :: CanMove(s, ClientMove(call))
  {
    Reachable(stream, states, moves, n);
  }

  /** While the owner holds the mutex each of its moves brings the release nearer, and it is at most three away. */
  lemma OwnerReleases(stream: seq<char>, s: State, call: Call)
    requires Inv(stream, s) && s.r.mutex.ByClient?
    ensures CanMove(s, ClientMove(call)) && 0 < UntilRelease(s.c) <= 3
    ensures var next := Next(stream, s, ClientMove(call));
      UntilRelease(next.c) == UntilRelease(s.c) - 1 && (next.r.mutex.Nobody? <==> UntilRelease(next.c) == 0)
  {
    hide Freeing;
    hide Contents;
    hide Stopping;
  }

  function UntilRelease(c: Client): nat {
    match c.pc
    case StopRequest => 3
    case StopNotRunning => 2
    case StopUnlock => 1
    case DeleteRead => 3
    case DeleteFlag => 2
    case DeleteUnlock => 1
    case _ => 0
  }

  // ---------------------------------------------------------------- what a call did when it is back

  predicate InStop(pc: ClientPc) { pc.StopLock? || pc.StopRequest? || pc.StopNotRunning? || pc.StopUnlock? }

  predicate InDelete(pc: ClientPc) {
    pc.DeleteLock? || pc.DeleteRead? || pc.DeleteFlag? || pc.DeleteUnlock? || pc.ClientFree? || pc.ClientDone?
  }

  /**
   * A stop comes back with the stop requested and `running` at 0. A delete ends the calls; when it is through, either
   * the reader is freed, or the thread is still busy and has the order to free it.
   */
  lemma {:induction false} CallDoesItsWork(stream: seq<char>, states: seq<State>, moves: seq<Move>, i: nat, j: nat)
    requires IsRun(stream, states, moves) && i < j <= |moves| && states[i].c.pc.Idle? && moves[i].ClientMove?
    requires forall k :: i < k < j ==> !states[k].c.pc.Idle?
    ensures var s := states[j];
      match moves[i].call
      case Stop => InStop(s.c.pc) || (s.c.pc.Idle? && s.r.stop_requested && !s.r.running)
      case Delete =>
        && InDelete(s.c.pc)
        && (s.c.pc.ClientDone? ==> s.r.freed == 1 || (s.r.free_on_finish && !s.t.pc.ThreadDone?))
    decreases j
  {
    hide Next;
    hide Inv;
    hide Init;
    hide InStop;
    hide InDelete;
    Reachable(stream, states, moves, j);
    Reachable(stream, states, moves, j - 1);
    if i + 1 < j {
      CallDoesItsWork(stream, states, moves, i, j - 1);
    }
    CallStep(stream, states[j - 1], moves[j - 1]);
    if states[j].c.pc.ClientDone? {
      CallIsThrough(stream, states[j]);
    }
  }

  lemma CallStep(stream: seq<char>, s: State, m: Move)
    requires Inv(stream, s) && CanMove(s, m)
    ensures var next := Next(stream, s, m);
      && (m.ThreadMove? ==> next.c.pc == s.c.pc)
      && (m.ClientMove? && s.c.pc.Idle? ==> if m.call == Stop then InStop(next.c.pc) else InDelete(next.c.pc))
      && (InDelete(s.c.pc) ==> InDelete(next.c.pc))
      && (InStop(s.c.pc) || InDelete(s.c.pc) ==> !s.c.pc.Idle?)
      && (InStop(s.c.pc) ==> InStop(next.c.pc) || (next.c.pc.Idle? && next.r.stop_requested && !next.r.running))
  {
    hide Locking;
    hide Freeing;
    hide Contents;
    hide ThreadStep;
  }

  lemma CallIsThrough(stream: seq<char>, s: State)
    requires Inv(stream, s) && s.c.pc.ClientDone?
    ensures s.r.freed == 1 || (s.r.free_on_finish && !s.t.pc.ThreadDone?)
  {
    hide Locking;
    hide Contents;
    hide Stopping;
  }
}
