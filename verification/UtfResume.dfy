/** Conversion is resumable, for every converter, either flag and every input, well formed or not. */
module UtfResume {
  import opened Unicode
  import opened ConvertUtf

  // ---------------------------------------------------------------- one turn is local

  /** With less room a turn is the same or stops for lack of room. */
  lemma StepWithLessRoom(c: Converter, flags: ConversionFlags, src: seq<UTF32>, small: nat, room: nat)
    requires |src| > 0 && small <= room
    ensures var step := StepOf(c, flags, src, small);
      step == Stop(TargetExhausted) || step == StepOf(c, flags, src, room)
    ensures small >= 4 ==> StepOf(c, flags, src, small) != Stop(TargetExhausted)
  {
    hide ReadValue;
    hide Legal;
    hide WrittenBytes;
    hide HighHalf;
    hide LowHalf;
    hide FromPair;
    hide TrailingBytes;
  }

  /** On a prefix of the source a turn is the same or stops for lack of source. */
  lemma StepOnPrefix(c: Converter, flags: ConversionFlags, src: seq<UTF32>, k: nat, room: nat)
    requires 0 < k <= |src|
    ensures var step := StepOf(c, flags, src[..k], room);
      step == Stop(SourceExhausted) || step == StepOf(c, flags, src, room)
  {
    hide ReadValue;
    hide Legal;
    hide WrittenBytes;
    hide HighHalf;
    hide LowHalf;
    hide FromPair;
    hide TrailingBytes;
    var s := src[..k];
    assert s[0] == src[0] && (k > 1 ==> s[1] == src[1]);
    var extra := TrailingBytes(src[0]);
    if extra < k {
      assert s[..extra + 1] == src[..extra + 1];
    }
  }

  // ---------------------------------------------------------------- the loop resumes

  /** Some turn of the call noted an illegal value and went on; a later code may have replaced its sourceIllegal. */
  predicate Noted(c: Converter, flags: ConversionFlags, src: seq<UTF32>, room: nat)
    decreases |src|
  {
    && |src| > 0
    && match StepOf(c, flags, src, room)
       case Stop(_) => false
       case Emit(n, units, illegal) => illegal || Noted(c, flags, src[n..], room - |units|)
  }

  /** A call that ends well noted nothing. */
  lemma {:induction false} NotedIsReported(c: Converter, flags: ConversionFlags, src: seq<UTF32>, room: nat)
    ensures Run(c, flags, src, room).result == ConversionOK ==> !Noted(c, flags, src, room)
    decreases |src|
  {
    hide StepOf;
    if |src| > 0 {
      match StepOf(c, flags, src, room)
      case Stop(_) =>
      case Emit(n, units, _) => NotedIsReported(c, flags, src[n..], room - |units|);
    }
  }

  /**
   * `whole` is what the two calls `first` and `second` did together. The second call knows nothing of an illegal value
   * that the first noted, so its good end is a sourceIllegal of the whole exactly then.
   */
  ghost predicate Together(whole: Outcome, first: Outcome, second: Outcome, noted: bool) {
    && whole.read == first.read + second.read
    && whole.out == first.out + second.out
    && whole.result == if noted && second.result == ConversionOK then SourceIllegal else second.result
  }

  predicate Within(first: Outcome, src: seq<UTF32>, room: nat) { first.read <= |src| && |first.out| <= room }

  /** The next call, from the returned pointers. */
  function Resume(c: Converter, flags: ConversionFlags, src: seq<UTF32>, room: nat, first: Outcome): Outcome
    requires Within(first, src, room)
  {
    Run(c, flags, src[first.read..], room - |first.out|)
  }

  ghost predicate Resumes(c: Converter, flags: ConversionFlags, src: seq<UTF32>, room: nat, first: Outcome,
                          noted: bool)
  {
    && Within(first, src, room)
    && Together(Run(c, flags, src, room), first, Resume(c, flags, src, room, first), noted)
    && (Noted(c, flags, src, room)
        <==> noted || Noted(c, flags, src[first.read..], room - |first.out|))
  }

  lemma StopResumes(c: Converter, flags: ConversionFlags, src: seq<UTF32>, room: nat, result: ConversionResult)
    ensures Resumes(c, flags, src, room, Outcome(result, 0, []), false)
  {
    hide Run;
    hide Noted;
    assert src[0..] == src;
  }

  lemma TogetherWithTurn(n: nat, units: seq<UTF32>, illegal: bool, whole: Outcome, first: Outcome, second: Outcome,
                         noted: bool)
    requires Together(whole, first, second, noted)
    ensures var turn := OneTurn(n, units, illegal);
      && Together(turn.Then(whole), turn.Then(first), second, illegal || noted)
      && turn.Then(first).read == n + first.read && |turn.Then(first).out| == |units| + |first.out|
  {
    assert units + (first.out + second.out) == units + first.out + second.out;
  }

  lemma TurnUnfolds(c: Converter, flags: ConversionFlags, src: seq<UTF32>, room: nat, turn: Step)
    requires |src| > 0 && turn == StepOf(c, flags, src, room) && turn.Emit?
    ensures turn.read <= |src| && |turn.units| <= room
    ensures var rest, left := src[turn.read..], room - |turn.units|;
      && Run(c, flags, src, room) == OneTurn(turn.read, turn.units, turn.illegal).Then(Run(c, flags, rest, left))
      && (Noted(c, flags, src, room) <==> turn.illegal || Noted(c, flags, rest, left))
  {
    hide StepOf;
    hide Outcome.Then;
    hide OneTurn;
  }

  lemma TurnResumes(c: Converter, flags: ConversionFlags, src: seq<UTF32>, room: nat, turn: Step,
                    first: Outcome, noted: bool)
    requires |src| > 0 && turn == StepOf(c, flags, src, room) && turn.Emit?
    requires Resumes(c, flags, src[turn.read..], room - |turn.units|, first, noted)
    ensures Resumes(c, flags, src, room, OneTurn(turn.read, turn.units, turn.illegal).Then(first),
                    turn.illegal || noted)
  {
    hide StepOf;
    hide Run;
    hide Noted;
    hide Together;
    hide Outcome.Then;
    hide OneTurn;
    var n, units, illegal := turn.read, turn.units, turn.illegal;
    TurnUnfolds(c, flags, src, room, turn);
    TogetherWithTurn(n, units, illegal, Run(c, flags, src[n..], room - |units|), first,
                     Resume(c, flags, src[n..], room - |units|, first), noted);
    var both := OneTurn(n, units, illegal).Then(first);
    assert src[n..][first.read..] == src[both.read..];
    assert room - |units| - |first.out| == room - |both.out|;
  }

  /** Cut the target anywhere, and continue from the returned pointers with the rest of the room. */
  lemma {:induction false} TargetCut(c: Converter, flags: ConversionFlags, src: seq<UTF32>, small: nat, room: nat)
    requires small <= room
    ensures Resumes(c, flags, src, room, Run(c, flags, src, small), Noted(c, flags, src, small))
    decreases |src|
  {
    hide StepOf;
    hide Resumes;
    StopResumes(c, flags, src, room, ConversionOK);
    if |src| > 0 {
      StepWithLessRoom(c, flags, src, small, room);
      var turn := StepOf(c, flags, src, small);
      match turn
      case Stop(result) =>
        StopResumes(c, flags, src, room, result);
      case Emit(n, units, _) =>
        TargetCut(c, flags, src[n..], small - |units|, room - |units|);
        TurnResumes(c, flags, src, room, turn, Run(c, flags, src[n..], small - |units|),
                    Noted(c, flags, src[n..], small - |units|));
    }
  }

  lemma ExhaustedStays(first: Outcome, next: Outcome)
    ensures next.result == TargetExhausted ==> first.Then(next).result == TargetExhausted
  {
  }

  /** A call that did not run out of target is the whole. */
  lemma {:induction false} EnoughRoom(c: Converter, flags: ConversionFlags, src: seq<UTF32>, small: nat, room: nat)
    requires small <= room && Run(c, flags, src, small).result != TargetExhausted
    ensures Run(c, flags, src, room) == Run(c, flags, src, small)
    decreases |src|
  {
    hide StepOf;
    hide Outcome.Then;
    hide OneTurn;
    if |src| > 0 {
      StepWithLessRoom(c, flags, src, small, room);
      var step := StepOf(c, flags, src, small);
      if step.Emit? {
        ExhaustedStays(OneTurn(step.read, step.units, step.illegal),
                       Run(c, flags, src[step.read..], small - |step.units|));
        EnoughRoom(c, flags, src[step.read..], small - |step.units|, room - |step.units|);
      }
    }
  }

  /** A call that ran out of a target with room for one character has moved on. */
  lemma Progress(c: Converter, flags: ConversionFlags, src: seq<UTF32>, room: nat)
    requires room >= 4 && Run(c, flags, src, room).result == TargetExhausted
    ensures Run(c, flags, src, room).read > 0
  {
    hide StepOf;
    StepWithLessRoom(c, flags, src, room, room);
  }

  /** Cut the source anywhere, in the middle of a character too, and continue from the returned pointers. */
  lemma {:induction false} SourceCut(c: Converter, flags: ConversionFlags, src: seq<UTF32>, k: nat, room: nat)
    requires k <= |src|
    ensures Resumes(c, flags, src, room, Run(c, flags, src[..k], room), Noted(c, flags, src[..k], room))
    decreases |src|
  {
    hide StepOf;
    hide Resumes;
    StopResumes(c, flags, src, room, ConversionOK);
    if k > 0 {
      StepOnPrefix(c, flags, src, k, room);
      var turn := StepOf(c, flags, src[..k], room);
      match turn
      case Stop(result) =>
        StopResumes(c, flags, src, room, result);
      case Emit(n, units, _) =>
        SourceCut(c, flags, src[n..], k - n, room - |units|);
        assert src[..k][n..] == src[n..][..k - n];
        TurnResumes(c, flags, src, room, turn, Run(c, flags, src[n..][..k - n], room - |units|),
                    Noted(c, flags, src[n..][..k - n], room - |units|));
    }
  }

  // ---------------------------------------------------------------- many calls

  /** Calls with fresh targets of the given sizes, each from where the last one stopped, while the target runs out. */
  function Pieces(c: Converter, flags: ConversionFlags, src: seq<UTF32>, rooms: seq<nat>): Outcome
    decreases |rooms|
  {
    if |rooms| == 0 then NOTHING
    else
      var first := Run(c, flags, src, rooms[0]);
      if first.result != TargetExhausted then first
      else
        var others := Pieces(c, flags, src[first.read..], rooms[1..]);
        Outcome(others.result, first.read + others.read, first.out + others.out)
  }

  lemma {:induction false} RoomForAll(c: Converter, flags: ConversionFlags, src: seq<UTF32>, room: nat)
    ensures var o := Run(c, flags, src, room);
      |o.out| <= 4 * o.read && (room >= 4 * |src| ==> o.result != TargetExhausted)
    decreases |src|
  {
    hide StepOf;
    if |src| > 0 {
      StepWithLessRoom(c, flags, src, room, room);
      match StepOf(c, flags, src, room)
      case Stop(_) =>
      case Emit(n, units, _) => RoomForAll(c, flags, src[n..], room - |units|);
    }
  }

  /**
   * Small targets give the same units as one large one: every call moves on, so at most |src| of them run out. The last
   * code is that of the one large call, unless all ends well and an illegal value was noted on the way.
   */
  lemma {:induction false} PiecesAreWhole(c: Converter, flags: ConversionFlags, src: seq<UTF32>,
                                          rooms: seq<nat>, room: nat)
    requires room >= 4 * |src| && |rooms| > |src| && forall i :: 0 <= i < |rooms| ==> rooms[i] >= 4
    ensures var pieces, whole := Pieces(c, flags, src, rooms), Run(c, flags, src, room);
      && pieces.out == whole.out && pieces.read == whole.read
      && whole.result == (if pieces.result == ConversionOK && Noted(c, flags, src, room) then SourceIllegal
                          else pieces.result)
      && whole.result != TargetExhausted && pieces.result != TargetExhausted
    decreases |rooms|
  {
    hide Run;
    hide Noted;
    NotedIsReported(c, flags, src, room);
    var first := Run(c, flags, src, rooms[0]);
    RoomForAll(c, flags, src, room);
    RoomForAll(c, flags, src, rooms[0]);
    if rooms[0] > room {
      EnoughRoom(c, flags, src, room, rooms[0]);
    } else {
      TargetCut(c, flags, src, rooms[0], room);
      if first.result != TargetExhausted {
        EnoughRoom(c, flags, src, rooms[0], room);
      } else {
        Progress(c, flags, src, rooms[0]);
        PiecesAreWhole(c, flags, src[first.read..], rooms[1..], room - |first.out|);
      }
    }
  }
}
