/** core/sha256.c: padding delivered chunk by chunk, a 16-word rolling schedule, eight words shifted in place. */
module Sha256 {
  import opened Sha256Spec

  const CHUNK_SIZE := 64
  const TOTAL_LEN_LEN := 8

  // ---------------------------------------------------------------- chunks

  /** How the tail of the padded message falls over the chunk boundaries. */
  lemma TailSplits(len: nat, total: nat)
    ensures len >= 64 ==> Tail(len, total) == Tail(len - 64, total)
    ensures len <= 55 ==> Tail(len, total) == [0x80] + Zeros(55 - len) + BigEndian(8 * total, 8)
    ensures 56 <= len < 64 ==> Tail(len, total) == [0x80] + Zeros(63 - len) + (Zeros(56) + BigEndian(8 * total, 8))
  {
    hide LowByte;
    hide BigEndian;
    if 56 <= len < 64 {
      assert Zeros(ZeroCount(len)) == Zeros(63 - len) + Zeros(56);
    }
  }

  lemma FillsChunk(message: seq<Byte>, due: seq<Byte>)
    requires |message| < 64 && |due| >= 64 - |message|
    ensures |message + due| >= 64
    ensures (message + due)[..64] == message + due[..64 - |message|]
    ensures (message + due)[64..] == due[64 - |message|..]
  {
  }

  /** struct buffer_state; `p` is the offset of the pointer into the input. */
  class BufferState {
    const input: seq<Byte>
    var p: nat
    var len: nat
    var total_len: nat
    var single_one_delivered: bool
    var total_len_delivered: bool

    ghost predicate Valid()
      reads this
    {
      && p + len == |input| == total_len
      && (single_one_delivered ==> len == 0)
      && (total_len_delivered ==> single_one_delivered)
    }

    /** What is still to be delivered of the padded message. */
    ghost function Rest(): seq<Byte>
      requires Valid()
      reads this
    {
      if total_len_delivered then []
      else input[p..] + Due(len)
    }

    /** The padding still to come when `at` more message bytes precede it. */
    ghost function Due(at: nat): seq<Byte>
      reads this
    {
      if single_one_delivered then Zeros(56) + BigEndian(8 * total_len, 8) else Tail(at, total_len)
    }

    constructor (input: seq<Byte>)
      ensures Valid() && fresh(this) && this.input == input
      ensures Rest() == Padded(input)
    {
      this.input := input;
      p, len, total_len := 0, |input|, |input|;
      single_one_delivered, total_len_delivered := false, false;
    }

    method CalcChunk(chunk: array<Byte>) returns (more: bool)
      requires Valid() && chunk.Length == CHUNK_SIZE
      modifies this, chunk
      ensures Valid()
      ensures more <==> old(Rest()) != []
      ensures more ==> |old(Rest())| >= 64 && chunk[..] == old(Rest())[..64] && Rest() == old(Rest())[64..]
      ensures !more ==> Rest() == []
    {
      hide LowByte;
      hide BigEndian;
      hide Tail;
      hide Zeros;
      if total_len_delivered {
        return false;
      }
      if len >= CHUNK_SIZE {
        TakeChunk(chunk);
        return true;
      }
      Copy(chunk, 0, input[p..p + len]);
      ghost var message, due := input[p..], Due(len);
      assert chunk[..len] == message;
      var at := len;
      p, len := p + len, 0;
      assert Due(at) == due;
      hide BufferState.Due;
      Pad(chunk, at);
      FillsChunk(message, due);
      return true;
    }

    /** The part of calc_chunk for a message that fills the chunk. */
    method TakeChunk(chunk: array<Byte>)
      requires Valid() && len >= CHUNK_SIZE && chunk.Length == CHUNK_SIZE
      modifies this, chunk
      ensures Valid() && !total_len_delivered
      ensures |old(Rest())| >= 64 && chunk[..] == old(Rest())[..64] && Rest() == old(Rest())[64..]
    {
      hide LowByte;
      hide BigEndian;
      TailSplits(len, total_len);
      hide Tail;
      assert Rest() == input[p..p + CHUNK_SIZE] + (input[p + CHUNK_SIZE..] + Tail(len - CHUNK_SIZE, total_len)) by {
        assert input[p..] == input[p..p + CHUNK_SIZE] + input[p + CHUNK_SIZE..];
      }
      Copy(chunk, 0, input[p..p + CHUNK_SIZE]);
      assert chunk[..] == input[p..p + CHUNK_SIZE];
      p, len := p + CHUNK_SIZE, len - CHUNK_SIZE;
    }

    /** The part of calc_chunk after the message has run out with room left in the chunk. */
    method Pad(chunk: array<Byte>, at: nat)
      requires Valid() && len == 0 && !total_len_delivered && (single_one_delivered ==> at == 0)
      requires chunk.Length == CHUNK_SIZE && at < CHUNK_SIZE
      modifies this, chunk
      ensures Valid() && len == 0
      ensures |old(Due(at))| >= 64 - at && chunk[..] == old(chunk[..at]) + old(Due(at))[..64 - at]
      ensures Rest() == old(Due(at))[64 - at..]
    {
      hide LowByte;
      hide BigEndian;
      hide Tail;
      hide Zeros;
      TailSplits(at, total_len);
      var at, space_in_chunk := at, CHUNK_SIZE - at;
      if !single_one_delivered {
        Copy(chunk, at, [0x80]);
        at, space_in_chunk := at + 1, space_in_chunk - 1;
        single_one_delivered := true;
      }
      ghost var start := chunk[..at];
      if space_in_chunk >= TOTAL_LEN_LEN {
        var left := space_in_chunk - TOTAL_LEN_LEN;
        Copy(chunk, at, Zeros(left));
        assert chunk[..56] == start + Zeros(left);
        StoreBitLength(chunk, total_len);
        total_len_delivered := true;
        assert chunk[..] == chunk[..56] + chunk[56..];
      } else {
        Copy(chunk, at, Zeros(space_in_chunk));
      }
    }
  }

  /** memcpy and memset: `src` over the bytes of `dst` from `at` on. */
  method Copy(dst: array<Byte>, at: nat, src: seq<Byte>)
    requires at + |src| <= dst.Length
    modifies dst
    ensures dst[..] == old(dst[..at]) + src + old(dst[at + |src|..])
  {
    forall i | 0 <= i < |src| {
      dst[at + i] := src[i];
    }
  }

  /** Writes the bit length of a `total`-byte message over the last eight bytes of the chunk. */
  method StoreBitLength(chunk: array<Byte>, total: nat)
    requires chunk.Length == CHUNK_SIZE
    modifies chunk
    ensures chunk[..56] == old(chunk[..56])
    ensures chunk[56..] == BigEndian(8 * total, 8)
  {
    hide LowByte;
    var len := total;
    chunk[56 + 7] := LowByte(len * 8);
    len := len / 32;
    assert 8 * total / 256 == len;
    for i := 7 downto 0
      invariant chunk[..56] == old(chunk[..56])
      invariant BigEndian(8 * total, 8) == BigEndian(len, i) + chunk[56 + i..]
    {
      chunk[56 + i] := LowByte(len);
      len := len / 256;
    }
  }

  // ---------------------------------------------------------------- rounds

  function RightRot(value: Word, count: bv6): Word
    requires 0 < count < 32
  {
    (value >> count) | (value << (32 - count))
  }

  lemma RightRotRotates(x: Word)
    ensures RightRot(x, 2) == x.RotateRight(2) && RightRot(x, 13) == x.RotateRight(13)
    ensures RightRot(x, 22) == x.RotateRight(22) && RightRot(x, 6) == x.RotateRight(6)
    ensures RightRot(x, 11) == x.RotateRight(11) && RightRot(x, 25) == x.RotateRight(25)
    ensures RightRot(x, 7) == x.RotateRight(7) && RightRot(x, 18) == x.RotateRight(18)
    ensures RightRot(x, 17) == x.RotateRight(17) && RightRot(x, 19) == x.RotateRight(19)
  {
  }

  /** The s0 and s1 of the schedule. */
  function RowS0(x: Word): Word { Xor3(RightRot(x, 7), RightRot(x, 18), x >> 3) }
  function RowS1(x: Word): Word { Xor3(RightRot(x, 17), RightRot(x, 19), x >> 10) }

  lemma SigmasAgree(x: Word)
    ensures Xor3(RightRot(x, 2), RightRot(x, 13), RightRot(x, 22)) == BigSigma0(x)
    ensures Xor3(RightRot(x, 6), RightRot(x, 11), RightRot(x, 25)) == BigSigma1(x)
    ensures RowS0(x) == SmallSigma0(x) && RowS1(x) == SmallSigma1(x)
  {
    hide RightRot;
    hide Xor3;
    RightRotRotates(x);
  }

  lemma SumReversed(x: Word, y: Word, z: Word, u: Word)
    ensures Sum4(x, y, z, u) == Sum4(u, z, y, x)
  {
  }

  lemma NextWord(block: seq<Byte>, t: nat)
    requires |block| == 64 && t >= 16
    ensures Schedule(block, t) == Sum4(Schedule(block, t - 16), SmallSigma0(Schedule(block, t - 15)),
                                       Schedule(block, t - 7), SmallSigma1(Schedule(block, t - 2)))
  {
    hide Sum4;
    hide SmallSigma0;
    hide SmallSigma1;
    SumReversed(SmallSigma1(Schedule(block, t - 2)), Schedule(block, t - 7),
                SmallSigma0(Schedule(block, t - 15)), Schedule(block, t - 16));
  }

  lemma FirstWords(block: seq<Byte>, t: nat)
    requires |block| == 64 && t < 16
    ensures Schedule(block, t) == WordAt(block, t)
  {
  }

  /** After `j` words of row `i`, the window holds the last 16 words of the schedule so far, word t in slot t mod 16. */
  ghost predicate Window(w: seq<Word>, block: seq<Byte>, i: nat, j: nat)
    requires |block| == 64
  {
    && |w| == 16
    && forall m :: 0 <= m < 16 && (0 < i || m < j) ==>
         w[m] == Schedule(block, if m < j then 16 * i + m else 16 * i - 16 + m)
  }

  /** The next word of the schedule from the window, when the window is full. */
  method WordFromWindow(w: array<Word>, j: nat, ghost block: seq<Byte>, ghost i: nat) returns (word: Word)
    requires |block| == 64 && w.Length == 16 && 0 < i && j < 16 && Window(w[..], block, i, j)
    ensures word == Schedule(block, 16 * i + j)
  {
    hide RowS0;
    hide RowS1;
    hide Sum4;
    hide Schedule;
    hide SmallSigma0;
    hide SmallSigma1;
    assert w[..][(j + 1) % 16] == Schedule(block, 16 * i + j - 15);
    assert w[..][(j + 14) % 16] == Schedule(block, 16 * i + j - 2);
    assert w[..][(j + 9) % 16] == Schedule(block, 16 * i + j - 7);
    assert w[..][j] == Schedule(block, 16 * i + j - 16);
    NextWord(block, 16 * i + j);
    SigmasAgree(w[(j + 1) % 16]);
    SigmasAgree(w[(j + 14) % 16]);
    word := Sum4(w[j], RowS0(w[(j + 1) % 16]), w[(j + 9) % 16], RowS1(w[(j + 14) % 16]));
  }

  method NextScheduleWord(chunk: array<Byte>, w: array<Word>, i: nat, j: nat)
    requires chunk.Length == CHUNK_SIZE && w.Length == 16 && j < 16
    requires Window(w[..], chunk[..], i, j)
    modifies w
    ensures Window(w[..], chunk[..], i, j + 1)
    ensures w[j] == Schedule(chunk[..], 16 * i + j)
  {
    hide Schedule;
    hide WordAt;
    ghost var block := chunk[..];
    if i == 0 {
      w[j] := WordAt(chunk[..], j);
      FirstWords(block, j);
    } else {
      var word := WordFromWindow(w, j, block, i);
      w[j] := word;
    }
    assert chunk[..] == block;
  }

  /** One round on the eight words, shifted in place. */
  method DoRound(ah: array<Word>, k: Word, w: Word)
    requires ah.Length == 8
    modifies ah
    ensures ToWorking(ah[..]) == Round(ToWorking(old(ah[..])), k, w)
  {
    hide RightRot;
    hide Xor3;
    hide Sum5;
    hide Plus;
    hide BigSigma0;
    hide BigSigma1;
    hide Ch;
    hide Maj;
    SigmasAgree(ah[4]);
    SigmasAgree(ah[0]);
    var s1 := Xor3(RightRot(ah[4], 6), RightRot(ah[4], 11), RightRot(ah[4], 25));
    var ch := Ch(ah[4], ah[5], ah[6]);
    var temp1 := Sum5(ah[7], s1, ch, k, w);
    var s0 := Xor3(RightRot(ah[0], 2), RightRot(ah[0], 13), RightRot(ah[0], 22));
    var maj := Maj(ah[0], ah[1], ah[2]);
    var temp2 := Plus(s0, maj);
    ah[7] := ah[6];
    ah[6] := ah[5];
    ah[5] := ah[4];
    ah[4] := Plus(ah[3], temp1);
    ah[3] := ah[2];
    ah[2] := ah[1];
    ah[1] := ah[0];
    ah[0] := Plus(temp1, temp2);
  }

  method AddInto(h: array<Word>, ah: array<Word>)
    requires h.Length == ah.Length == 8 && h != ah
    modifies h
    ensures h[..] == AddWorking(old(h[..]), ToWorking(ah[..]))
  {
    hide Plus;
    for i := 0 to 8
      invariant forall m :: 0 <= m < i ==> h[m] == Plus(old(h[m]), ah[m])
      invariant forall m :: i <= m < 8 ==> h[m] == old(h[m])
    {
      h[i] := Plus(h[i], ah[i]);
    }
  }

  method DoRow(chunk: array<Byte>, w: array<Word>, ah: array<Word>, i: nat, ghost v: Working)
    requires chunk.Length == CHUNK_SIZE && w.Length == 16 && ah.Length == 8 && w != ah && i < 4
    requires Window(w[..], chunk[..], i, 0) && ToWorking(ah[..]) == Rounds(chunk[..], v, 16 * i)
    modifies w, ah
    ensures Window(w[..], chunk[..], i + 1, 0) && ToWorking(ah[..]) == Rounds(chunk[..], v, 16 * (i + 1))
  {
    hide Round;
    hide Schedule;
    hide Window;
    hide ToWorking;
    KHas64();
    for j := 0 to 16
      invariant Window(w[..], chunk[..], i, j)
      invariant ToWorking(ah[..]) == Rounds(chunk[..], v, 16 * i + j)
      invariant chunk[..] == old(chunk[..])
    {
      NextScheduleWord(chunk, w, i, j);
      DoRound(ah, K[16 * i + j], w[j]);
    }
    RowBoundary(w[..], chunk[..], i);
  }

  method CompressChunk(chunk: array<Byte>, h: array<Word>)
    requires chunk.Length == CHUNK_SIZE && h.Length == 8
    modifies h
    ensures h[..] == Compress(old(h[..]), chunk[..])
  {
    hide Window;
    hide ToWorking;
    hide AddWorking;
    var ah := new Word[8](i requires 0 <= i < 8 reads h => h[i]);
    assert ah[..] == h[..];
    ghost var v := ToWorking(h[..]);
    var w := new Word[16];
    RowBoundary(w[..], chunk[..], 0);
    for i := 0 to 4
      invariant Window(w[..], chunk[..], i, 0)
      invariant ToWorking(ah[..]) == Rounds(chunk[..], v, 16 * i)
      invariant chunk[..] == old(chunk[..]) && h[..] == old(h[..])
    {
      DoRow(chunk, w, ah, i, v);
    }
    AddInto(h, ah);
  }

  lemma RowBoundary(w: seq<Word>, block: seq<Byte>, i: nat)
    requires |w| == 16 && |block| == 64
    ensures Window(w, block, 0, 0)
    ensures Window(w, block, i, 16) ==> Window(w, block, i + 1, 0)
  {
    hide Schedule;
    if Window(w, block, i, 16) {
      forall m | 0 <= m < 16 ensures w[m] == Schedule(block, 16 * (i + 1) - 16 + m) {
      }
    }
  }

  ghost function Concat(chunks: seq<seq<Byte>>): seq<Byte> {
    if |chunks| == 0 then [] else Concat(chunks[..|chunks| - 1]) + chunks[|chunks| - 1]
  }

  /** The loop invariant of calc_sha_256: `chunks` are hashed into `h`, `pending` is left of the padded message. */
  ghost predicate Progress(input: seq<Byte>, h: seq<Word>, chunks: seq<seq<Byte>>, pending: seq<Byte>)
  {
    && |h| == 8 && |pending| % 64 == 0 == |Padded(input)| % 64
    && |pending| + 64 * |chunks| == |Padded(input)|
    && Concat(chunks) + pending == Padded(input)
    && HashBlocks(h, pending) == HashBlocks(INITIAL_HASH, Padded(input))
  }

  lemma Start(input: seq<Byte>)
    ensures Progress(input, INITIAL_HASH, [], Padded(input))
  {
    hide Padded;
    hide HashBlocks;
    PaddedLength(input);
    assert Concat([]) + Padded(input) == Padded(input);
  }

  lemma Advance(input: seq<Byte>, h: seq<Word>, chunks: seq<seq<Byte>>, block: seq<Byte>, rest: seq<Byte>)
    requires Progress(input, h, chunks, block + rest) && |block| == 64
    ensures Progress(input, Compress(h, block), chunks + [block], rest)
  {
    hide Compress;
    hide Padded;
    assert (block + rest)[..64] == block && (block + rest)[64..] == rest;
    assert (chunks + [block])[..|chunks|] == chunks;
    assert Concat(chunks) + (block + rest) == Concat(chunks) + block + rest;
  }

  lemma Finish(input: seq<Byte>, h: seq<Word>, chunks: seq<seq<Byte>>)
    requires Progress(input, h, chunks, [])
    ensures |h| == 8 && WordsBytes(h) == Digest(input)
    ensures |chunks| == (|input| + 9 + 63) / 64 && Concat(chunks) == Padded(input)
  {
    hide Padded;
    hide WordsBytes;
    PaddedLength(input);
    assert Concat(chunks) + [] == Concat(chunks);
  }

  /** The digest, and (as a ghost result) the chunks that the successive calls of calc_chunk delivered. */
  method CalcSha256(input: seq<Byte>) returns (hash: array<Byte>, ghost chunks: seq<seq<Byte>>)
    ensures hash.Length == 32 && hash[..] == Digest(input)
    ensures |chunks| == (|input| + 9 + 63) / 64 && Concat(chunks) == Padded(input)
  {
    hide Padded;
    hide Compress;
    hide Progress;
    hide WordsBytes;
    hide Digest;
    hide Concat;
    hide Tail;
    hide BufferState.Due;
    var h := new Word[8](i requires 0 <= i < 8 => INITIAL_HASH[i]);
    assert h[..] == INITIAL_HASH;
    var chunk := new Byte[CHUNK_SIZE];
    var state := new BufferState(input);
    chunks := [];
    ghost var pending := Padded(input);
    Start(input);
    var more := state.CalcChunk(chunk);
    while more
      invariant fresh(state) && fresh(chunk) && fresh(h) && state.Valid()
      invariant Progress(input, h[..], chunks, pending)
      invariant pending == if more then chunk[..] + state.Rest() else []
      decreases |pending|
    {
      pending := state.Rest();
      Advance(input, h[..], chunks, chunk[..], pending);
      chunks := chunks + [chunk[..]];
      CompressChunk(chunk, h);
      more := state.CalcChunk(chunk);
    }
    Finish(input, h[..], chunks);
    hash := new Byte[32];
    WriteWords(h[..], hash);
  }

  method WriteWord(hash: array<Byte>, j: nat, w: Word)
    requires j + 4 <= hash.Length
    modifies hash
    ensures hash[..] == old(hash[..j]) + WordBytes(w) + old(hash[j + 4..])
  {
    hash[j], hash[j + 1] := ((w >> 24) & 0xff) as Byte, ((w >> 16) & 0xff) as Byte;
    hash[j + 2], hash[j + 3] := ((w >> 8) & 0xff) as Byte, (w & 0xff) as Byte;
  }

  method WriteWords(h: seq<Word>, hash: array<Byte>)
    requires |h| == 8 && hash.Length == 32
    modifies hash
    ensures hash[..] == WordsBytes(h)
  {
    hide WordBytes;
    var j := 0;
    for i := 0 to 8
      invariant j == 4 * i
      invariant hash[..j] == WordsBytes(h[..i])
    {
      assert h[..i + 1][..i] == h[..i];
      WriteWord(hash, j, h[i]);
      j := j + 4;
    }
    assert h[..8] == h && hash[..32] == hash[..];
  }
}
