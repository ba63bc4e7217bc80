/** SHA-256 as FIPS 180-4 writes it: whole-message padding, a 64-word schedule, eight named working variables. */
module Sha256Spec {
  type Byte = bv8
  type Word = bv32

  // Section 4.2.2, in rows of eight.
  const K0: seq<Word> :=
    [0x428a2f98, 0x71374491, 0xb5c0fbcf, 0xe9b5dba5, 0x3956c25b, 0x59f111f1, 0x923f82a4, 0xab1c5ed5]
  const K1: seq<Word> :=
    [0xd807aa98, 0x12835b01, 0x243185be, 0x550c7dc3, 0x72be5d74, 0x80deb1fe, 0x9bdc06a7, 0xc19bf174]
  const K2: seq<Word> :=
    [0xe49b69c1, 0xefbe4786, 0x0fc19dc6, 0x240ca1cc, 0x2de92c6f, 0x4a7484aa, 0x5cb0a9dc, 0x76f988da]
  const K3: seq<Word> :=
    [0x983e5152, 0xa831c66d, 0xb00327c8, 0xbf597fc7, 0xc6e00bf3, 0xd5a79147, 0x06ca6351, 0x14292967]
  const K4: seq<Word> :=
    [0x27b70a85, 0x2e1b2138, 0x4d2c6dfc, 0x53380d13, 0x650a7354, 0x766a0abb, 0x81c2c92e, 0x92722c85]
  const K5: seq<Word> :=
    [0xa2bfe8a1, 0xa81a664b, 0xc24b8b70, 0xc76c51a3, 0xd192e819, 0xd6990624, 0xf40e3585, 0x106aa070]
  const K6: seq<Word> :=
    [0x19a4c116, 0x1e376c08, 0x2748774c, 0x34b0bcb5, 0x391c0cb3, 0x4ed8aa4a, 0x5b9cca4f, 0x682e6ff3]
  const K7: seq<Word> :=
    [0x748f82ee, 0x78a5636f, 0x84c87814, 0x8cc70208, 0x90befffa, 0xa4506ceb, 0xbef9a3f7, 0xc67178f2]

  const K: seq<Word> := K0 + K1 + K2 + K3 + K4 + K5 + K6 + K7

  const INITIAL_HASH: seq<Word> :=
    [0x6a09e667, 0xbb67ae85, 0x3c6ef372, 0xa54ff53a, 0x510e527f, 0x9b05688c, 0x1f83d9ab, 0x5be0cd19]

  lemma KHas64()
    ensures |K| == 64
  {
  }

  // Section 4.1.2; addition is modulo 2^32.
  function Ch(x: Word, y: Word, z: Word): Word { (x & y) ^ (!x & z) }
  function Maj(x: Word, y: Word, z: Word): Word { (x & y) ^ (x & z) ^ (y & z) }
  function Xor3(x: Word, y: Word, z: Word): Word { x ^ y ^ z }
  function Sum4(x: Word, y: Word, z: Word, u: Word): Word { x + y + z + u }
  function Sum5(x: Word, y: Word, z: Word, u: Word, v: Word): Word { x + y + z + u + v }
  function Plus(x: Word, y: Word): Word { x + y }
  function BigSigma0(x: Word): Word { Xor3(x.RotateRight(2), x.RotateRight(13), x.RotateRight(22)) }
  function BigSigma1(x: Word): Word { Xor3(x.RotateRight(6), x.RotateRight(11), x.RotateRight(25)) }
  function SmallSigma0(x: Word): Word { Xor3(x.RotateRight(7), x.RotateRight(18), x >> 3) }
  function SmallSigma1(x: Word): Word { Xor3(x.RotateRight(17), x.RotateRight(19), x >> 10) }

  // Section 5.1.1, in bytes: a one bit, the fewest zero bits that leave room for the length, the bit length in 64 bits.
  function Zeros(n: nat): (s: seq<Byte>)
    ensures |s| == n && forall i :: 0 <= i < n ==> s[i] == 0
  {
    seq(n, _ => 0)
  }

  function LowByte(n: nat): Byte { (n % 256) as bv8 }

  /** The low `count` bytes of `n`, most significant byte first. */
  function BigEndian(n: nat, count: nat): (s: seq<Byte>)
    ensures |s| == count
    decreases count
  {
    if count == 0 then [] else BigEndian(n / 256, count - 1) + [LowByte(n)]
  }

  function ZeroCount(len: nat): nat { (55 - len) % 64 }

  /** `ZeroCount` is the smallest count of zero bytes that leaves the message 8 bytes short of a block boundary. */
  lemma ZeroCountIsSmallest(len: nat, z: nat)
    ensures (len + 1 + ZeroCount(len) + 8) % 64 == 0
    ensures (len + 1 + z + 8) % 64 == 0 ==> ZeroCount(len) <= z
  {
  }

  function Tail(len: nat, total: nat): (s: seq<Byte>)
    ensures |s| == 9 + ZeroCount(len)
  {
    hide LowByte;
    [0x80] + Zeros(ZeroCount(len)) + BigEndian(8 * total, 8)
  }

  function Padded(message: seq<Byte>): (s: seq<Byte>)
    ensures |s| == |message| + 9 + ZeroCount(|message|)
  {
    hide Tail;
    message + Tail(|message|, |message|)
  }

  lemma PaddedLength(message: seq<Byte>)
    ensures |Padded(message)| == 64 * ((|message| + 9 + 63) / 64)
    ensures |Padded(message)| % 64 == 0
  {
    hide Padded;
  }

  // Section 6.2.2.
  function WordAt(block: seq<Byte>, t: nat): Word
    requires 4 * t + 4 <= |block|
  {
    ((block[4 * t] as Word) << 24) | ((block[4 * t + 1] as Word) << 16) | ((block[4 * t + 2] as Word) << 8) |
    (block[4 * t + 3] as Word)
  }

  function Schedule(block: seq<Byte>, t: nat): Word
    requires |block| == 64
  {
    if t < 16 then WordAt(block, t)
    else Sum4(SmallSigma1(Schedule(block, t - 2)), Schedule(block, t - 7),
              SmallSigma0(Schedule(block, t - 15)), Schedule(block, t - 16))
  }

  datatype Working = Working(a: Word, b: Word, c: Word, d: Word, e: Word, f: Word, g: Word, h: Word)

  function ToWorking(h: seq<Word>): Working
    requires |h| == 8
  {
    Working(h[0], h[1], h[2], h[3], h[4], h[5], h[6], h[7])
  }

  function Round(v: Working, k: Word, w: Word): Working {
    var t1 := Sum5(v.h, BigSigma1(v.e), Ch(v.e, v.f, v.g), k, w);
    var t2 := Plus(BigSigma0(v.a), Maj(v.a, v.b, v.c));
    Working(Plus(t1, t2), v.a, v.b, v.c, Plus(v.d, t1), v.e, v.f, v.g)
  }

  function Rounds(block: seq<Byte>, v: Working, t: nat): Working
    requires |block| == 64 && t <= 64
  {
    if t == 0 then v else Round(Rounds(block, v, t - 1), K[t - 1], Schedule(block, t - 1))
  }

  function AddWorking(h: seq<Word>, v: Working): (r: seq<Word>)
    requires |h| == 8
    ensures |r| == 8
  {
    [Plus(h[0], v.a), Plus(h[1], v.b), Plus(h[2], v.c), Plus(h[3], v.d),
     Plus(h[4], v.e), Plus(h[5], v.f), Plus(h[6], v.g), Plus(h[7], v.h)]
  }

  function Compress(h: seq<Word>, block: seq<Byte>): (r: seq<Word>)
    requires |h| == 8 && |block| == 64
    ensures |r| == 8
  {
    AddWorking(h, Rounds(block, ToWorking(h), 64))
  }

  function HashBlocks(h: seq<Word>, bytes: seq<Byte>): (r: seq<Word>)
    requires |h| == 8 && |bytes| % 64 == 0
    ensures |r| == 8
    decreases |bytes|
  {
    if |bytes| == 0 then h else HashBlocks(Compress(h, bytes[..64]), bytes[64..])
  }

  function WordBytes(w: Word): (s: seq<Byte>)
    ensures |s| == 4
  {
    [((w >> 24) & 0xff) as Byte, ((w >> 16) & 0xff) as Byte, ((w >> 8) & 0xff) as Byte, (w & 0xff) as Byte]
  }

  function WordsBytes(h: seq<Word>): (s: seq<Byte>)
    ensures |s| == 4 * |h|
  {
    if |h| == 0 then [] else WordsBytes(h[..|h| - 1]) + WordBytes(h[|h| - 1])
  }

  function Digest(message: seq<Byte>): (d: seq<Byte>)
    ensures |d| == 32
  {
    hide Padded;
    hide WordsBytes;
    WordsBytes(HashBlocks(INITIAL_HASH, Padded(message)))
  }
}
