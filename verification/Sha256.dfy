/** SHA-256 as FIPS 180-4 defines it: the one-shot hash of a whole message. */
module Sha256 {
  import opened Words

  type word = u32

  datatype State = State(a: word, b: word, c: word, d: word, e: word, f: word, g: word, h: word)

  /** The initial hash value, section 5.3.3. */
  const IV := State(0x6a09e667, 0xbb67ae85, 0x3c6ef372, 0xa54ff53a, 0x510e527f, 0x9b05688c, 0x1f83d9ab, 0x5be0cd19)

  // The round constants, section 4.2.2, eight a row

  function KRow0(j: nat): word
    requires j < 8
  {
    match j
    case 0 => 0x428a2f98 case 1 => 0x71374491 case 2 => 0xb5c0fbcf case 3 => 0xe9b5dba5
    case 4 => 0x3956c25b case 5 => 0x59f111f1 case 6 => 0x923f82a4 case _ => 0xab1c5ed5
  }

  function KRow1(j: nat): word
    requires j < 8
  {
    match j
    case 0 => 0xd807aa98 case 1 => 0x12835b01 case 2 => 0x243185be case 3 => 0x550c7dc3
    case 4 => 0x72be5d74 case 5 => 0x80deb1fe case 6 => 0x9bdc06a7 case _ => 0xc19bf174
  }

  function KRow2(j: nat): word
    requires j < 8
  {
    match j
    case 0 => 0xe49b69c1 case 1 => 0xefbe4786 case 2 => 0x0fc19dc6 case 3 => 0x240ca1cc
    case 4 => 0x2de92c6f case 5 => 0x4a7484aa case 6 => 0x5cb0a9dc case _ => 0x76f988da
  }

  function KRow3(j: nat): word
    requires j < 8
  {
    match j
    case 0 => 0x983e5152 case 1 => 0xa831c66d case 2 => 0xb00327c8 case 3 => 0xbf597fc7
    case 4 => 0xc6e00bf3 case 5 => 0xd5a79147 case 6 => 0x06ca6351 case _ => 0x14292967
  }

  function KRow4(j: nat): word
    requires j < 8
  {
    match j
    case 0 => 0x27b70a85 case 1 => 0x2e1b2138 case 2 => 0x4d2c6dfc case 3 => 0x53380d13
    case 4 => 0x650a7354 case 5 => 0x766a0abb case 6 => 0x81c2c92e case _ => 0x92722c85
  }

  function KRow5(j: nat): word
    requires j < 8
  {
    match j
    case 0 => 0xa2bfe8a1 case 1 => 0xa81a664b case 2 => 0xc24b8b70 case 3 => 0xc76c51a3
    case 4 => 0xd192e819 case 5 => 0xd6990624 case 6 => 0xf40e3585 case _ => 0x106aa070
  }

  function KRow6(j: nat): word
    requires j < 8
  {
    match j
    case 0 => 0x19a4c116 case 1 => 0x1e376c08 case 2 => 0x2748774c case 3 => 0x34b0bcb5
    case 4 => 0x391c0cb3 case 5 => 0x4ed8aa4a case 6 => 0x5b9cca4f case _ => 0x682e6ff3
  }

  function KRow7(j: nat): word
    requires j < 8
  {
    match j
    case 0 => 0x748f82ee case 1 => 0x78a5636f case 2 => 0x84c87814 case 3 => 0x8cc70208
    case 4 => 0x90befffa case 5 => 0xa4506ceb case 6 => 0xbef9a3f7 case _ => 0xc67178f2
  }

  function K(t: nat): word
    requires t < 64
  {
    var j := t % 8;
    if t < 8 then KRow0(j) else if t < 16 then KRow1(j)
    else if t < 24 then KRow2(j) else if t < 32 then KRow3(j)
    else if t < 40 then KRow4(j) else if t < 48 then KRow5(j)
    else if t < 56 then KRow6(j) else KRow7(j)
  }

  /** Addition modulo 2^32. */
  function Plus(x: word, y: word): word {
    Wrap32(x + y)
  }

  // Section 4.1.2: the bitwise functions, on words taken as bit vectors

  function RotR(x: bv32, n: nat): bv32
    requires 0 < n < 32
  {
    (x >> n) | (x << (32 - n))
  }

  function ChOf(a: bv32, b: bv32, c: bv32): bv32 {
    (a & b) ^ (!a & c)
  }

  function MajOf(a: bv32, b: bv32, c: bv32): bv32 {
    (a & b) ^ (a & c) ^ (b & c)
  }

  function BigSigma0Of(a: bv32): bv32 {
    RotR(a, 2) ^ RotR(a, 13) ^ RotR(a, 22)
  }

  function BigSigma1Of(a: bv32): bv32 {
    RotR(a, 6) ^ RotR(a, 11) ^ RotR(a, 25)
  }

  function SmallSigma0Of(a: bv32): bv32 {
    RotR(a, 7) ^ RotR(a, 18) ^ (a >> 3)
  }

  function SmallSigma1Of(a: bv32): bv32 {
    RotR(a, 17) ^ RotR(a, 19) ^ (a >> 10)
  }

  function Ch(x: word, y: word, z: word): word {
    ChOf(x as bv32, y as bv32, z as bv32) as int
  }

  function Maj(x: word, y: word, z: word): word {
    MajOf(x as bv32, y as bv32, z as bv32) as int
  }

  function BigSigma0(x: word): word {
    BigSigma0Of(x as bv32) as int
  }

  function BigSigma1(x: word): word {
    BigSigma1Of(x as bv32) as int
  }

  function SmallSigma0(x: word): word {
    SmallSigma0Of(x as bv32) as int
  }

  function SmallSigma1(x: word): word {
    SmallSigma1Of(x as bv32) as int
  }

  // Section 6.2.2

  /** Four bytes, most significant first, as a word; the code ors the shifted
      bytes, whose bits do not meet. */
  function WordOf(b0: byte, b1: byte, b2: byte, b3: byte): word {
    b0 * 0x100_0000 + b1 * 0x1_0000 + b2 * 0x100 + b3
  }

  function ScheduleWord(w2: word, w7: word, w15: word, w16: word): word {
    Plus(Plus(Plus(SmallSigma1(w2), w7), SmallSigma0(w15)), w16)
  }

  /** The message schedule. */
  function Schedule(block: seq<byte>, t: nat): word
    requires |block| == 64
    decreases t, block
  {
    if t < 16 then WordOf(block[4 * t], block[4 * t + 1], block[4 * t + 2], block[4 * t + 3])
    else ScheduleWord(Schedule(block, t - 2), Schedule(block, t - 7), Schedule(block, t - 15), Schedule(block, t - 16))
  }

  function Round(s: State, w: word, k: word): State {
    var t1 := Plus(Plus(Plus(Plus(s.h, BigSigma1(s.e)), Ch(s.e, s.f, s.g)), k), w);
    var t2 := Plus(BigSigma0(s.a), Maj(s.a, s.b, s.c));
    State(Plus(t1, t2), s.a, s.b, s.c, Plus(s.d, t1), s.e, s.f, s.g)
  }

  function Rounds(s: State, block: seq<byte>, t: nat): State
    requires |block| == 64 && t <= 64
    decreases t, block, s
  {
    if t == 0 then s else Round(Rounds(s, block, t - 1), Schedule(block, t - 1), K(t - 1))
  }

  function AddStates(s: State, r: State): State {
    State(Plus(s.a, r.a), Plus(s.b, r.b), Plus(s.c, r.c), Plus(s.d, r.d),
          Plus(s.e, r.e), Plus(s.f, r.f), Plus(s.g, r.g), Plus(s.h, r.h))
  }

  function Compress(s: State, block: seq<byte>): State
    requires |block| == 64
  {
    AddStates(s, Rounds(s, block, 64))
  }

  function HashBlocks(m: seq<byte>): State
    requires |m| % 64 == 0
  {
    if m == [] then IV else Compress(HashBlocks(m[..|m| - 64]), m[|m| - 64..])
  }

  // Section 5.1.1

  function Repeat(x: byte, n: nat): (r: seq<byte>)
    ensures |r| == n && forall i :: 0 <= i < n ==> r[i] == x
  {
    seq(n, i => x)
  }

  /** The number of zero bytes between the one bit and the length. */
  function PadZeros(length: nat): (k: nat)
    ensures k < 64 && (length + 1 + k) % 64 == 56
  {
    if length % 64 < 56 then 55 - length % 64 else 119 - length % 64
  }

  /** It is the least such number. */
  lemma PadZerosLeast(length: nat, j: nat)
    requires j < PadZeros(length)
    ensures (length + 1 + j) % 64 != 56
  {
  }

  /** A 64-bit integer as eight bytes, most significant first. */
  function BE64(x: u64): (b: seq<byte>)
    ensures |b| == 8
  {
    [Wrap8(x / 0x100_0000_0000_0000), Wrap8(x / 0x1_0000_0000_0000),
     Wrap8(x / 0x100_0000_0000), Wrap8(x / 0x1_0000_0000),
     Wrap8(x / 0x100_0000), Wrap8(x / 0x1_0000), Wrap8(x / 0x100), Wrap8(x)]
  }

  /** The padded message; the standard covers messages below 2^64 bits, and a
      longer one keeps the low 64 bits of its length. */
  function Padded(m: seq<byte>): (p: seq<byte>)
    ensures |p| % 64 == 0
  {
    m + [0x80] + Repeat(0, PadZeros(|m|)) + BE64(Wrap64(8 * |m|))
  }

  function WordBytes(w: word): (b: seq<byte>)
    ensures |b| == 4
  {
    [Wrap8(w / 0x100_0000), Wrap8(w / 0x1_0000), Wrap8(w / 0x100), Wrap8(w)]
  }

  function Bytes(s: State): (b: seq<byte>)
    ensures |b| == 32
  {
    WordBytes(s.a) + WordBytes(s.b) + WordBytes(s.c) + WordBytes(s.d)
    + WordBytes(s.e) + WordBytes(s.f) + WordBytes(s.g) + WordBytes(s.h)
  }

  function Hash(m: seq<byte>): (d: seq<byte>)
    ensures |d| == 32
  {
    Bytes(HashBlocks(Padded(m)))
  }

  /** Pieces of a message put together. */
  function Concat(pieces: seq<seq<byte>>): seq<byte> {
    if pieces == [] then [] else Concat(pieces[..|pieces| - 1]) + pieces[|pieces| - 1]
  }
}
