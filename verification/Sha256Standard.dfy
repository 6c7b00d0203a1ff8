/** SHA-256 written as two sequences that the registers only delay, with words,
    lengths and digests read as numbers in base 256. */
module Sha256Standard {
  import opened Words
  import opened Positional
  import opened Sha256

  // Bytes and words

  lemma NumberOf4(b0: byte, b1: byte, b2: byte, b3: byte)
    ensures Number([b0, b1, b2, b3], 256) == 256 * (256 * (256 * b0 + b1) + b2) + b3
  {
    hide Number;
    var s := [b0, b1, b2, b3];
    NumberStep(s, 256);
    assert s[..3] == [b0, b1, b2];
    NumberStep([b0, b1, b2], 256);
    assert [b0, b1, b2][..2] == [b0, b1];
    NumberStep([b0, b1], 256);
    assert [b0, b1][..1] == [b0];
    NumberStep([b0], 256);
    assert [b0][..0] == [];
  }

  /** Dividing by powers of 256 is dividing by 256 as often. */
  lemma ByteSteps(w: nat)
    ensures w / 0x1_0000 == w / 0x100 / 0x100 && w / 0x100_0000 == w / 0x1_0000 / 0x100
  {
  }

  lemma DigitSteps(w: word, q1: nat, q2: nat, q3: nat)
    requires q1 == w / 0x100 && q2 == q1 / 0x100 && q3 == q2 / 0x100
    ensures 256 * (256 * (256 * (q3 % 256) + q2 % 256) + q1 % 256) + w % 256 == w
  {
    assert q3 < 256;
  }

  /** The bytes of a word are its four digits, most significant first. */
  lemma WordBytesAreDigits(w: word)
    ensures Number(WordBytes(w), 256) == w
  {
    hide Number, WordBytes;
    var b := WordBytes(w);
    WordBytesUnfolded(w);
    ByteSteps(w);
    DigitSteps(w, w / 0x100, w / 0x1_0000, w / 0x100_0000);
    NumberOf4(b[0], b[1], b[2], b[3]);
    assert b == [b[0], b[1], b[2], b[3]];
  }

  lemma WordBytesUnfolded(w: word)
    ensures var b := WordBytes(w); b[0] == w / 0x100_0000 % 256 && b[1] == w / 0x1_0000 % 256
    ensures var b := WordBytes(w); b[2] == w / 0x100 % 256 && b[3] == w % 256
  {
  }

  /** Reading the bytes of a word gives the word back. */
  lemma WordReadsBack(w: word)
    ensures var b := WordBytes(w); WordOf(b[0], b[1], b[2], b[3]) == w
  {
    hide Number, WordBytes;
    var b := WordBytes(w);
    WordBytesAreDigits(w);
    NumberOf4(b[0], b[1], b[2], b[3]);
    assert b == [b[0], b[1], b[2], b[3]];
  }

  lemma EightSteps(x: u64, high: nat)
    requires high == x / 0x1_0000_0000
    ensures x / 0x100_0000_0000_0000 == high / 0x100_0000 && x / 0x1_0000_0000_0000 == high / 0x1_0000
    ensures x / 0x100_0000_0000 == high / 0x100
  {
  }

  lemma LowStep24(high: nat, low: word)
    ensures (0x1_0000_0000 * high + low) / 0x100_0000 == 1 * high * 0x100 + low / 0x100_0000
  {
  }

  lemma LowStep16(high: nat, low: word)
    ensures (0x1_0000_0000 * high + low) / 0x1_0000 == 0x100 * high * 0x100 + low / 0x1_0000
  {
  }

  lemma LowStep8(high: nat, low: word)
    ensures (0x1_0000_0000 * high + low) / 0x100 == 0x1_0000 * high * 0x100 + low / 0x100
  {
  }

  lemma WholeBytes(k: nat, n: nat)
    ensures (k * 0x100 + n) % 256 == n % 256
  {
  }

  lemma Halves(x: u64, high: word, low: word)
    requires high == x / 0x1_0000_0000 && low == x % 0x1_0000_0000
    ensures BE64(x) == WordBytes(high) + WordBytes(low)
  {
    EightSteps(x, high);
    LowStep24(high, low);
    LowStep16(high, low);
    LowStep8(high, low);
    WholeBytes(high, low / 0x100_0000);
    WholeBytes(0x100 * high, low / 0x1_0000);
    WholeBytes(0x1_0000 * high, low / 0x100);
    WholeBytes(0x100_0000 * high, low);
  }

  lemma NumberOf8(a: seq<byte>, b: seq<byte>)
    requires |a| == |b| == 4
    ensures Number(a + b, 256) == 0x1_0000_0000 * Number(a, 256) + Number(b, 256)
  {
    hide Number;
    var s := a + b;
    NumberStep(s, 256);
    assert s[..7] == a + b[..3];
    NumberStep(s[..7], 256);
    assert s[..7][..6] == a + b[..2];
    NumberStep(s[..7][..6], 256);
    assert s[..7][..6][..5] == a + b[..1];
    NumberStep(s[..7][..6][..5], 256);
    assert s[..7][..6][..5][..4] == a;
    NumberOf4(b[0], b[1], b[2], b[3]);
    assert b == [b[0], b[1], b[2], b[3]];
  }

  /** The length field is its number in base 256, most significant byte first. */
  lemma LengthIsDigits(x: u64)
    ensures Number(BE64(x), 256) == x
  {
    hide Number, BE64, WordBytes;
    var (high, low) := (x / 0x1_0000_0000, x % 0x1_0000_0000);
    Halves(x, high, low);
    NumberOf8(WordBytes(high), WordBytes(low));
    WordBytesAreDigits(high);
    WordBytesAreDigits(low);
  }

  /** The padded message: the message, the byte 0x80, zeros, and in the last eight
      bytes the number of bits modulo 2^64. */
  lemma PaddedParts(m: seq<byte>)
    ensures var p := Padded(m); |p| % 64 == 0 && |m| + 9 <= |p| < |m| + 73
    ensures Padded(m)[..|m|] == m && Padded(m)[|m|] == 0x80
    ensures forall i :: |m| < i < |Padded(m)| - 8 ==> Padded(m)[i] == 0
    ensures Number(Padded(m)[|Padded(m)| - 8..], 256) == 8 * |m| % 0x1_0000_0000_0000_0000
  {
    hide Number, BE64;
    LengthIsDigits(Wrap64(8 * |m|));
    var (p, length) := (Padded(m), BE64(Wrap64(8 * |m|)));
    assert p[|p| - 8..] == length;
  }

  /** The digest is the eight words of the state, most significant byte first. */
  lemma DigestWords(s: State)
    ensures var b := Bytes(s);
            && Number(b[..4], 256) == s.a && Number(b[4..8], 256) == s.b
            && Number(b[8..12], 256) == s.c && Number(b[12..16], 256) == s.d
            && Number(b[16..20], 256) == s.e && Number(b[20..24], 256) == s.f
            && Number(b[24..28], 256) == s.g && Number(b[28..], 256) == s.h
  {
    hide Number, WordBytes, Bytes;
    DigestPieces(s);
    WordBytesAreDigits(s.a);
    WordBytesAreDigits(s.b);
    WordBytesAreDigits(s.c);
    WordBytesAreDigits(s.d);
    WordBytesAreDigits(s.e);
    WordBytesAreDigits(s.f);
    WordBytesAreDigits(s.g);
    WordBytesAreDigits(s.h);
  }

  lemma DigestPieces(s: State)
    ensures var b := Bytes(s);
            && b[..4] == WordBytes(s.a) && b[4..8] == WordBytes(s.b)
            && b[8..12] == WordBytes(s.c) && b[12..16] == WordBytes(s.d)
            && b[16..20] == WordBytes(s.e) && b[20..24] == WordBytes(s.f)
            && b[24..28] == WordBytes(s.g) && b[28..] == WordBytes(s.h)
  {
    hide WordBytes;
    var (left, right) := (WordBytes(s.a) + WordBytes(s.b) + WordBytes(s.c) + WordBytes(s.d),
                          WordBytes(s.e) + WordBytes(s.f) + WordBytes(s.g) + WordBytes(s.h));
    assert Bytes(s) == left + right;
  }

  // The schedule and the rounds as sequences

  /** The message schedule: sixteen words of the block, then a recurrence modulo 2^32. */
  ghost function W(block: seq<byte>, t: nat): word
    requires |block| == 64
    decreases t, block
  {
    if t < 16 then WordNumber(block[4 * t..4 * t + 4])
    else Wrap32(SmallSigma1(W(block, t - 2)) + W(block, t - 7) + SmallSigma0(W(block, t - 15)) + W(block, t - 16))
  }

  ghost function WordNumber(b: seq<byte>): word
    requires |b| == 4
  {
    NumberOf4(b[0], b[1], b[2], b[3]);
    assert b == [b[0], b[1], b[2], b[3]];
    Number(b, 256)
  }

  lemma WordOfIsNumber(b: seq<byte>)
    requires |b| == 4
    ensures WordOf(b[0], b[1], b[2], b[3]) == WordNumber(b)
  {
    hide Number;
    NumberOf4(b[0], b[1], b[2], b[3]);
    assert b == [b[0], b[1], b[2], b[3]];
  }

  lemma {:induction false} ScheduleIsW(block: seq<byte>, t: nat)
    requires |block| == 64
    ensures Schedule(block, t) == W(block, t)
    decreases t
  {
    hide WordNumber, WordOf, SmallSigma0, SmallSigma1, ScheduleWord;
    if t < 16 {
      WordOfIsNumber(block[4 * t..4 * t + 4]);
    } else {
      ScheduleIsW(block, t - 2);
      ScheduleIsW(block, t - 7);
      ScheduleIsW(block, t - 15);
      ScheduleIsW(block, t - 16);
      ScheduleSum(W(block, t - 2), W(block, t - 7), W(block, t - 15), W(block, t - 16));
    }
  }

  lemma WrapSum(x: int, y: int)
    ensures Wrap32(Wrap32(x) + y) == Wrap32(x + y) == Wrap32(y + Wrap32(x))
  {
  }

  lemma ScheduleSum(w2: word, w7: word, w15: word, w16: word)
    ensures ScheduleWord(w2, w7, w15, w16) == Wrap32(SmallSigma1(w2) + w7 + SmallSigma0(w15) + w16)
  {
    hide SmallSigma0, SmallSigma1, Wrap32;
    var x: int, y: int := SmallSigma1(w2), SmallSigma0(w15);
    WrapSum(x + w7, y);
    WrapSum(x + w7 + y, w16);
  }

  /** The first register over time; its first four values are d, c, b and a. */
  ghost function A(s: State, block: seq<byte>, t: nat): word
    requires |block| == 64 && t < 68
    decreases t, 1, s, block
  {
    if t == 0 then s.d else if t == 1 then s.c else if t == 2 then s.b else if t == 3 then s.a
    else Wrap32(T1(s, block, t - 4) + BigSigma0(A(s, block, t - 1))
                + Maj(A(s, block, t - 1), A(s, block, t - 2), A(s, block, t - 3)))
  }

  /** The fifth register over time; its first four values are h, g, f and e. */
  ghost function E(s: State, block: seq<byte>, t: nat): word
    requires |block| == 64 && t < 68
    decreases t, 1, s, block
  {
    if t == 0 then s.h else if t == 1 then s.g else if t == 2 then s.f else if t == 3 then s.e
    else Wrap32(A(s, block, t - 4) + T1(s, block, t - 4))
  }

  ghost function T1(s: State, block: seq<byte>, u: nat): nat
    requires |block| == 64 && u < 64
    decreases u + 4, 0, s, block
  {
    E(s, block, u) + BigSigma1(E(s, block, u + 3)) + Ch(E(s, block, u + 3), E(s, block, u + 2), E(s, block, u + 1))
    + K(u) + W(block, u)
  }

  lemma RoundSums(s: State, w: word, k: word)
    ensures var t1 := s.h + BigSigma1(s.e) + Ch(s.e, s.f, s.g) + k + w;
            Round(s, w, k) == State(Wrap32(t1 + BigSigma0(s.a) + Maj(s.a, s.b, s.c)), s.a, s.b, s.c,
                                    Wrap32(s.d + t1), s.e, s.f, s.g)
  {
    hide BigSigma0, BigSigma1, Ch, Maj, Wrap32;
    var e: int, c: int := BigSigma1(s.e), Ch(s.e, s.f, s.g);
    var a: int, m: int := BigSigma0(s.a), Maj(s.a, s.b, s.c);
    WrapSum(s.h + e, c);
    WrapSum(s.h + e + c, k);
    WrapSum(s.h + e + c + k, w);
    var t1 := s.h + e + c + k + w;
    WrapSum(t1, Wrap32(a + m));
    WrapSum(a + m, t1);
    WrapSum(t1, s.d);
  }

  /** After t rounds the registers hold four successive values of each sequence. */
  lemma {:induction false} RegistersDelay(s: State, block: seq<byte>, t: nat)
    requires |block| == 64 && t <= 64
    ensures Rounds(s, block, t) == State(A(s, block, t + 3), A(s, block, t + 2), A(s, block, t + 1), A(s, block, t),
                                         E(s, block, t + 3), E(s, block, t + 2), E(s, block, t + 1), E(s, block, t))
    decreases t
  {
    hide BigSigma0, BigSigma1, Ch, Maj, Round, Schedule, W;
    if t != 0 {
      RegistersDelay(s, block, t - 1);
      ScheduleIsW(block, t - 1);
      RoundSums(Rounds(s, block, t - 1), W(block, t - 1), K(t - 1));
    }
  }

  /** Compression adds the last four values of each sequence to the state. */
  lemma CompressByRecurrence(s: State, block: seq<byte>)
    requires |block| == 64
    ensures var c := Compress(s, block);
            && c.a == (s.a + A(s, block, 67)) % 0x1_0000_0000 && c.b == (s.b + A(s, block, 66)) % 0x1_0000_0000
            && c.c == (s.c + A(s, block, 65)) % 0x1_0000_0000 && c.d == (s.d + A(s, block, 64)) % 0x1_0000_0000
            && c.e == (s.e + E(s, block, 67)) % 0x1_0000_0000 && c.f == (s.f + E(s, block, 66)) % 0x1_0000_0000
            && c.g == (s.g + E(s, block, 65)) % 0x1_0000_0000 && c.h == (s.h + E(s, block, 64)) % 0x1_0000_0000
  {
    hide A, E, Rounds;
    RegistersDelay(s, block, 64);
  }

  /** The state before each of n blocks, from the initial hash value. */
  ghost function Chain(p: seq<byte>, n: nat): State
    requires 64 * n <= |p|
  {
    if n == 0 then IV else Compress(Chain(p, n - 1), p[64 * (n - 1)..64 * n])
  }

  lemma {:induction false} BlocksChain(p: seq<byte>, n: nat)
    requires 64 * n <= |p|
    ensures HashBlocks(p[..64 * n]) == Chain(p, n)
  {
    hide Compress;
    if n != 0 {
      var q := p[..64 * n];
      assert q[..|q| - 64] == p[..64 * (n - 1)] && q[|q| - 64..] == p[64 * (n - 1)..64 * n];
      BlocksChain(p, n - 1);
    }
  }

  /** The hash is the state behind the last block of the padded message. */
  lemma HashIsChain(m: seq<byte>)
    ensures Hash(m) == Bytes(Chain(Padded(m), |Padded(m)| / 64))
  {
    hide Chain, HashBlocks, Bytes, Padded;
    var (p, n) := (Padded(m), |Padded(m)| / 64);
    BlocksChain(p, n);
    assert p[..64 * n] == p;
  }
}
