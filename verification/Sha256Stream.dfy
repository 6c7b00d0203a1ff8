/** The SHA256 class: a 64-byte buffer, compressed whenever it is full, and
    padded in place when the digest is asked for. */
module Sha256Stream {
  import opened Words
  import opened Sha256

  function Choose(e: word, f: word, g: word): word {
    var (x, y, z) := (e as bv32, f as bv32, g as bv32);
    ((x & y) ^ (!x & z)) as int
  }

  function Majority(a: word, b: word, c: word): word {
    var (x, y, z) := (a as bv32, b as bv32, c as bv32);
    ((x & (y | z)) | (y & z)) as int
  }

  lemma MajorityBits(a: bv32, b: bv32, c: bv32)
    ensures (a & (b | c)) | (b & c) == (a & b) ^ (a & c) ^ (b & c)
  {
  }

  lemma MajorityIsMaj(a: word, b: word, c: word)
    ensures Majority(a, b, c) == Maj(a, b, c)
  {
    MajorityBits(a as bv32, b as bv32, c as bv32);
  }

  lemma PlusComm(x: word, y: word)
    ensures Plus(x, y) == Plus(y, x)
  {
  }

  lemma PlusSwap(x: word, y: word, z: word)
    ensures Plus(Plus(x, y), z) == Plus(Plus(x, z), y)
  {
    hide Plus;
    PlusNested(x, y, z);
    PlusNested(x, z, y);
  }

  lemma PlusNested(x: word, y: word, z: word)
    ensures Plus(Plus(x, y), z) == Wrap32(x + y + z)
  {
  }

  /** The sums of a round, in the order of the code and in the order of the standard. */
  lemma SumsReordered(w: word, k: word, h: word, ch: word, xorE: word, xorA: word, maj: word)
    ensures var t1 := Plus(Plus(Plus(Plus(h, xorE), ch), k), w);
            && Plus(Plus(Plus(Plus(w, k), h), ch), xorE) == t1
            && Plus(Plus(xorA, maj), t1) == Plus(t1, Plus(xorA, maj))
  {
    hide Plus;
    PlusSwap(w, k, h);
    PlusComm(w, h);
    PlusSwap(Plus(Plus(h, w), k), ch, xorE);
    PlusSwap(Plus(h, w), k, xorE);
    PlusSwap(h, w, xorE);
    PlusSwap(Plus(Plus(h, xorE), w), k, ch);
    PlusSwap(Plus(h, xorE), w, ch);
    PlusSwap(Plus(Plus(h, xorE), ch), w, k);
    PlusComm(Plus(xorA, maj), Plus(Plus(Plus(Plus(h, xorE), ch), k), w));
  }

  function StateOf(s: seq<word>): State
    requires |s| == 8
  {
    State(s[0], s[1], s[2], s[3], s[4], s[5], s[6], s[7])
  }

  lemma HashBlocksStep(m: seq<byte>, n: nat)
    requires n % 64 == 0 && n + 64 == |m|
    ensures HashBlocks(m) == Compress(HashBlocks(m[..n]), m[n..])
  {
  }

  lemma BitLenStep(n: nat)
    ensures Wrap64(Wrap64(8 * n) + 512) == Wrap64(8 * (n + 64))
  {
  }

  lemma AppendBlock(m: seq<byte>, block: seq<byte>)
    requires |m| % 64 == 0 && |block| == 64
    ensures HashBlocks(m + block) == Compress(HashBlocks(m), block)
  {
    HashBlocksStep(m + block, |m|);
    assert (m + block)[..|m|] == m && (m + block)[|m|..] == block;
  }

  lemma BitLenEnd(start: nat, rest: nat)
    ensures Wrap64(Wrap64(8 * start) + rest * 8) == Wrap64(8 * (start + rest))
  {
  }

  /** The padded message, cut where the buffer starts: both cases of `pad`. */
  lemma PadCases(m: seq<byte>, start: nat)
    requires start % 64 == 0 && start <= |m| < start + 64
    ensures var (rest, length) := (|m| - start, BE64(Wrap64(8 * |m|)));
            && (rest < 56 ==>
                  Padded(m) == m[..start] + (m[start..] + [0x80] + Repeat(0, 55 - rest) + length))
            && (rest >= 56 ==>
                  Padded(m) == m[..start] + (m[start..] + [0x80] + Repeat(0, 63 - rest)) + (Repeat(0, 56) + length))
  {
    hide BE64, Wrap64, Repeat;
    var (rest, length) := (|m| - start, BE64(Wrap64(8 * |m|)));
    assert m == m[..start] + m[start..];
    assert |m| % 64 == rest;
    if rest < 56 {
      Regroup(m[..start], m[start..], Repeat(0, 55 - rest), [], length);
    } else {
      RepeatSplit(0, 63 - rest, 56);
      Regroup(m[..start], m[start..], Repeat(0, 63 - rest), Repeat(0, 56), length);
    }
  }

  lemma RepeatSplit(x: byte, m: nat, n: nat)
    ensures Repeat(x, m + n) == Repeat(x, m) + Repeat(x, n)
  {
  }

  lemma Regroup(a: seq<byte>, b: seq<byte>, c: seq<byte>, d: seq<byte>, e: seq<byte>)
    ensures a + b + [0x80] + (c + d) + e == a + (b + [0x80] + c) + (d + e)
    ensures a + b + [0x80] + c + e == a + (b + [0x80] + c + e)
  {
  }

  lemma BytesAt(s: seq<word>, b: seq<byte>)
    requires |s| == 8 && |b| == 32
    requires forall j, k :: 0 <= j < 8 && 0 <= k < 4 ==> b[4 * j + k] == WordBytes(s[j])[k]
    ensures b == Bytes(StateOf(s))
  {
    hide WordBytes;
    forall j | 0 <= j < 8 ensures b[4 * j..4 * j + 4] == WordBytes(s[j]) {
      assert b[4 * j] == WordBytes(s[j])[0] by { assert b[4 * j + 0] == WordBytes(s[j])[0]; }
    }
  }

  lemma ScheduleStep(block: seq<byte>, t: nat)
    requires |block| == 64
    ensures t < 16 ==> Schedule(block, t) == WordOf(block[4 * t], block[4 * t + 1], block[4 * t + 2], block[4 * t + 3])
    ensures t >= 16 ==>
              Schedule(block, t) == ScheduleWord(Schedule(block, t - 2), Schedule(block, t - 7),
                                                 Schedule(block, t - 15), Schedule(block, t - 16))
  {
    hide ScheduleWord, WordOf;
  }

  class SHA256 {
    const data: array<byte>
    var blockLen: nat
    var bitLen: u64
    const state: array<word>

    /** The bytes fed so far. */
    ghost var message: seq<byte>

    ghost predicate Shaped() {
      data.Length == 64 && state.Length == 8
    }

    /** What holds after every byte. */
    ghost predicate Valid()
      reads this, data, state
    {
      && Shaped()
      && blockLen < 64 && blockLen <= |message| && (|message| - blockLen) % 64 == 0
      && data[..blockLen] == message[|message| - blockLen..]
      && bitLen == Wrap64(8 * (|message| - blockLen))
      && StateOf(state[..]) == HashBlocks(message[..|message| - blockLen])
    }

    constructor ()
      ensures Valid() && message == [] && fresh(data) && fresh(state)
    {
      data := new byte[64];
      blockLen, bitLen := 0, 0;
      state := new word[8];
      message := [];
      new;
      state[0] := IV.a;
      state[1] := IV.b;
      state[2] := IV.c;
      state[3] := IV.d;
      state[4] := IV.e;
      state[5] := IV.f;
      state[6] := IV.g;
      state[7] := IV.h;
    }

    /** The message schedule of the buffered block. */
    method ExpandBlock() returns (m: array<word>)
      requires Shaped()
      ensures fresh(m) && m.Length == 64
      ensures forall t :: 0 <= t < 64 ==> m[t] == Schedule(data[..], t)
    {
      hide ScheduleWord, WordOf, Schedule;
      m := new word[64];
      var i, j := 0, 0;
      while i < 16
        invariant 0 <= i <= 16 && j == 4 * i
        invariant forall t :: 0 <= t < i ==> m[t] == Schedule(data[..], t)
      {
        ScheduleStep(data[..], i);
        m[i] := WordOf(data[j], data[j + 1], data[j + 2], data[j + 3]);
        i, j := i + 1, j + 4;
      }
      var k := 16;
      while k < 64
        invariant 16 <= k <= 64
        invariant forall t :: 0 <= t < k ==> m[t] == Schedule(data[..], t)
      {
        ScheduleStep(data[..], k);
        m[k] := ScheduleWord(m[k - 2], m[k - 7], m[k - 15], m[k - 16]);
        k := k + 1;
      }
    }

    /** The 64 rounds of `transform`, on a copy of the state. */
    method RunRounds(m: array<word>) returns (st: array<word>)
      requires Shaped() && m.Length == 64
      requires forall t :: 0 <= t < 64 ==> m[t] == Schedule(data[..], t)
      ensures fresh(st) && st.Length == 8
      ensures StateOf(st[..]) == Rounds(StateOf(state[..]), data[..], 64)
    {
      hide Schedule, Round, Rounds;
      st := new word[8];
      for j := 0 to 8
        invariant forall k :: 0 <= k < j ==> st[k] == state[k]
      {
        st[j] := state[j];
      }
      ghost var s0 := StateOf(state[..]);
      RoundsStart(s0, data[..]);
      var i := 0;
      while i < 64
        invariant 0 <= i <= 64
        invariant StateOf(st[..]) == Rounds(s0, data[..], i)
      {
        RoundsStep(s0, data[..], i);
        var newA, newE := Mix(StateOf(st[..]), m[i], K(i));
        ShiftState(st, newA, newE);
        i := i + 1;
      }
    }

    /** `transform`: the block is compressed into the state. */
    method Transform()
      requires Shaped()
      modifies state
      ensures StateOf(state[..]) == Compress(old(StateOf(state[..])), data[..])
    {
      hide Schedule, Rounds, AddStates, StateOf;
      var m := ExpandBlock();
      var st := RunRounds(m);
      AddInto(st);
    }

    /** `update`: however a message is cut into calls, the object ends up in the
        same state. */
    method Update(bytes: seq<byte>)
      requires Valid()
      modifies this, data, state
      ensures Valid() && message == old(message) + bytes
    {
      hide Valid, Shaped;
      var i := 0;
      while i < |bytes|
        invariant 0 <= i <= |bytes|
        invariant Valid() && message == old(message) + bytes[..i]
      {
        AbsorbByte(bytes[i]);
        i := i + 1;
      }
      assert bytes[..i] == bytes;
    }

    /** The body of the loop of `update`. */
    method AbsorbByte(x: byte)
      requires Valid()
      modifies this, data, state
      ensures Valid() && message == old(message) + [x]
    {
      hide Compress, StateOf, HashBlocks, Wrap64;
      ghost var start := |message| - blockLen;
      data[blockLen] := x;
      blockLen := blockLen + 1;
      message := message + [x];
      assert data[..blockLen] == message[start..];
      assert message[..start] == old(message)[..start];
      if blockLen == 64 {
        Transform();
        assert data[..] == data[..64];
        HashBlocksStep(message, start);
        BitLenStep(start);
        bitLen := Wrap64(bitLen + 512);
        blockLen := 0;
        assert message[..|message|] == message;
      }
    }

    /** `pad`: the padding of section 5.1.1 is written into the buffer, through
        a second block when fewer than eight bytes would be left for the length. */
    method Pad()
      requires Valid()
      modifies this, data, state
      ensures Shaped() && message == old(message)
      ensures StateOf(state[..]) == HashBlocks(Padded(message))
    {
      hide Compress, StateOf, HashBlocks, Wrap64, BE64, Padded;
      ghost var start := |message| - blockLen;
      ghost var tail := message[start..];
      PadCases(message, start);
      BitLenEnd(start, blockLen);
      FillPadding(if blockLen < 56 then 56 else 64);
      ghost var first := message[..start];
      if blockLen >= 56 {
        ghost var block := tail + [0x80] + Repeat(0, 63 - blockLen);
        assert data[..] == block;
        Transform();
        AppendBlock(first, block);
        first := first + block;
        ClearHead();
      }
      bitLen := Wrap64(bitLen + blockLen * 8);
      ghost var head := data[..56];
      StoreBitLen();
      assert data[..] == head + BE64(bitLen);
      Transform();
      AppendBlock(first, head + BE64(bitLen));
    }

    /** The one bit and the zeros of `pad`, up to `end`. */
    method FillPadding(end: nat)
      requires Shaped() && blockLen < end <= 64
      modifies data
      ensures data[..end] == old(data[..blockLen]) + [0x80] + Repeat(0, end - blockLen - 1)
    {
      var i := blockLen;
      data[i] := 0x80;
      i := i + 1;
      while i < end
        invariant blockLen + 1 <= i <= end
        invariant data[..blockLen] == old(data[..blockLen]) && data[blockLen] == 0x80
        invariant forall j :: blockLen + 1 <= j < i ==> data[j] == 0
      {
        data[i] := 0;
        i := i + 1;
      }
    }

    method ClearHead()
      requires Shaped()
      modifies data
      ensures data[..56] == Repeat(0, 56)
    {
      for k := 0 to 56
        invariant forall j :: 0 <= j < k ==> data[j] == 0
      {
        data[k] := 0;
      }
    }

    /** The message length in bits, in the last eight bytes of the buffer. */
    method StoreBitLen()
      requires Shaped()
      modifies data
      ensures data[..56] == old(data[..56]) && data[56..] == BE64(bitLen)
    {
      hide BE64;
      var b := BE64(bitLen);
      data[63] := b[7];
      data[62] := b[6];
      data[61] := b[5];
      data[60] := b[4];
      data[59] := b[3];
      data[58] := b[2];
      data[57] := b[1];
      data[56] := b[0];
    }

    /** `digest`: the hash of everything fed to the object. */
    method Digest() returns (hash: array<byte>)
      requires Valid()
      modifies this, data, state
      ensures fresh(hash) && hash[..] == Hash(old(message))
    {
      hide HashBlocks, Padded, WordBytes;
      hash := new byte[32];
      Pad();
      Revert(hash);
    }

    /** `revert`: the state words as big-endian bytes. */
    method Revert(hash: array<byte>)
      requires Shaped() && hash.Length == 32 && hash != data
      modifies hash
      ensures hash[..] == Bytes(StateOf(state[..]))
    {
      hide WordBytes, Bytes;
      var i := 0;
      while i < 4
        invariant 0 <= i <= 4
        invariant forall j, k :: 0 <= j < 8 && 0 <= k < i ==> hash[4 * j + k] == WordBytes(state[j])[k]
      {
        var j := 0;
        while j < 8
          invariant 0 <= j <= 8
          invariant forall h, k :: 0 <= h < 8 && 0 <= k < i ==> hash[4 * h + k] == WordBytes(state[h])[k]
          invariant forall h :: 0 <= h < j ==> hash[4 * h + i] == WordBytes(state[h])[i]
        {
          hash[i + j * 4] := WordBytes(state[j])[i];
          j := j + 1;
        }
        i := i + 1;
      }
      BytesAt(state[..], hash[..]);
    }

    /** The end of `transform`: the working variables are added to the state. */
    method AddInto(st: array<word>)
      requires Shaped() && st.Length == 8 && st != state
      modifies state
      ensures StateOf(state[..]) == AddStates(old(StateOf(state[..])), StateOf(st[..]))
    {
      hide Plus;
      for j := 0 to 8
        invariant forall k :: 0 <= k < j ==> state[k] == Plus(old(state[k]), st[k])
        invariant forall k :: j <= k < 8 ==> state[k] == old(state[k])
      {
        state[j] := Plus(state[j], st[j]);
      }
    }
  }

  /** The working variables move down by one place. */
  method ShiftState(st: array<word>, newA: word, newE: word)
    requires st.Length == 8
    modifies st
    ensures var s := old(StateOf(st[..])); StateOf(st[..]) == State(newA, s.a, s.b, s.c, newE, s.e, s.f, s.g)
  {
    st[7] := st[6];
    st[6] := st[5];
    st[5] := st[4];
    st[4] := newE;
    st[3] := st[2];
    st[2] := st[1];
    st[1] := st[0];
    st[0] := newA;
  }

  /** The sums of one round, added in the order of the code. */
  method Mix(s: State, w: word, k: word) returns (newA: word, newE: word)
    ensures Round(s, w, k) == State(newA, s.a, s.b, s.c, newE, s.e, s.f, s.g)
  {
    hide BigSigma0, BigSigma1, Ch, Maj, Choose, Majority, Plus;
    var maj := Majority(s.a, s.b, s.c);
    var xorA := BigSigma0(s.a);
    var ch := Choose(s.e, s.f, s.g);
    var xorE := BigSigma1(s.e);
    var sum := Plus(Plus(Plus(Plus(w, k), s.h), ch), xorE);
    newA := Plus(Plus(xorA, maj), sum);
    newE := Plus(s.d, sum);
    MajorityIsMaj(s.a, s.b, s.c);
    ChooseIsCh(s.e, s.f, s.g);
    SumsReordered(w, k, s.h, ch, xorE, xorA, maj);
  }

  lemma ChooseIsCh(e: word, f: word, g: word)
    ensures Choose(e, f, g) == Ch(e, f, g)
  {
    hide ChOf;
    ChooseBits(e as bv32, f as bv32, g as bv32);
  }

  lemma ChooseBits(a: bv32, b: bv32, c: bv32)
    ensures (a & b) ^ (!a & c) == ChOf(a, b, c)
  {
  }

  lemma RoundsStart(s: State, block: seq<byte>)
    requires |block| == 64
    ensures Rounds(s, block, 0) == s
  {
  }

  lemma RoundsStep(s: State, block: seq<byte>, t: nat)
    requires |block| == 64 && t < 64
    ensures Rounds(s, block, t + 1) == Round(Rounds(s, block, t), Schedule(block, t), K(t))
  {
    hide Round, Schedule;
  }

  /** `sha256_hash_array`: any way of cutting a message into `update` calls gives
      the hash of the whole message. */
  method HashPieces(pieces: seq<seq<byte>>) returns (result: seq<byte>)
    ensures result == Hash(Concat(pieces))
  {
    hide SHA256.Valid, SHA256.Shaped, Hash;
    var hasher := new SHA256();
    var i := 0;
    while i < |pieces|
      invariant 0 <= i <= |pieces|
      invariant hasher.Valid() && hasher.message == Concat(pieces[..i])
      invariant fresh(hasher) && fresh(hasher.data) && fresh(hasher.state)
    {
      hasher.Update(pieces[i]);
      i := i + 1;
      assert pieces[..i][..i - 1] == pieces[..i - 1];
    }
    assert pieces[..i] == pieces;
    var hash := hasher.Digest();
    result := hash[..];
  }
}
