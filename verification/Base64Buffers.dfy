/** `bs64_encode` and `bs64_decode` as they run: a padded copy encoded group by
    group, and a presized array that characters are added into. */
module Base64Buffers {
  import opened Words
  import opened Text
  import opened Base64

  // Encoding

  /** Six bits at a time from a 24-bit word are the characters of a group. */
  lemma WordIsGroup(a: byte, b: byte, c: byte)
    ensures var n := a * 0x1_0000 + b * 0x100 + c;
            Group(a, b, c) == [SextetChar(n / 0x4_0000 % 64), SextetChar(n / 0x1000 % 64),
                               SextetChar(n / 64 % 64), SextetChar(n % 64)]
  {
    hide SextetChar;
    var n := a * 0x1_0000 + b * 0x100 + c;
    var (v, w, x, y) := (a / 4, a % 4 * 16 + b / 16, b % 16 * 4 + c / 64, c % 64);
    Sextets(v, w, x, y);
    assert n == 64 * (64 * (64 * v + w) + x) + y;
  }

  lemma Sextets(v: nat, w: nat, x: nat, y: nat)
    requires v < 64 && w < 64 && x < 64 && y < 64
    ensures var n := 64 * (64 * (64 * v + w) + x) + y;
            n / 0x4_0000 % 64 == v && n / 0x1000 % 64 == w && n / 64 % 64 == x && n % 64 == y
  {
    var (hi, mid) := (64 * v + w, 64 * (64 * v + w) + x);
    LastSextet(hi, x);
    LastSextet(mid, y);
    LastSextet(v, w);
    var n := 64 * mid + y;
    assert n / 0x1000 == hi;
    assert n / 0x4_0000 == v;
  }

  lemma LastSextet(n: nat, y: nat)
    requires y < 64
    ensures (64 * n + y) % 64 == y && (64 * n + y) / 64 == n
  {
  }

  function Pads(n: nat): (s: string)
    ensures |s| == n && forall i :: 0 <= i < n ==> s[i] == '='
  {
    seq(n, _ => '=')
  }

  /** Encoding with zero bytes appended, then writing '=' over the last characters. */
  lemma {:induction false} PaddedEncode(b: seq<byte>, p: nat)
    requires p < 3 && (|b| + p) % 3 == 0
    ensures var s := Encode(b + Zeros(p));
            p <= |s| && Encode(b) == s[..|s| - p] + Pads(p)
  {
    hide Encode, SextetChar;
    if |b| >= 3 {
      PaddedEncode(b[3..], p);
      EncodeStep(b);
      EncodeStep(b + Zeros(p));
      assert (b + Zeros(p))[3..] == b[3..] + Zeros(p);
    } else {
      LastGroupPadded(b, p);
    }
  }

  lemma LastGroupPadded(b: seq<byte>, p: nat)
    requires p < 3 && |b| < 3 && (|b| + p) % 3 == 0
    ensures var s := Encode(b + Zeros(p));
            p <= |s| && Encode(b) == s[..|s| - p] + Pads(p)
  {
    hide SextetChar;
    if b != [] {
      EncodeStep(b + Zeros(p));
      EmptyText((b + Zeros(p))[3..]);
    }
  }

  method GroupText(a: byte, b: byte, c: byte) returns (r: string)
    ensures r == Group(a, b, c)
  {
    hide SextetChar;
    var n := a as int * 0x1_0000 + b as int * 0x100 + c;
    WordIsGroup(a, b, c);
    r := [SextetChar(n / 0x4_0000 % 64)];
    r := r + [SextetChar(n / 0x1000 % 64)];
    r := r + [SextetChar(n / 64 % 64)];
    r := r + [SextetChar(n % 64)];
  }

  /** The main loop of `bs64_encode`, over a copy whose length is a multiple of three. */
  method EncodeGroups(bytes: seq<byte>) returns (r: string)
    requires |bytes| % 3 == 0
    ensures r == Encode(bytes)
  {
    hide Encode, Group;
    r := "";
    var i := 0;
    while i < |bytes|
      invariant 0 <= i <= |bytes| && i % 3 == 0
      invariant r + Encode(bytes[i..]) == Encode(bytes)
    {
      var rest := bytes[i..];
      assert i + 2 < |bytes| && rest[3..] == bytes[i + 3..];
      EncodeStep(rest);
      var group := GroupText(bytes[i], bytes[i + 1], bytes[i + 2]);
      assert r + (group + Encode(rest[3..])) == (r + group) + Encode(rest[3..]);
      r := r + group;
      i := i + 3;
    }
    EmptyText(bytes[i..]);
  }

  /** `bs64_encode`. */
  method Bs64Encode(input: seq<byte>) returns (text: string)
    ensures text == Encode(input)
  {
    hide Encode, Zeros, Pads;
    var p, bytes := "", input;
    var c := |bytes| % 3;
    if c > 0 {
      assert input + Zeros(0) == input;
      for i := c to 3
        invariant p == Pads(i - c) && bytes == input + Zeros(i - c)
      {
        OneMore(input, i - c);
        p := p + "=";
        bytes := bytes + [0];
      }
    }
    assert bytes == input + Zeros(|p|) && p == Pads(|p|);
    PaddedEncode(input, |p|);
    var r := EncodeGroups(bytes);
    text := r[..|r| - |p|] + p;
  }

  lemma OneMore(input: seq<byte>, n: nat)
    ensures Pads(n) + "=" == Pads(n + 1)
    ensures input + Zeros(n) + [0] == input + Zeros(n + 1)
  {
  }

  // Decoding

  lemma UpdateView(a: array<byte>, was: seq<byte>, at: nat, n: nat)
    requires at < a.Length == |was|
    requires a[at] == Wrap8(was[at] + n) && forall k :: 0 <= k < a.Length && k != at ==> a[k] == was[k]
    ensures a[..] == AddAt(was, at, n)
  {
  }

  /** `bs64_decode`. */
  method Bs64Decode(input: string) returns (outcome: Outcome)
    ensures outcome == Decode(input)
  {
    hide DecodeFrom, Index, Splash, Spill, Utf8, Wrap8, AddAt, Cut;
    if input == "" {
      return Decoded([]);
    }
    var result := new byte[|input| * 6 / 8](_ => 0);
    assert result[..] == Zeros(|input| * 6 / 8);
    var cutoff := 0;
    var i := 0;
    while i < |input|
      invariant 0 <= i <= |input| && cutoff == 0
      invariant DecodeFrom(input, i, result[..]) == Decode(input)
    {
      var v := Position(input[i]);
      if v == 65 {
        InvalidCharacter(input, i, result[..]);
        return Decoded([]);
      }
      if input[i] == '=' {
        Padding(input, i, result[..]);
        cutoff := if i == |Utf8(input)| - 1 then 1 else 2;
        break;
      }
      var index, splash := Index(i), Splash(v, i);
      if splash != 0 && !(0 < index <= result.Length) {
        OutOfBounds(input, i, result[..]);
        return Crash;
      }
      Turn(input, i, result[..], index);
      ghost var was := result[..];
      if splash != 0 {
        result[index - 1] := Wrap8(result[index - 1] + splash);
        UpdateView(result, was, index - 1, splash);
      }
      assert result[..] == Spread(was, index, splash);
      if index >= result.Length {
        NoCut(result[..]);
        break;
      }
      was := result[..];
      result[index] := Wrap8(result[index] + Spill(v, i));
      UpdateView(result, was, index, Spill(v, i));
      i := i + 1;
    }
    if i == |input| {
      LoopEnd(input, result[..]);
      NoCut(result[..]);
    }
    outcome := Decoded(Cut(result[..], cutoff));
  }

  lemma InvalidCharacter(input: string, i: nat, r: seq<byte>)
    requires i < |input| && Position(input[i]) == 65
    ensures DecodeFrom(input, i, r) == Decoded([])
  {
    hide Index, Utf8, Spread, AddAt;
  }

  lemma OutOfBounds(input: string, i: nat, r: seq<byte>)
    requires i < |input| && IsSextet(input[i]) && Splash(Position(input[i]), i) != 0 && !(0 < Index(i) <= |r|)
    ensures DecodeFrom(input, i, r) == Crash
  {
    hide Index, Utf8, Spread, AddAt, Splash, Position;
  }

  lemma LoopEnd(input: string, r: seq<byte>)
    ensures DecodeFrom(input, |input|, r) == Decoded(r)
  {
  }

  lemma NoCut(r: seq<byte>)
    ensures Cut(r, 0) == r
  {
  }
}
