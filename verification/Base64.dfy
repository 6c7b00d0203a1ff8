/** Base64 text for byte strings: what `bs64_encode` and `bs64_decode` compute,
    against section 4 of RFC 4648. */
module Base64 {
  import opened Words
  import opened Text

  // The alphabet: table 1 of RFC 4648

  /** The tables `mapping` and `BASE_64_MAP`, by their runs of consecutive characters. */
  function SextetChar(v: int): (c: char)
    requires 0 <= v < 64
    ensures c as int < 128 && c != '='
  {
    if v < 26 then (v + 'A' as int) as char
    else if v < 52 then (v - 26 + 'a' as int) as char
    else if v < 62 then (v - 52 + '0' as int) as char
    else if v == 62 then '+' else '/'
  }

  /** The position of a character in `BASE_64_MAP`, its size when there is none; '=' comes last. */
  function Position(c: char): (v: int)
    ensures 0 <= v <= 65
    ensures v < 64 ==> c == SextetChar(v)
  {
    if 'A' <= c <= 'Z' then c as int - 'A' as int
    else if 'a' <= c <= 'z' then c as int - 'a' as int + 26
    else if '0' <= c <= '9' then c as int - '0' as int + 52
    else if c == '+' then 62 else if c == '/' then 63
    else if c == '=' then 64 else 65
  }

  predicate IsSextet(c: char) {
    Position(c) < 64
  }

  lemma PositionOfChar(v: int)
    requires 0 <= v < 64
    ensures Position(SextetChar(v)) == v && IsSextet(SextetChar(v))
  {
  }

  // Section 4 of RFC 4648

  /** Three octets, as four characters of six bits each. */
  function Group(a: byte, b: byte, c: byte): (s: string)
    ensures |s| == 4
  {
    [SextetChar(a / 4), SextetChar(a % 4 * 16 + b / 16), SextetChar(b % 16 * 4 + c / 64), SextetChar(c % 64)]
  }

  function Encode(b: seq<byte>): (s: string)
    ensures |s| == TextLength(|b|)
  {
    if |b| == 0 then ""
    else if |b| == 1 then Group(b[0], 0, 0)[..2] + "=="
    else if |b| == 2 then Group(b[0], b[1], 0)[..3] + "="
    else Group(b[0], b[1], b[2]) + Encode(b[3..])
  }

  function TextLength(n: nat): nat {
    (n + 2) / 3 * 4
  }

  /** Groups of four characters, of which only the last may be padded. */
  predicate WellFormed(s: string) {
    s == "" ||
    (|s| >= 4 && IsSextet(s[0]) && IsSextet(s[1])
     && (|| (IsSextet(s[2]) && IsSextet(s[3]) && WellFormed(s[4..]))
         || (IsSextet(s[2]) && s[3..] == "=")
         || s[2..] == "=="))
  }

  function First(s: string): byte
    requires |s| >= 2 && IsSextet(s[0]) && IsSextet(s[1])
  {
    Position(s[0]) * 4 + Position(s[1]) / 16
  }

  function Second(s: string): byte
    requires |s| >= 3 && IsSextet(s[1]) && IsSextet(s[2])
  {
    Position(s[1]) % 16 * 16 + Position(s[2]) / 4
  }

  function Third(s: string): byte
    requires |s| >= 4 && IsSextet(s[2]) && IsSextet(s[3])
  {
    Position(s[2]) % 4 * 64 + Position(s[3])
  }

  /** The octets of a text: bits left over in a padded group are dropped. */
  function Octets(s: string): seq<byte>
    requires WellFormed(s)
  {
    if s == "" then []
    else if s[2] == '=' then [First(s)]
    else if s[3] == '=' then [First(s), Second(s)]
    else [First(s), Second(s), Third(s)] + Octets(s[4..])
  }

  lemma {:induction false} OctetsOfEncode(b: seq<byte>)
    ensures WellFormed(Encode(b)) && Octets(Encode(b)) == b
  {
    hide SextetChar, Position;
    if |b| >= 3 {
      OctetsOfEncode(b[3..]);
      var g := Group(b[0], b[1], b[2]);
      assert Encode(b) == g + Encode(b[3..]);
      assert Encode(b)[4..] == Encode(b[3..]);
      GroupValues(b[0], b[1], b[2]);
    } else if |b| > 0 {
      GroupValues(b[0], if |b| == 2 then b[1] else 0, 0);
    }
  }

  lemma GroupValues(a: byte, b: byte, c: byte)
    ensures var g := Group(a, b, c);
            && (forall i :: 0 <= i < 4 ==> IsSextet(g[i]) && g[i] != '=')
            && First(g) == a && Second(g) == b && Third(g) == c
  {
    hide SextetChar, Position;
    PositionOfChar(a / 4);
    PositionOfChar(a % 4 * 16 + b / 16);
    PositionOfChar(b % 16 * 4 + c / 64);
    PositionOfChar(c % 64);
  }

  // `bs64_decode`

  const EXACT: int := 0x100_0000

  /** The spacing of `float` values around a non-negative integer: 24 bits are kept. */
  function Spacing(i: nat): (s: nat)
    ensures s >= 1
  {
    if i < EXACT then 1 else 2 * Spacing(i / 2)
  }

  /** `float(i)`: the nearest value, ties to the even one. */
  function Floating(i: nat): nat {
    var (q, r) := (i / Spacing(i), i % Spacing(i));
    (if 2 * r > Spacing(i) || (2 * r == Spacing(i) && q % 2 == 1) then q + 1 else q) * Spacing(i)
  }

  lemma FloatingIsExact(i: nat)
    requires i <= EXACT
    ensures Floating(i) == i
  {
    if i == EXACT {
      assert Spacing(i) == 2 * Spacing(i / 2);
    }
  }

  lemma FloatingIsNotExact()
    ensures Floating(EXACT + 1) == EXACT
  {
    assert Spacing(EXACT + 1) == 2 * Spacing((EXACT + 1) / 2);
  }

  /** `ceil(float(i) * 6.0 / 8.0)`. */
  function Index(i: nat): nat {
    (3 * Floating(i) + 3) / 4
  }

  /** `val >> ((3 - (i % 4)) * 2)`. */
  function Splash(v: nat, i: nat): nat {
    if i % 4 == 0 then v / 64 else if i % 4 == 1 then v / 16 else if i % 4 == 2 then v / 4 else v
  }

  /** `val << (2 + (i % 4) * 2)`. */
  function Spill(v: nat, i: nat): nat {
    if i % 4 == 0 then v * 4 else if i % 4 == 1 then v * 16 else if i % 4 == 2 then v * 64 else v * 256
  }

  /** `result[at] += n`, in a byte. */
  function AddAt(result: seq<byte>, at: nat, n: nat): seq<byte>
    requires at < |result|
  {
    result[at := Wrap8(result[at] + n)]
  }

  function Spread(result: seq<byte>, index: nat, splash: nat): (r: seq<byte>)
    requires splash != 0 ==> 0 < index <= |result|
    ensures |r| == |result|
  {
    if splash != 0 then AddAt(result, index - 1, splash) else result
  }

  /** The array returned; writing past its end crashes. */
  datatype Outcome = Decoded(bytes: seq<byte>) | Crash

  function Cut(result: seq<byte>, cutoff: nat): seq<byte> {
    if cutoff <= |result| then result[..|result| - cutoff] else []
  }

  /** The loop of `bs64_decode`, from character `i` on. */
  function DecodeFrom(input: string, i: nat, result: seq<byte>): Outcome
    requires i <= |input|
    decreases |input| - i
  {
    if i == |input| then Decoded(result)
    else
      var v := Position(input[i]);
      if v == 65 then Decoded([])
      else if v == 64 then Decoded(Cut(result, if i == |Utf8(input)| - 1 then 1 else 2))
      else
        var (index, splash) := (Index(i), Splash(v, i));
        if splash != 0 && !(0 < index <= |result|) then Crash
        else
          var spread := Spread(result, index, splash);
          if index >= |result| then Decoded(spread)
          else DecodeFrom(input, i + 1, AddAt(spread, index, Spill(v, i)))
  }

  function Decode(input: string): Outcome {
    if input == "" then Decoded([]) else DecodeFrom(input, 0, Zeros(|input| * 6 / 8))
  }

  // The loop decodes one group at a time

  lemma ExactIndex(i: nat)
    requires i <= EXACT
    ensures Index(i) == (3 * i + 3) / 4
  {
    hide Floating;
    FloatingIsExact(i);
  }

  /** One turn of the loop, at index `at`. */
  lemma Turn(s: string, i: nat, r: seq<byte>, at: nat)
    requires i < |s| && IsSextet(s[i]) && Index(i) == at
    requires Splash(Position(s[i]), i) != 0 ==> 0 < at <= |r|
    ensures var spread := Spread(r, at, Splash(Position(s[i]), i));
            DecodeFrom(s, i, r) == if at >= |r| then Decoded(spread)
                                   else DecodeFrom(s, i + 1, AddAt(spread, at, Spill(Position(s[i]), i)))
  {
    hide Position, Index, Utf8, Spread, Splash, Spill, AddAt;
  }

  lemma Shifts(v: nat, q: nat)
    ensures Splash(v, 4 * q) == v / 64 && Splash(v, 4 * q + 1) == v / 16
    ensures Splash(v, 4 * q + 2) == v / 4 && Splash(v, 4 * q + 3) == v
    ensures Spill(v, 4 * q) == v * 4 && Spill(v, 4 * q + 1) == v * 16
    ensures Spill(v, 4 * q + 2) == v * 64 && Spill(v, 4 * q + 3) == v * 256
  {
  }

  /** What is added to a byte never carries out of it, nor into its other field. */
  lemma NoCarry(v: nat, w: nat)
    requires v < 64 && w < 64
    ensures Wrap8(v * 4) == v * 4 && Wrap8(v * 4 + w / 16) == v * 4 + w / 16
    ensures Wrap8(v * 16) == v % 16 * 16 && Wrap8(v % 16 * 16 + w / 4) == v % 16 * 16 + w / 4
    ensures Wrap8(v * 64) == v % 4 * 64 && Wrap8(v % 4 * 64 + w) == v % 4 * 64 + w
  {
    hide Wrap8;
    Remainder(v * 4, 0, v * 4);
    Remainder(v * 4 + w / 16, 0, v * 4 + w / 16);
    Remainder(v * 16, v / 16, v % 16 * 16);
    Remainder(v % 16 * 16 + w / 4, 0, v % 16 * 16 + w / 4);
    Remainder(v * 64, v / 4, v % 4 * 64);
    Remainder(v % 4 * 64 + w, 0, v % 4 * 64 + w);
  }

  lemma Remainder(n: nat, q: nat, b: byte)
    requires n == 256 * q + b
    ensures Wrap8(n) == b
  {
  }

  lemma NothingAdded(b: byte, v: nat)
    ensures Wrap8(b + v * 256) == b
  {
    Remainder(b + v * 256, v, b);
  }

  /** What the spilled and splashed bits of two neighbours add up to in a byte. */
  lemma FieldsOfByte(s: string, q: nat)
    requires 4 * q < |s|
    ensures 4 * q + 1 < |s| && IsSextet(s[4 * q]) && IsSextet(s[4 * q + 1]) ==>
              First(s[4 * q..]) == Position(s[4 * q]) * 4 + Position(s[4 * q + 1]) / 16
    ensures 4 * q + 2 < |s| && IsSextet(s[4 * q + 1]) && IsSextet(s[4 * q + 2]) ==>
              Second(s[4 * q..]) == Position(s[4 * q + 1]) % 16 * 16 + Position(s[4 * q + 2]) / 4
    ensures 4 * q + 3 < |s| && IsSextet(s[4 * q + 2]) && IsSextet(s[4 * q + 3]) ==>
              Third(s[4 * q..]) == Position(s[4 * q + 2]) % 4 * 64 + Position(s[4 * q + 3])
  {
    hide Position;
  }

  lemma FirstCharacter(s: string, q: nat, r: seq<byte>)
    requires 4 * q < |s| && 4 * q <= EXACT && IsSextet(s[4 * q])
    requires 3 * q < |r| && r[3 * q] == 0
    ensures DecodeFrom(s, 4 * q, r) == DecodeFrom(s, 4 * q + 1, r[3 * q := Position(s[4 * q]) * 4])
  {
    hide Position, Index, DecodeFrom, Splash, Spill, Wrap8;
    NoCarry(Position(s[4 * q]), Position(s[4 * q]));
    ExactIndex(4 * q);
    Shifts(Position(s[4 * q]), q);
    Turn(s, 4 * q, r, 3 * q);
  }

  lemma SecondCharacter(s: string, q: nat, r: seq<byte>)
    requires 4 * q + 1 < |s| && 4 * q + 1 <= EXACT && IsSextet(s[4 * q]) && IsSextet(s[4 * q + 1])
    requires 3 * q + 1 < |r| && r[3 * q] == Position(s[4 * q]) * 4 && r[3 * q + 1] == 0
    ensures DecodeFrom(s, 4 * q + 1, r)
         == DecodeFrom(s, 4 * q + 2, r[3 * q := First(s[4 * q..])][3 * q + 1 := Position(s[4 * q + 1]) % 16 * 16])
  {
    hide Position, Index, DecodeFrom, Splash, Spill, Wrap8, First;
    FieldsOfByte(s, q);
    NoCarry(Position(s[4 * q]), Position(s[4 * q + 1]));
    NoCarry(Position(s[4 * q + 1]), 0);
    ExactIndex(4 * q + 1);
    Shifts(Position(s[4 * q + 1]), q);
    Turn(s, 4 * q + 1, r, 3 * q + 1);
    var spread := Spread(r, 3 * q + 1, Position(s[4 * q + 1]) / 16);
    assert spread == r[3 * q := First(s[4 * q..])];
    assert AddAt(spread, 3 * q + 1, Position(s[4 * q + 1]) * 16)
        == spread[3 * q + 1 := Position(s[4 * q + 1]) % 16 * 16];
  }

  lemma ThirdCharacter(s: string, q: nat, r: seq<byte>)
    requires 4 * q + 2 < |s| && 4 * q + 2 <= EXACT && IsSextet(s[4 * q + 1]) && IsSextet(s[4 * q + 2])
    requires 3 * q + 2 < |r| && r[3 * q + 1] == Position(s[4 * q + 1]) % 16 * 16 && r[3 * q + 2] == 0
    ensures DecodeFrom(s, 4 * q + 2, r)
         == DecodeFrom(s, 4 * q + 3, r[3 * q + 1 := Second(s[4 * q..])][3 * q + 2 := Position(s[4 * q + 2]) % 4 * 64])
  {
    hide Position, Index, DecodeFrom, Splash, Spill, Wrap8, Second;
    FieldsOfByte(s, q);
    NoCarry(Position(s[4 * q + 1]), Position(s[4 * q + 2]));
    NoCarry(Position(s[4 * q + 2]), 0);
    ExactIndex(4 * q + 2);
    Shifts(Position(s[4 * q + 2]), q);
    Turn(s, 4 * q + 2, r, 3 * q + 2);
    var spread := Spread(r, 3 * q + 2, Position(s[4 * q + 2]) / 4);
    assert spread == r[3 * q + 1 := Second(s[4 * q..])];
    assert AddAt(spread, 3 * q + 2, Position(s[4 * q + 2]) * 64)
        == spread[3 * q + 2 := Position(s[4 * q + 2]) % 4 * 64];
  }

  lemma FourthCharacter(s: string, q: nat, r: seq<byte>)
    requires 4 * q + 3 < |s| && 4 * q + 3 <= EXACT && IsSextet(s[4 * q + 2]) && IsSextet(s[4 * q + 3])
    requires 3 * q + 2 < |r| && r[3 * q + 2] == Position(s[4 * q + 2]) % 4 * 64
    ensures var done := r[3 * q + 2 := Third(s[4 * q..])];
            DecodeFrom(s, 4 * q + 3, r) == if |r| == 3 * q + 3 then Decoded(done) else DecodeFrom(s, 4 * q + 4, done)
  {
    hide Position, Index, DecodeFrom, Splash, Spill, Wrap8, Third;
    FieldsOfByte(s, q);
    NoCarry(Position(s[4 * q + 2]), Position(s[4 * q + 3]));
    var (at, v) := (3 * q + 3, Position(s[4 * q + 3]));
    ExactIndex(4 * q + 3);
    Shifts(v, q);
    Turn(s, 4 * q + 3, r, at);
    var done := r[3 * q + 2 := Third(s[4 * q..])];
    assert Spread(r, at, v) == done;
    if |r| > at {
      NothingAdded(done[at], v);
      assert AddAt(done, at, v * 256) == done;
    }
  }

  lemma Padding(s: string, i: nat, r: seq<byte>)
    requires i < |s| && s[i] == '='
    ensures DecodeFrom(s, i, r) == Decoded(Cut(r, if i == |Utf8(s)| - 1 then 1 else 2))
  {
    hide Utf8, Cut, Index;
  }

  lemma {:induction false} WellFormedIsAscii(s: string)
    requires WellFormed(s)
    ensures |s| % 4 == 0 && forall i :: 0 <= i < |s| ==> s[i] as int < 128
  {
    hide Position, SextetChar;
    if s != "" && |s| != 4 {
      WellFormedIsAscii(s[4..]);
      assert forall i :: 4 <= i < |s| ==> s[i] == s[4..][i - 4];
    }
    assert s != "" && |s| == 4 && s[2..] == "==" ==> s[2] == s[2..][0] && s[3] == s[2..][1];
    assert s != "" && |s| == 4 && s[3..] == "=" ==> s[3] == s[3..][0];
  }

  /** A full group, from its first character to the next group. */
  lemma GroupDecodes(s: string, q: nat, r: seq<byte>)
    requires 4 * q + 3 < |s| <= EXACT && IsSextet(s[4 * q]) && IsSextet(s[4 * q + 1])
    requires IsSextet(s[4 * q + 2]) && IsSextet(s[4 * q + 3])
    requires 3 * q + 2 < |r| && r[3 * q] == r[3 * q + 1] == r[3 * q + 2] == 0
    ensures var (g, i) := (s[4 * q..], 3 * q);
            var done := r[i := First(g)][i + 1 := Second(g)][i + 2 := Third(g)];
            DecodeFrom(s, 4 * q, r) == if |r| == i + 3 then Decoded(done) else DecodeFrom(s, 4 * q + 4, done)
  {
    hide First, Second, Third, Position, DecodeFrom;
    var (g, i) := (s[4 * q..], 3 * q);
    FirstCharacter(s, q, r);
    var r1 := r[i := Position(s[4 * q]) * 4];
    SecondCharacter(s, q, r1);
    var r2 := r1[i := First(g)][i + 1 := Position(s[4 * q + 1]) % 16 * 16];
    ThirdCharacter(s, q, r2);
    var r3 := r2[i + 1 := Second(g)][i + 2 := Position(s[4 * q + 2]) % 4 * 64];
    FourthCharacter(s, q, r3);
    assert r3[i + 2 := Third(g)] == r[i := First(g)][i + 1 := Second(g)][i + 2 := Third(g)];
  }

  /** A group whose last two characters, or last one, are padding. */
  lemma PaddedGroupDecodes(s: string, q: nat, r: seq<byte>)
    requires 4 * q + 4 == |s| <= EXACT && |Utf8(s)| == |s| && IsSextet(s[4 * q]) && IsSextet(s[4 * q + 1])
    requires s[4 * q + 2] == '=' || (IsSextet(s[4 * q + 2]) && s[4 * q + 3] == '=')
    requires 3 * q + 3 == |r| && r[3 * q] == r[3 * q + 1] == r[3 * q + 2] == 0
    ensures var g := s[4 * q..];
            DecodeFrom(s, 4 * q, r)
            == Decoded(r[..3 * q] + if s[4 * q + 2] == '=' then [First(g)] else [First(g), Second(g)])
  {
    hide First, Second, Position, DecodeFrom, Utf8;
    var (g, i) := (s[4 * q..], 3 * q);
    FirstCharacter(s, q, r);
    var r1 := r[i := Position(s[4 * q]) * 4];
    SecondCharacter(s, q, r1);
    var r2 := r1[i := First(g)][i + 1 := Position(s[4 * q + 1]) % 16 * 16];
    if s[4 * q + 2] == '=' {
      Padding(s, 4 * q + 2, r2);
      assert Cut(r2, 2) == r[..i] + [First(g)];
    } else {
      ThirdCharacter(s, q, r2);
      var r3: seq<byte> := r2[i + 1 := Second(g)][i + 2 := Position(s[4 * q + 2]) % 4 * 64];
      Padding(s, 4 * q + 3, r3);
      assert Cut(r3, 1) == r[..i] + [First(g), Second(g)];
    }
  }

  /** From group `q` on, the loop writes what is left of the text's octets. */
  lemma {:induction false} DecodesGroups(s: string, q: nat, r: seq<byte>)
    requires |Utf8(s)| == |s| && |s| % 4 == 0 && |s| <= EXACT && 4 * q < |s| && WellFormed(s[4 * q..])
    requires |r| == |s| / 4 * 3 && forall k :: 3 * q <= k < |r| ==> r[k] == 0
    ensures DecodeFrom(s, 4 * q, r) == Decoded(r[..3 * q] + Octets(s[4 * q..]))
    decreases |s| - 4 * q
  {
    hide WellFormed, Octets, First, Second, Third, IsSextet, DecodeFrom, Utf8;
    var (g, i) := (s[4 * q..], 3 * q);
    GroupCases(g);
    assert forall k :: 0 <= k < 4 ==> g[k] == s[4 * q + k];
    if g[2] == '=' || g[3] == '=' {
      PaddedGroupDecodes(s, q, r);
    } else {
      GroupDecodes(s, q, r);
      var done := r[i := First(g)][i + 1 := Second(g)][i + 2 := Third(g)];
      assert s[4 * q + 4..] == g[4..];
      assert done[..i + 3] == r[..i] + [First(g), Second(g), Third(g)];
      if 4 * q + 4 < |s| {
        DecodesGroups(s, q + 1, done);
      } else {
        NoOctets(g[4..]);
        assert done == done[..i + 3];
      }
    }
  }

  lemma NoOctets(s: string)
    requires s == ""
    ensures WellFormed(s) && Octets(s) == []
  {
  }

  lemma GroupCases(g: string)
    requires WellFormed(g) && g != ""
    ensures |g| >= 4 && IsSextet(g[0]) && IsSextet(g[1])
    ensures g[2] == '=' ==> |g| == 4 && Octets(g) == [First(g)]
    ensures g[2] != '=' ==> IsSextet(g[2])
    ensures g[2] != '=' && g[3] == '=' ==> |g| == 4 && Octets(g) == [First(g), Second(g)]
    ensures g[2] != '=' && g[3] != '=' ==> IsSextet(g[3]) && WellFormed(g[4..])
    ensures g[2] != '=' && g[3] != '=' ==> Octets(g) == [First(g), Second(g), Third(g)] + Octets(g[4..])
  {
    hide SextetChar, First, Second, Third;
    assert g[2..] == "==" ==> g[2..][0] == g[2];
    assert g[3..] == "=" ==> g[3..][0] == g[3];
    assert Position('=') == 64;
  }

  /** `bs64_decode` gives the octets section 4 of RFC 4648 assigns to a text, for
      every text of at most 2^24 characters: the additive writes never carry
      from one field of a byte into the next. */
  lemma DecodeIsExact(s: string)
    requires WellFormed(s) && |s| <= EXACT
    ensures Decode(s) == Decoded(Octets(s))
  {
    hide DecodeFrom, WellFormed;
    if s != "" {
      WellFormedIsAscii(s);
      AsciiLength(s);
      assert s[0..] == s;
      DecodesGroups(s, 0, Zeros(|s| * 6 / 8));
    }
  }

  lemma DecodeEncode(b: seq<byte>)
    requires TextLength(|b|) <= EXACT
    ensures Decode(Encode(b)) == Decoded(b)
  {
    hide Decode, Encode, WellFormed, Octets;
    OctetsOfEncode(b);
    DecodeIsExact(Encode(b));
  }

  /** No text of at most 2^24 characters, well formed or not, is written past the end of the array. */
  lemma DecodeNeverCrashes(s: string)
    requires |s| <= EXACT
    ensures Decode(s).Decoded?
  {
    hide DecodeFrom;
    if s != "" {
      StaysInBounds(s, 0, Zeros(|s| * 6 / 8));
    }
  }

  lemma {:induction false} StaysInBounds(s: string, i: nat, r: seq<byte>)
    requires i <= |s| <= EXACT && |r| == |s| * 6 / 8
    ensures DecodeFrom(s, i, r).Decoded?
    decreases |s| - i
  {
    hide Index, Position, Spill, Utf8, Wrap8;
    if i < |s| && IsSextet(s[i]) {
      ExactIndex(i);
      var (v, at) := (Position(s[i]), Index(i));
      if at < |r| {
        StaysInBounds(s, i + 1, AddAt(Spread(r, at, Splash(v, i)), at, Spill(v, i)));
      }
    }
  }

  // Longer texts

  /** A text of characters that stand for zero, padded or not. */
  predicate Blank(s: string) {
    forall i :: 0 <= i < |s| ==> s[i] == 'A' || s[i] == '='
  }

  lemma EncodeStep(b: seq<byte>)
    requires |b| >= 3
    ensures Encode(b) == Group(b[0], b[1], b[2]) + Encode(b[3..])
  {
    hide SextetChar, Group;
  }

  lemma {:induction false} ZerosAreBlank(n: nat)
    ensures Blank(Encode(Zeros(n)))
    ensures n % 3 == 0 ==> '=' !in Encode(Zeros(n))
  {
    hide Encode;
    if n < 3 {
      ShortBlank(n);
    } else {
      EncodeStep(Zeros(n));
      assert Zeros(n)[3..] == Zeros(n - 3);
      assert Group(0, 0, 0) == "AAAA";
      ZerosAreBlank(n - 3);
    }
  }

  lemma ShortBlank(n: nat)
    requires n < 3
    ensures Blank(Encode(Zeros(n)))
    ensures n % 3 == 0 ==> '=' !in Encode(Zeros(n))
  {
    assert Group(0, 0, 0) == "AAAA";
  }

  lemma EmptyText(b: seq<byte>)
    requires b == []
    ensures Encode(b) == ""
  {
  }

  lemma {:induction false} EncodeAppend(a: seq<byte>, b: seq<byte>)
    requires |a| % 3 == 0
    ensures Encode(a + b) == Encode(a) + Encode(b)
  {
    hide Encode, Group, TextLength;
    if a == [] {
      assert a + b == b;
      EmptyText(a);
    } else {
      var (g, tail, after) := (Group(a[0], a[1], a[2]), Encode(a[3..]), Encode(b));
      EncodeStep(a);
      EncodeStep(a + b);
      EncodeAppend(a[3..], b);
      assert (a + b)[3..] == a[3..] + b;
      assert g + (tail + after) == (g + tail) + after;
    }
  }

  /** Characters that stand for zero write nothing. */
  lemma {:induction false} BlankKeeps(s: string, i: nat, r: seq<byte>)
    requires i <= |s| && Blank(s[i..])
    ensures var d := DecodeFrom(s, i, r);
            d.Decoded? && d.bytes <= r
    decreases |s| - i
  {
    hide Index, Utf8;
    if i < |s| {
      assert s[i] == s[i..][0] && s[i + 1..] == s[i..][1..];
      if s[i] == '=' {
        Padding(s, i, r);
      } else {
        BlankKeeps(s, i + 1, r);
        BlankTurn(s, i, r);
      }
    }
  }

  lemma BlankTurn(s: string, i: nat, r: seq<byte>)
    requires i < |s| && s[i] == 'A'
    ensures DecodeFrom(s, i, r) == if Index(i) >= |r| then Decoded(r) else DecodeFrom(s, i + 1, r)
  {
    hide Index, Utf8;
    if Index(i) < |r| {
      assert AddAt(r, Index(i), 0) == r;
    }
  }

  lemma {:induction false} BlankSkips(s: string, i: nat, stop: nat, r: seq<byte>)
    requires i <= stop <= |s| && stop <= EXACT + 1 && 3 * stop + 3 < 4 * |r|
    requires forall k :: i <= k < stop ==> s[k] == 'A'
    ensures DecodeFrom(s, i, r) == DecodeFrom(s, stop, r)
    decreases stop - i
  {
    hide DecodeFrom, Index;
    if i < stop {
      ExactIndex(i);
      BlankTurn(s, i, r);
      BlankSkips(s, i + 1, stop, r);
    }
  }

  /** Zeros with a single one, where the index of the first inexact `float` is used. */
  function Spoiled(m: nat): seq<byte> {
    Zeros(EXACT / 4 * 3) + ([1] + Zeros(m))
  }

  lemma SpoiledText(m: nat)
    ensures var s := Encode(Spoiled(m));
            && |s| >= EXACT + 4 && |s| == TextLength(EXACT / 4 * 3 + 1 + m)
            && (forall k :: 0 <= k <= EXACT ==> s[k] == 'A') && s[EXACT + 1] == SextetChar(16) && Blank(s[EXACT + 2..])
  {
    hide Encode, Position;
    var (head, tail) := (Encode(Zeros(EXACT / 4 * 3)), Encode([1] + Zeros(m)));
    EncodeAppend(Zeros(EXACT / 4 * 3), [1] + Zeros(m));
    ZerosAreBlank(EXACT / 4 * 3);
    assert |head| == EXACT;
    SpoiledTail(m);
    assert (head + tail)[EXACT + 2..] == tail[2..];
  }

  lemma SpoiledTail(m: nat)
    ensures var s := Encode([1] + Zeros(m));
            |s| >= 4 && s[0] == 'A' && s[1] == SextetChar(16) && Blank(s[2..])
  {
    hide Encode;
    var b := [1] + Zeros(m);
    assert Group(1, 0, 0) == "AQAA";
    if m >= 2 {
      EncodeStep(b);
      assert b[3..] == Zeros(m - 2);
      ZerosAreBlank(m - 2);
    } else {
      ShortSpoiled(m);
    }
  }

  lemma ShortSpoiled(m: nat)
    requires m < 2
    ensures Encode([1] + Zeros(m)) == if m == 0 then "AQ==" else "AQA="
  {
    assert Group(1, 0, 0) == "AQAA";
  }

  lemma SpoiledIsLost(m: nat)
    ensures Decode(Encode(Spoiled(m))) != Decoded(Spoiled(m))
  {
    hide DecodeFrom, Encode, Index, Blank, Utf8, Position;
    var (s, i, q) := (Encode(Spoiled(m)), EXACT + 1, EXACT / 4 * 3);
    var r := Zeros(|s| * 6 / 8);
    SpoiledText(m);
    BlankSkips(s, 0, i, r);
    var wrong := r[q - 1 := 1];
    SpoiledTurn(s, r);
    BlankKeeps(s, i + 1, wrong);
    assert Spoiled(m)[q] == 1 && wrong[q] == 0;
  }

  lemma SpoiledTurn(s: string, r: seq<byte>)
    requires EXACT + 1 < |s| && s[EXACT + 1] == SextetChar(16)
    requires EXACT / 4 * 3 < |r| && forall k :: 0 <= k < |r| ==> r[k] == 0
    ensures DecodeFrom(s, EXACT + 1, r) == DecodeFrom(s, EXACT + 2, r[EXACT / 4 * 3 - 1 := 1])
  {
    hide DecodeFrom, Position, SextetChar, Floating, Splash, Spill;
    var q := EXACT / 4 * 3;
    FloatingIsNotExact();
    PositionOfChar(16);
    Shifts(16, EXACT / 4);
    Turn(s, EXACT + 1, r, q);
    var spread := r[q - 1 := 1];
    assert Spread(r, q, 1) == spread;
    assert AddAt(spread, q, 256) == spread;
  }

  /** Decoding undoes encoding for all byte strings of a length exactly when
      their text has at most 2^24 characters. */
  lemma RoundTripsUpToLimit(n: nat)
    ensures (forall b: seq<byte> :: |b| == n ==> Decode(Encode(b)) == Decoded(b)) <==> TextLength(n) <= EXACT
  {
    hide Decode, Encode, Spoiled;
    if TextLength(n) <= EXACT {
      forall b: seq<byte> | |b| == n ensures Decode(Encode(b)) == Decoded(b) {
        DecodeEncode(b);
      }
    } else {
      var m := n - EXACT / 4 * 3 - 1;
      SpoiledIsLost(m);
      SpoiledLength(m);
    }
  }

  lemma SpoiledLength(m: nat)
    ensures |Spoiled(m)| == EXACT / 4 * 3 + 1 + m
  {
  }
}
