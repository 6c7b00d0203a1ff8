/** What base64 text means: its alphabet, the numbers its groups are, and which
    texts are refused. */
module Base64Meaning {
  import opened Words
  import opened Text
  import opened Base64

  // The alphabet

  /** Table 1 of RFC 4648. */
  const ALPHABET := "ABCDEFGHIJKLMNOPQRSTUVWXYZ" + "abcdefghijklmnopqrstuvwxyz" + "0123456789" + "+/"

  /** The character of a sextet is the one at its place in the alphabet. */
  lemma SextetsInOrder(v: int)
    requires 0 <= v < 64
    ensures |ALPHABET| == 64 && SextetChar(v) == ALPHABET[v]
  {
    Letters(v);
    Others(v);
    Rows("ABCDEFGHIJKLMNOPQRSTUVWXYZ", "abcdefghijklmnopqrstuvwxyz", "0123456789", "+/", v);
  }

  lemma Letters(v: int)
    requires 0 <= v < 64
    ensures v < 26 ==> SextetChar(v) == "ABCDEFGHIJKLMNOPQRSTUVWXYZ"[v]
    ensures 26 <= v < 52 ==> SextetChar(v) == "abcdefghijklmnopqrstuvwxyz"[v - 26]
  {
  }

  lemma Others(v: int)
    requires 0 <= v < 64
    ensures 52 <= v < 62 ==> SextetChar(v) == "0123456789"[v - 52]
    ensures 62 <= v ==> SextetChar(v) == "+/"[v - 62]
  {
  }

  lemma Rows(r0: string, r1: string, r2: string, r3: string, v: int)
    requires 0 <= v < 64 && |r0| == 26 && |r1| == 26 && |r2| == 10 && |r3| == 2
    ensures var all := r0 + r1 + r2 + r3;
            && |all| == 64
            && all[v] == if v < 26 then r0[v] else if v < 52 then r1[v - 26]
                         else if v < 62 then r2[v - 52] else r3[v - 62]
  {
  }

  /** A character is a sextet exactly when it is in the alphabet; the padding has
      the place behind it, and any other character none. */
  lemma SextetsAreTheAlphabet(c: char)
    ensures IsSextet(c) <==> exists v :: 0 <= v < 64 && |ALPHABET| == 64 && ALPHABET[v] == c
    ensures IsSextet(c) ==> |ALPHABET| == 64 && ALPHABET[Position(c)] == c
    ensures !IsSextet(c) ==> Position(c) == if c == '=' then 64 else 65
  {
    hide SextetChar, ALPHABET;
    if IsSextet(c) {
      SextetsInOrder(Position(c));
    }
    forall v | 0 <= v < 64 && |ALPHABET| == 64 && ALPHABET[v] == c ensures IsSextet(c) {
      SextetsInOrder(v);
      PositionOfChar(v);
    }
  }

  // The numbers

  /** Two, three or four sextets as a number in base 64. */
  function Sextets2(s: string): int
    requires |s| >= 2
  {
    Position(s[0]) * 64 + Position(s[1])
  }

  function Sextets3(s: string): int
    requires |s| >= 3
  {
    Sextets2(s) * 64 + Position(s[2])
  }

  function Sextets4(s: string): int
    requires |s| >= 4
  {
    Sextets3(s) * 64 + Position(s[3])
  }

  /** Two or three octets as a number in base 256. */
  function Octets2(a: int, b: int): int {
    a * 256 + b
  }

  function Octets3(a: int, b: int, c: int): int {
    Octets2(a, b) * 256 + c
  }

  /** Three octets and their four sextets are the same 24-bit number. */
  lemma GroupIsNumber(a: byte, b: byte, c: byte)
    ensures Sextets4(Group(a, b, c)) == Octets3(a, b, c)
    ensures b == 0 && c == 0 ==> Sextets2(Group(a, b, c)) == 16 * a
    ensures c == 0 ==> Sextets3(Group(a, b, c)) == 4 * Octets2(a, b)
  {
    hide SextetChar, Position;
    PositionOfChar(a / 4);
    PositionOfChar(a % 4 * 16 + b / 16);
    PositionOfChar(b % 16 * 4 + c / 64);
    PositionOfChar(c % 64);
    SextetsOfOctets(a, b, c);
  }

  lemma SextetsOfOctets(a: byte, b: byte, c: byte)
    ensures a / 4 * 64 + (a % 4 * 16 + b / 16) == a * 16 + b / 16
    ensures (a * 16 + b / 16) * 64 + (b % 16 * 4 + c / 64) == (a * 256 + b) * 4 + c / 64
    ensures ((a * 256 + b) * 4 + c / 64) * 64 + c % 64 == (a * 256 + b) * 256 + c
  {
  }

  /** Group i of the text is the number of octets 3 i to 3 i + 2; a last group of
      one or two octets is their number with four or two zero bits appended, and
      padded to four characters. */
  lemma {:induction false} EncodesNumbers(b: seq<byte>, i: nat)
    requires 3 * i < |b|
    ensures var (s, rest) := (Encode(b), |b| - 3 * i);
            && 4 * i + 4 <= |s|
            && var g := s[4 * i..4 * i + 4];
               if rest >= 3 then Sextets4(g) == Octets3(b[3 * i], b[3 * i + 1], b[3 * i + 2])
               else if rest == 2 then Sextets3(g) == 4 * Octets2(b[3 * i], b[3 * i + 1]) && g[3] == '='
               else Sextets2(g) == 16 * b[3 * i] as int && g[2..] == "=="
  {
    hide Sextets2, Sextets3, Sextets4, Group, Encode, Octets2, Octets3;
    if i > 0 {
      EncodesNumbers(b[3..], i - 1);
      EncodeStep(b);
      assert Encode(b)[4 * i..4 * i + 4] == Encode(b[3..])[4 * (i - 1)..4 * (i - 1) + 4];
    } else {
      FirstNumber(b);
    }
  }

  lemma FirstNumber(b: seq<byte>)
    requires b != []
    ensures |Encode(b)| >= 4
    ensures var g := Encode(b)[..4];
            if |b| >= 3 then Sextets4(g) == Octets3(b[0], b[1], b[2])
            else if |b| == 2 then Sextets3(g) == 4 * Octets2(b[0], b[1]) && g[3] == '='
            else Sextets2(g) == 16 * b[0] as int && g[2..] == "=="
  {
    hide Group, Encode, Position, Octets2, Octets3;
    FirstGroup(b);
    GroupIsNumber(b[0], if |b| >= 2 then b[1] else 0, if |b| >= 3 then b[2] else 0);
  }

  lemma FirstGroup(b: seq<byte>)
    requires b != []
    ensures |Encode(b)| >= 4
    ensures Encode(b)[..4] == (if |b| >= 3 then Group(b[0], b[1], b[2])
                               else if |b| == 2 then Group(b[0], b[1], 0)[..3] + "="
                               else Group(b[0], 0, 0)[..2] + "==")
  {
    hide Group;
  }

  // Refused texts

  lemma {:induction false} StopsAtInvalid(s: string, i: nat, k: nat, r: seq<byte>)
    requires i <= k < |s| <= EXACT && |r| == |s| * 6 / 8 && Position(s[k]) == 65
    requires forall j :: i <= j < k ==> IsSextet(s[j])
    requires |s| % 4 == 1 && |s| > 1 ==> k < |s| - 1
    ensures DecodeFrom(s, i, r) == Decoded([])
    decreases k - i
  {
    hide Position, Index, Splash, Spill, Wrap8, DecodeFrom;
    if i == k {
      InvalidHere(s, i, r);
    } else {
      var at := Index(i);
      ExactIndex(i);
      WithinArray(i, |s|, at);
      NoSplashAtZero(Position(s[i]));
      Turn(s, i, r, at);
      var spread := Spread(r, at, Splash(Position(s[i]), i));
      StopsAtInvalid(s, i + 1, k, AddAt(spread, at, Spill(Position(s[i]), i)));
    }
  }

  lemma InvalidHere(s: string, i: nat, r: seq<byte>)
    requires i < |s| && Position(s[i]) == 65
    ensures DecodeFrom(s, i, r) == Decoded([])
  {
    hide Position, Index, Splash, Spill, Wrap8;
  }

  lemma WithinArray(i: nat, n: nat, at: nat)
    requires i + 1 < n && at == (3 * i + 3) / 4 && (n % 4 == 1 ==> i + 2 < n)
    ensures at < n * 6 / 8 && (i > 0 ==> at > 0)
  {
  }

  lemma NoSplashAtZero(v: nat)
    ensures v < 64 ==> Splash(v, 0) == 0
  {
  }

  /** A text is refused as a whole for its first character that is neither a sextet
      nor padding, unless that is the lone last one behind groups of four. */
  lemma InvalidRefused(s: string, k: nat)
    requires k < |s| <= EXACT && !IsSextet(s[k]) && s[k] != '='
    requires forall j :: 0 <= j < k ==> IsSextet(s[j])
    requires |s| % 4 == 1 && |s| > 1 ==> k < |s| - 1
    ensures Decode(s) == Decoded([])
  {
    hide Position, DecodeFrom;
    SextetsAreTheAlphabet(s[k]);
    StopsAtInvalid(s, 0, k, Zeros(|s| * 6 / 8));
  }

  /** That one is never looked at: any other character in its place gives the same. */
  lemma LoneLastIgnored(s: string, s': string)
    requires |s| == |s'| <= EXACT && |s| % 4 == 1 && |s| > 1
    requires s[..|s| - 1] == s'[..|s| - 1] && forall j :: 0 <= j < |s| - 1 ==> IsSextet(s[j])
    ensures Decode(s) == Decode(s')
  {
    hide DecodeFrom, Position;
    SameUpToLast(s, s', 0, Zeros(|s| * 6 / 8));
  }

  lemma {:induction false} SameUpToLast(s: string, s': string, i: nat, r: seq<byte>)
    requires |s| == |s'| <= EXACT && |s| % 4 == 1 && i < |s| - 1 && |r| == |s| * 6 / 8
    requires s[..|s| - 1] == s'[..|s| - 1] && forall j :: 0 <= j < |s| - 1 ==> IsSextet(s[j])
    ensures DecodeFrom(s, i, r) == DecodeFrom(s', i, r)
    decreases |s| - i
  {
    hide Position, Index, Splash, Spill, Wrap8, DecodeFrom;
    assert s'[i] == s'[..|s| - 1][i] == s[..|s| - 1][i] == s[i];
    var (v, at) := (Position(s[i]), Index(i));
    ExactIndex(i);
    EndOfArray(i, |s|, at);
    NoSplashAtZero(v);
    Turn(s, i, r, at);
    Turn(s', i, r, at);
    if at < |r| {
      SameUpToLast(s, s', i + 1, AddAt(Spread(r, at, Splash(v, i)), at, Spill(v, i)));
    }
  }

  lemma EndOfArray(i: nat, n: nat, at: nat)
    requires n % 4 == 1 && i + 1 < n && at == (3 * i + 3) / 4
    ensures at < n * 6 / 8 <==> i + 2 < n
    ensures at <= n * 6 / 8 && (i > 0 ==> at > 0)
  {
  }

  // Rounding

  /** `float` keeps the nearest multiple of the spacing, the even one in a tie; the
      spacing is the least power of two that leaves 24 bits. */
  lemma FloatingIsNearest(i: nat)
    ensures var (f, s) := (Floating(i), Spacing(i));
            && f % s == 0 && 2 * (f - i) <= s && 2 * (i - f) <= s
            && (2 * (f - i) == s || 2 * (i - f) == s ==> f / s % 2 == 0)
    ensures i < EXACT * Spacing(i) && (Spacing(i) > 1 ==> 2 * i >= EXACT * Spacing(i))
  {
    hide Spacing;
    Nearest(i, Spacing(i), i / Spacing(i), i % Spacing(i));
    SpacingFits(i);
  }

  lemma Nearest(i: nat, s: nat, q: nat, r: nat)
    requires s >= 1 && i == s * q + r && r < s
    ensures var f := (if 2 * r > s || (2 * r == s && q % 2 == 1) then q + 1 else q) * s;
            && f % s == 0 && 2 * (f - i) <= s && 2 * (i - f) <= s
            && (2 * (f - i) == s || 2 * (i - f) == s ==> f / s % 2 == 0)
  {
    var m := if 2 * r > s || (2 * r == s && q % 2 == 1) then q + 1 else q;
    assert (q + 1) * s == s * q + s && q * s == s * q;
    WholeMultiple(m, s);
  }

  lemma WholeMultiple(m: int, s: int)
    requires s >= 1
    ensures m * s % s == 0 && m * s / s == m
  {
    var k := m * s / s - m;
    assert s * k == -1 * (m * s % s) by {
      assert m * s == s * (m * s / s) + m * s % s;
    }
    assert k >= 1 ==> s * k >= s;
    assert k <= -1 ==> s * k <= -s;
  }

  lemma {:induction false} SpacingFits(i: nat)
    ensures i < EXACT * Spacing(i) && (Spacing(i) > 1 ==> 2 * i >= EXACT * Spacing(i))
  {
    if i >= EXACT {
      SpacingFits(i / 2);
    }
  }
}
