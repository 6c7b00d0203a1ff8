/** Strings as bytes, and slices of byte arrays. */
module Text {
  import opened Words

  /** The UTF-8 encoding of one character, section 3 of RFC 3629. */
  function Utf8Char(c: char): (b: seq<byte>)
    ensures 1 <= |b| <= 4
    ensures if c as int < 128 then b == [c as int] else b[0] >= 192
  {
    var n := c as int;
    if n < 0x80 then [n]
    else if n < 0x800 then [0xC0 + n / 0x40, 0x80 + n % 0x40]
    else if n < 0x1_0000 then [0xE0 + n / 0x1000, 0x80 + n / 0x40 % 0x40, 0x80 + n % 0x40]
    else [0xF0 + n / 0x4_0000, 0x80 + n / 0x1000 % 0x40, 0x80 + n / 0x40 % 0x40, 0x80 + n % 0x40]
  }

  /** The code so far, and six more bits from a byte behind the lead byte. */
  function Trail(code: int, b: int): int {
    code * 64 + (b - 0x80)
  }

  /** The code that one to four bytes stand for. */
  function CodePoint(b: seq<byte>): int
    requires 1 <= |b| <= 4
  {
    if |b| == 1 then b[0]
    else if |b| == 2 then Trail(b[0] as int - 0xC0, b[1])
    else if |b| == 3 then Trail(Trail(b[0] as int - 0xE0, b[1]), b[2])
    else Trail(Trail(Trail(b[0] as int - 0xF0, b[1]), b[2]), b[3])
  }

  /** The bytes stand for the character, with no more of them than its code needs. */
  lemma Utf8Code(c: char)
    ensures CodePoint(Utf8Char(c)) == c as int
    ensures var (b, n) := (Utf8Char(c), c as int);
            |b| == if n < 0x80 then 1 else if n < 0x800 then 2 else if n < 0x1_0000 then 3 else 4
  {
    SixBits(c as int);
  }

  lemma SixBits(n: nat)
    ensures n / 0x40 * 64 + n % 0x40 == n
    ensures n / 0x1000 * 64 + n / 0x40 % 0x40 == n / 0x40
    ensures n / 0x4_0000 * 64 + n / 0x1000 % 0x40 == n / 0x1000
  {
    assert n / 0x1000 == n / 0x40 / 0x40 && n / 0x4_0000 == n / 0x1000 / 0x40;
  }

  /** `to_utf8_buffer`. */
  function Utf8(s: string): (b: seq<byte>)
    ensures |b| >= |s|
  {
    if s == "" then [] else Utf8Char(s[0]) + Utf8(s[1..])
  }

  lemma {:induction false} AsciiLength(s: string)
    requires forall i :: 0 <= i < |s| ==> s[i] as int < 128
    ensures |Utf8(s)| == |s|
  {
    if s != "" {
      AsciiLength(s[1..]);
    }
  }

  // ASCII

  type AsciiChar = c: char | c as int < 128 witness 'a'
  type AsciiString = seq<AsciiChar>

  /** `to_ascii_buffer`. */
  function AsciiBytes(s: AsciiString): (b: seq<byte>)
    ensures |b| == |s| && forall i :: 0 <= i < |s| ==> b[i] == s[i] as int
  {
    seq(|s|, i requires 0 <= i < |s| => s[i] as int)
  }

  /** `get_string_from_ascii`: up to the first zero byte. Only codes below 128 are modelled. */
  function AsciiText(b: seq<byte>): AsciiString {
    if b == [] || b[0] == 0 then [] else [(b[0] % 128) as char] + AsciiText(b[1..])
  }

  predicate NulFree(s: AsciiString) {
    forall i :: 0 <= i < |s| ==> s[i] as int != 0
  }

  /** ASCII text is read back exactly when it holds no zero. */
  lemma {:induction false} TextReadsBack(s: AsciiString)
    ensures AsciiText(AsciiBytes(s)) == s <==> NulFree(s)
  {
    if s != [] {
      var b := AsciiBytes(s);
      assert b[1..] == AsciiBytes(s[1..]);
      TextReadsBack(s[1..]);
      if s[0] as int != 0 {
        assert AsciiText(b) == [s[0]] + AsciiText(b[1..]);
        assert NulFree(s) <==> NulFree(s[1..]) by {
          assert forall i :: 0 <= i < |s[1..]| ==> s[1..][i] == s[i + 1];
          assert forall i :: 1 <= i < |s| ==> s[i] == s[1..][i - 1];
        }
        assert s == [s[0]] + s[1..];
      }
    }
  }

  // Slices

  /** `slice`, whose bounds are cut to the array. */
  function SliceFrom(b: seq<byte>, from: nat): seq<byte> {
    if from <= |b| then b[from..] else []
  }

  function Slice(b: seq<byte>, from: nat, end: nat): seq<byte>
    requires from <= end
  {
    if end <= |b| then b[from..end] else SliceFrom(b, from)
  }
}
