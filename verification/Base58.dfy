/** Base58 text for byte strings: `bs58_encode` and `bs58_decode`. */
module Base58 {
  import opened Words
  import opened Powers
  import opened Positional
  import opened Text

  // The alphabet

  /** The table `BASE_58_MAP`, by its runs of consecutive characters. */
  function DigitChar(d: int): (c: char)
    requires 0 <= d < 58
    ensures c as int < 128
  {
    if d < 9 then (d + '1' as int) as char
    else if d < 17 then (d - 9 + 'A' as int) as char
    else if d < 22 then (d - 17 + 'J' as int) as char
    else if d < 33 then (d - 22 + 'P' as int) as char
    else if d < 44 then (d - 33 + 'a' as int) as char
    else (d - 44 + 'm' as int) as char
  }

  /** The 256-entry table `ALPHABET_MAP`, by the same runs: 255 marks a byte that is no digit. */
  function AlphabetMap(c: byte): (d: byte)
    ensures d < 58 || d == 255
  {
    if '1' as int <= c <= '9' as int then c - '1' as int
    else if 'A' as int <= c <= 'H' as int then c - 'A' as int + 9
    else if 'J' as int <= c <= 'N' as int then c - 'J' as int + 17
    else if 'P' as int <= c <= 'Z' as int then c - 'P' as int + 22
    else if 'a' as int <= c <= 'k' as int then c - 'a' as int + 33
    else if 'm' as int <= c <= 'z' as int then c - 'm' as int + 44
    else 255
  }

  lemma DigitOfChar(d: int)
    requires 0 <= d < 58
    ensures AlphabetMap(DigitChar(d) as int) == d
  {
  }

  lemma CharOfDigit(c: byte)
    requires AlphabetMap(c) != 255
    ensures DigitChar(AlphabetMap(c)) as int == c
  {
  }

  predicate IsDigitChar(c: char) {
    c as int < 128 && AlphabetMap(c as int) != 255
  }

  /** Up to the first character outside the alphabet, bytes and characters agree. */
  lemma {:induction false} Utf8Prefix(s: string, i: nat)
    requires i < |s|
    requires forall j :: 0 <= j < i ==> IsDigitChar(s[j])
    ensures AlphabetMap(Utf8(s)[i]) != 255 <==> IsDigitChar(s[i])
    ensures IsDigitChar(s[i]) ==> Utf8(s)[i] == s[i] as int
  {
    if i > 0 {
      assert IsDigitChar(s[0]);
      Utf8Prefix(s[1..], i - 1);
    }
  }

  // What the two functions compute

  function ToText(ds: seq<int>): (s: string)
    requires AreDigits(ds, 58)
    ensures |s| == |ds|
    ensures forall i :: 0 <= i < |s| ==> s[i] == DigitChar(ds[i])
  {
    seq(|ds|, i requires 0 <= i < |ds| => DigitChar(ds[i]))
  }

  predicate IsBase58(s: string) {
    forall i :: 0 <= i < |s| ==> IsDigitChar(s[i])
  }

  function FromText(s: string): (ds: seq<int>)
    requires IsBase58(s)
    ensures |ds| == |s| && AreDigits(ds, 58)
    ensures forall i :: 0 <= i < |s| ==> ds[i] == AlphabetMap(s[i] as int)
  {
    seq(|s|, i requires 0 <= i < |s| => AlphabetMap(s[i] as int) as int)
  }

  function ToInts(b: seq<byte>): (r: seq<int>)
    ensures |r| == |b| && AreDigits(r, 256)
    ensures forall i :: 0 <= i < |b| ==> r[i] == b[i]
  {
    seq(|b|, i requires 0 <= i < |b| => b[i] as int)
  }

  function ToBytes(r: seq<int>): (b: seq<byte>)
    requires AreDigits(r, 256)
    ensures |b| == |r|
    ensures forall i :: 0 <= i < |b| ==> b[i] == r[i]
  {
    seq(|r|, i requires 0 <= i < |r| => r[i])
  }

  /** The text of a byte string; an empty one is written as a single zero digit. */
  function Encode(b: seq<byte>): string {
    if b == [] then [DigitChar(0)] else ToText(Convert(ToInts(b), 256, 58))
  }

  /** The bytes of a text, empty when a character is outside the alphabet. */
  function Decode(s: string): seq<byte> {
    if IsBase58(s) then ToBytes(Convert(FromText(s), 58, 256)) else []
  }

  // The codec is a bijection

  lemma TextInverse(ds: seq<int>)
    requires AreDigits(ds, 58)
    ensures IsBase58(ToText(ds)) && FromText(ToText(ds)) == ds
  {
    forall i | 0 <= i < |ds| ensures AlphabetMap(ToText(ds)[i] as int) == ds[i] {
      DigitOfChar(ds[i]);
    }
  }

  lemma TextInverse'(s: string)
    requires IsBase58(s)
    ensures ToText(FromText(s)) == s
  {
    forall i | 0 <= i < |s| ensures ToText(FromText(s))[i] == s[i] {
      CharOfDigit(s[i] as int);
    }
  }

  lemma {:induction false} ConvertLength(s: seq<int>, from: int, to: int)
    requires 2 <= from && 2 <= to && AreDigits(s, from)
    ensures Convert(s, from, to) == [] <==> s == []
  {
    ConvertRoundTrip(s, from, to);
    assert Reverse([]) == [] && Zeros(0) == [];
    assert Convert([], from, to) == [] && Convert([], to, from) == [];
  }

  /** Decoding undoes encoding on every nonempty byte string, and only on those. */
  lemma DecodeEncode(b: seq<byte>)
    ensures Decode(Encode(b)) == b <==> b != []
  {
    if b == [] {
      DigitOfChar(0);
      var s := Encode(b);
      assert FromText(s) == [0];
      ConvertLength(FromText(s), 58, 256);
    } else {
      var ds := Convert(ToInts(b), 256, 58);
      TextInverse(ds);
      ConvertRoundTrip(ToInts(b), 256, 58);
      assert ToBytes(ToInts(b)) == b;
    }
  }

  /** Encoding undoes decoding on exactly the nonempty texts over the alphabet. */
  lemma EncodeDecode(s: string)
    ensures Encode(Decode(s)) == s <==> s != "" && IsBase58(s)
  {
    DigitOfChar(0);
    if IsBase58(s) {
      var ds := FromText(s);
      var b := Convert(ds, 58, 256);
      ConvertLength(ds, 58, 256);
      ConvertRoundTrip(ds, 58, 256);
      assert ToInts(ToBytes(b)) == b;
      TextInverse'(s);
    } else {
      assert Encode([]) == [DigitChar(0)];
      assert IsBase58([DigitChar(0)]);
    }
  }

  // Lengths

  lemma PowerRatio()
    ensures Pow(256, 8) <= Pow(58, 11)
  {
    hide Pow;
    BasePowers();
    PowAdd(256, 2, 2);
    PowAdd(256, 4, 4);
    PowAdd(58, 2, 2);
    PowAdd(58, 4, 4);
    PowAdd(58, 8, 2);
    PowAdd(58, 10, 1);
  }

  lemma BasePowers()
    ensures Pow(256, 2) == 65536 && Pow(58, 2) == 3364 && Pow(58, 1) == 58
  {
    assert Pow(58, 1) == 58 * Pow(58, 0) && Pow(256, 1) == 256 * Pow(256, 0);
  }

  /** The number of m bytes takes k base-58 digits with 8 (k - 1) < 11 m. */
  lemma DigitRatio(n: nat, m: nat, k: nat)
    requires k >= 1 && Pow(58, k - 1) <= n < Pow(256, m)
    ensures 8 * (k - 1) < 11 * m
  {
    hide Pow;
    PowPositive(58, k - 1);
    PowStrictBase(Pow(58, k - 1), Pow(256, m), 8);
    PowPow(58, k - 1, 8);
    PowPow(256, m, 8);
    PowPow(256, 8, m);
    PowerRatio();
    PowPositive(256, 8);
    PowMonoBase(Pow(256, 8), Pow(58, 11), m);
    PowPow(58, 11, m);
    assert Pow(58, 8 * (k - 1)) < Pow(58, 11 * m) by {
      assert (k - 1) * 8 == 8 * (k - 1) && m * 8 == 8 * m;
    }
    if 11 * m <= 8 * (k - 1) {
      PowMonoExp(58, 11 * m, 8 * (k - 1));
    }
  }

  /** m bytes never need more than 138 m / 100 + 1 base-58 digits, for every m. */
  lemma DigitsFit(n: nat, m: nat)
    requires n < Pow(256, m)
    ensures |Rep(n, 58)| <= m * 138 / 100 + 1
    ensures |ToDigits(n, 58)| <= m * 138 / 100 + 1
    ensures n > 0 ==> 8 * (|ToDigits(n, 58)| - 1) < 11 * m
  {
    if n > 0 {
      ToDigitsTop(n, 58);
      var ds := ToDigits(n, 58);
      DigitsAbove(ds, 58);
      FromToDigits(n, 58);
      DigitRatio(n, m, |ds|);
    }
  }

  /** k base-58 digits never need more than k bytes. */
  lemma BytesFit(n: nat, k: nat)
    requires n < Pow(58, k)
    ensures |ToDigits(n, 256)| <= k
    ensures k >= 1 ==> |Rep(n, 256)| <= k
  {
    PowMonoBase(58, 256, k);
    DigitCount(n, 256, k);
  }

  /** The text of a nonempty byte string is at least as long as it, and at most
      138/100 as long, plus one. */
  lemma EncodeLength(b: seq<byte>)
    requires b != []
    ensures |b| <= |Encode(b)| <= |b| * 138 / 100 + 1
    ensures 8 * |Encode(b)| <= 11 * |b| + 7
  {
    hide Number, Lead, Pow, ToDigits, Encode;
    var s := ToInts(b);
    var (z, n) := (Lead(s), Number(s, 256));
    var m := |s| - z;
    NumberBounds(s, 256);
    EncodedLength(b, z, n);
    DigitsFit(n, m);
    if m >= 1 {
      PowPositive(256, m - 1);
      EnoughDigits(n, m);
    } else {
      ZeroPower(n);
    }
  }

  lemma EncodedLength(b: seq<byte>, z: nat, n: nat)
    requires b != [] && z == Lead(ToInts(b)) && n == Number(ToInts(b), 256)
    ensures |Encode(b)| == z + |ToDigits(n, 58)|
  {
    hide Number, Lead, ToDigits;
  }

  lemma EnoughDigits(n: nat, m: nat)
    requires m >= 1 && Pow(256, m - 1) <= n < Pow(256, m)
    ensures |ToDigits(n, 58)| >= m
  {
    hide Pow, ToDigits;
    PowMonoBase(58, 256, m - 1);
    DigitCount(n, 58, m);
  }

  lemma ZeroPower(n: nat)
    requires n < Pow(256, 0)
    ensures ToDigits(n, 58) == []
  {
  }

  /** A 32-byte key is written in 32 to 44 characters. */
  lemma KeyLength(b: seq<byte>)
    requires |b| == 32
    ensures 32 <= |Encode(b)| <= 44
  {
    EncodeLength(b);
  }
}
