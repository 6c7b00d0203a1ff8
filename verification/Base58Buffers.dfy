/** The in-place conversions behind `bs58_encode` and `bs58_decode`, on buffers
    whose size is fixed before the first digit is known. `resize` is taken to
    fill a new buffer with zeros. */
module Base58Buffers {
  import opened Words
  import opened Powers
  import opened Positional
  import opened Base58
  import opened Text

  lemma MulAddHead(ds: seq<int>, j: nat, mul: nat, carry: nat, b: int)
    requires 2 <= b && AreDigits(ds, b) && j < |ds|
    ensures ds[j] * mul + carry >= 0
    ensures var t := ds[j] * mul + carry;
            MulAdd(ds[j..], mul, carry, b) == [Rem(t, b)] + MulAdd(ds[j + 1..], mul, Quot(t, b), b)
  {
    assert ds[j..][1..] == ds[j + 1..];
  }

  /** The inner loops of both conversions: every digit of the first `size` times
      `mul` plus the carry, then the rest of the carry as new digits. */
  method Pass(buffer: array<byte>, size: nat, mul: nat, carry: nat, base: int) returns (newSize: nat)
    requires 2 <= base <= 256
    requires size <= buffer.Length && AreDigits(buffer[..size], base)
    requires |MulAdd(buffer[..size], mul, carry, base)| <= buffer.Length
    modifies buffer
    ensures newSize <= buffer.Length
    ensures buffer[..newSize] == MulAdd(old(buffer[..size]), mul, carry, base)
  {
    hide MulAdd, AreDigits, Rem, Quot;
    ghost var ds := buffer[..size];
    var c: nat := carry;
    var j := 0;
    assert buffer[..0] + MulAdd(ds[0..], mul, c, base) == MulAdd(ds, mul, c, base) by { assert ds[0..] == ds; }
    while j < size
      invariant j <= size
      invariant forall k :: j <= k < size ==> buffer[k] == ds[k]
      invariant AreDigits(ds[j..], base)
      invariant buffer[..j] + MulAdd(ds[j..], mul, c, base) == MulAdd(ds, mul, carry, base)
    {
      MulAddHead(ds, j, mul, c, base);
      TailDigits(ds, j + 1, base);
      ghost var before := buffer[..j];
      var t := buffer[j] * mul + c;
      buffer[j] := Rem(t, base) % 256;
      c := Quot(t, base);
      j := j + 1;
      assert buffer[..j] == before + [Rem(t, base)];
    }
    assert ds[j..] == [];
    MulAddEnd(mul, c, base);
    newSize := AppendCarry(buffer, size, c, base);
  }

  lemma TailDigits(ds: seq<int>, j: nat, b: int)
    requires AreDigits(ds, b) && j <= |ds|
    ensures AreDigits(ds[j..], b)
  {
  }

  lemma MulAddEnd(mul: nat, c: nat, b: int)
    requires 2 <= b
    ensures AreDigits([], b)
    ensures MulAdd([], mul, c, b) == ToDigits(c, b)
  {
  }

  lemma ToDigitsHead(c: nat, b: int)
    requires 2 <= b && c > 0
    ensures ToDigits(c, b) == [Rem(c, b)] + ToDigits(Quot(c, b), b)
  {
  }

  method AppendCarry(buffer: array<byte>, size: nat, carry: nat, base: int) returns (newSize: nat)
    requires 2 <= base <= 256
    requires size + |ToDigits(carry, base)| <= buffer.Length
    modifies buffer
    ensures newSize <= buffer.Length
    ensures buffer[..newSize] == old(buffer[..size]) + ToDigits(carry, base)
  {
    hide ToDigits, Rem, Quot;
    var c: nat := carry;
    newSize := size;
    while c > 0
      invariant size <= newSize && newSize + |ToDigits(c, base)| <= buffer.Length
      invariant buffer[..newSize] + ToDigits(c, base) == old(buffer[..size]) + ToDigits(carry, base)
    {
      ghost var before := buffer[..newSize];
      ToDigitsHead(c, base);
      buffer[newSize] := Rem(c, base) % 256;
      newSize := newSize + 1;
      assert buffer[..newSize] == before + [Rem(c, base)];
      c := Quot(c, base);
    }
    NoDigits(base);
  }

  // Encoding

  lemma NumberOfPrefix(input: seq<byte>, i: nat)
    requires i < |input|
    ensures Number(ToInts(input[..i + 1]), 256) == Number(ToInts(input[..i]), 256) * 256 + input[i]
    ensures 0 <= Number(ToInts(input[..i]), 256) < Pow(256, i)
    ensures 0 <= Number(ToInts(input[..i + 1]), 256) < Pow(256, i + 1)
  {
    assert ToInts(input[..i + 1]) == ToInts(input[..i]) + [input[i] as int];
    NumberAppend(ToInts(input[..i]), input[i], 256);
    StringNumberBound(ToInts(input[..i]), 256);
    StringNumberBound(ToInts(input[..i + 1]), 256);
  }

  lemma StringNumberBound(s: seq<int>, b: int)
    requires 2 <= b && AreDigits(s, b)
    ensures 0 <= Number(s, b) < Pow(b, |s|)
  {
    FromDigitsNonneg(Reverse(s), b);
    DigitsBelow(Reverse(s), b);
  }

  /** The digit buffer of `bs58_encode`; every pass fits its fixed size. */
  method EncodeDigits(input: seq<byte>, encoded: array<byte>) returns (digitSize: nat)
    requires encoded.Length == |input| * 138 / 100 + 1
    requires forall k :: 0 <= k < encoded.Length ==> encoded[k] == 0
    modifies encoded
    ensures digitSize <= encoded.Length && Number(ToInts(input), 256) >= 0
    ensures encoded[..digitSize] == Rep(Number(ToInts(input), 256), 58)
  {
    hide Number, Rep, MulAdd, ToInts;
    digitSize := 1;
    var i := 0;
    NothingEncoded(input[..0]);
    assert encoded[..1] == [0];
    while i < |input|
      invariant i <= |input|
      invariant digitSize <= encoded.Length && Number(ToInts(input[..i]), 256) >= 0
      invariant encoded[..digitSize] == Rep(Number(ToInts(input[..i]), 256), 58)
    {
      EncodePass(input, i);
      digitSize := Pass(encoded, digitSize, 256, input[i], 58);
      i := i + 1;
    }
    assert input[..i] == input;
  }

  lemma NothingEncoded(input: seq<byte>)
    requires input == []
    ensures Number(ToInts(input), 256) == 0 && Rep(0, 58) == [0]
  {
    assert ToInts(input) == [];
  }

  /** What one byte does to the digits, and that they still fit. */
  lemma EncodePass(input: seq<byte>, i: nat)
    requires i < |input|
    ensures Number(ToInts(input[..i]), 256) >= 0 && Number(ToInts(input[..i + 1]), 256) >= 0
    ensures MulAdd(Rep(Number(ToInts(input[..i]), 256), 58), 256, input[i], 58)
         == Rep(Number(ToInts(input[..i + 1]), 256), 58)
    ensures |Rep(Number(ToInts(input[..i + 1]), 256), 58)| <= (i + 1) * 138 / 100 + 1
  {
    hide Number, Rep, MulAdd, ToInts, Pow;
    NumberOfPrefix(input, i);
    RepStep(Number(ToInts(input[..i]), 256), 256, input[i], 58);
    DigitsFit(Number(ToInts(input[..i + 1]), 256), i + 1);
  }

  /** One '1' for each leading zero byte, the last byte excepted. */
  function OnesWritten(input: seq<byte>): nat {
    if input == [] then 0
    else if Lead(ToInts(input)) < |input| then Lead(ToInts(input)) else |input| - 1
  }

  /** The '1's written for leading zero bytes; the last byte is left to the digits. */
  method LeadingOnes(input: seq<byte>) returns (result: string)
    ensures result == ToText(Zeros(OnesWritten(input)))
  {
    result := "";
    var i := 0;
    while i < |input| - 1
      invariant 0 <= i <= |input| && (input != [] ==> i < |input|) && (input == [] ==> i == 0)
      invariant result == ToText(Zeros(i)) && ToInts(input)[..i] == Zeros(i)
    {
      if input[i] != 0 {
        break;
      }
      result := result + [DigitChar(0)];
      i := i + 1;
    }
    if input != [] {
      var tail := ToInts(input)[i..];
      assert ToInts(input) == Zeros(i) + tail;
      if tail[0] != 0 {
        LeadOf(i, tail);
      } else {
        assert Zeros(i) + tail == Zeros(i + 1) + [];
        LeadOf(i + 1, []);
      }
    }
  }

  /** The digits, most significant first. */
  method WriteDigits(encoded: array<byte>, digitSize: nat) returns (result: string)
    requires digitSize <= encoded.Length && AreDigits(encoded[..digitSize], 58)
    ensures result == ToText(Reverse(encoded[..digitSize]))
  {
    result := "";
    var i := 0;
    while i < digitSize
      invariant i <= digitSize && |result| == i
      invariant forall k :: 0 <= k < i ==> result[k] == DigitChar(Reverse(encoded[..digitSize])[k])
    {
      assert encoded[digitSize - 1 - i] == encoded[..digitSize][digitSize - 1 - i];
      result := result + [DigitChar(encoded[digitSize - 1 - i])];
      i := i + 1;
    }
  }

  lemma TextConcat(a: seq<int>, b: seq<int>)
    requires AreDigits(a, 58) && AreDigits(b, 58)
    ensures AreDigits(a + b, 58) && ToText(a + b) == ToText(a) + ToText(b)
  {
  }

  /** What the '1's and the digits put together are. */
  lemma EncodeFromParts(b: seq<byte>, ones: nat)
    requires ones == OnesWritten(b)
    ensures Number(ToInts(b), 256) >= 0
    ensures Encode(b) == ToText(Zeros(ones)) + ToText(Reverse(Rep(Number(ToInts(b), 256), 58)))
  {
    var s := ToInts(b);
    var n := Number(s, 256);
    StringNumberBound(s, 256);
    var digits := Reverse(Rep(n, 58));
    assert b != [] ==> Convert(s, 256, 58) == Zeros(ones) + digits by {
      if b != [] {
        ConvertFromParts(s, ones);
      }
    }
    assert b == [] ==> digits == [0] && Zeros(ones) == [] by {
      assert Reverse([]) == [];
    }
    hide Convert, Reverse, Rep, Number, Lead;
    TextConcat(Zeros(ones), digits);
  }

  lemma ConvertFromParts(s: seq<int>, ones: nat)
    requires s != [] && AreDigits(s, 256)
    requires ones == if Lead(s) < |s| then Lead(s) else |s| - 1
    ensures Number(s, 256) >= 0
    ensures Convert(s, 256, 58) == Zeros(ones) + Reverse(Rep(Number(s, 256), 58))
  {
    hide Number, Lead, Reverse, Zeros, ToDigits, Convert, Rep, AreDigits;
    var n := Number(s, 256);
    NumberOfZeros(s, 256);
    EncodedIs(s, Lead(s), n);
    if Lead(s) == |s| {
      NoDigits(58);
      OneZeroLess(|s|);
    }
  }

  lemma EncodedIs(s: seq<int>, z: nat, n: nat)
    requires AreDigits(s, 256) && z == Lead(s) && n == Number(s, 256)
    ensures Convert(s, 256, 58) == Zeros(z) + Reverse(ToDigits(n, 58))
    ensures Rep(n, 58) == if n == 0 then [0] else ToDigits(n, 58)
  {
  }

  lemma OneZeroLess(k: nat)
    requires k > 0
    ensures Zeros(k) + Reverse([]) == Zeros(k - 1) + Reverse([0])
  {
  }

  /** How many digits of the buffer the conversion fills. */
  function DigitsNeeded(b: seq<byte>): nat {
    StringNumberBound(ToInts(b), 256);
    |Rep(Number(ToInts(b), 256), 58)|
  }

  /** The buffer, whose size is computed in 32 bits, has room for every input of a
      length exactly when that size does not wrap. */
  lemma BufferFitsIff(n: nat)
    ensures (forall b: seq<byte> :: |b| == n ==> DigitsNeeded(b) <= Wrap32(n * 138 / 100 + 1))
            <==> n * 138 / 100 + 1 < 0x1_0000_0000
  {
    hide DigitsNeeded, Wrap32;
    WrappedSize(n);
    if n * 138 / 100 + 1 < 0x1_0000_0000 {
      forall b: seq<byte> | |b| == n ensures DigitsNeeded(b) <= Wrap32(n * 138 / 100 + 1) {
        EnoughRoom(b);
      }
    } else {
      ManyDigits(n);
    }
  }

  lemma WrappedSize(n: nat)
    ensures n * 138 / 100 + 1 < 0x1_0000_0000 ==> Wrap32(n * 138 / 100 + 1) == n * 138 / 100 + 1
    ensures n * 138 / 100 + 1 >= 0x1_0000_0000 ==> Wrap32(n * 138 / 100 + 1) < n
  {
    if n < 0x1_0000_0000 <= n * 138 / 100 + 1 {
      assert Wrap32(n * 138 / 100 + 1) == n * 138 / 100 + 1 - 0x1_0000_0000;
    }
  }

  lemma EnoughRoom(b: seq<byte>)
    ensures DigitsNeeded(b) <= |b| * 138 / 100 + 1
  {
    hide Number, Rep, Pow;
    StringNumberBound(ToInts(b), 256);
    DigitsFit(Number(ToInts(b), 256), |b|);
  }

  /** n bytes of value one need at least n digits. */
  lemma ManyDigits(n: nat)
    requires n > 0
    ensures exists b: seq<byte> :: |b| == n && DigitsNeeded(b) >= n
  {
    hide Number, Rep, Pow, ToDigits;
    var b: seq<byte> := seq(n, _ => 1);
    var s := ToInts(b);
    assert s[0] == 1;
    NumberBounds(s, 256);
    PowPositive(256, n - 1);
    EnoughDigits(Number(s, 256), n);
    RepOfNonzero(Number(s, 256));
    assert DigitsNeeded(b) >= n;
  }

  lemma RepOfNonzero(n: nat)
    requires n > 0
    ensures Rep(n, 58) == ToDigits(n, 58)
  {
  }

  /** `bs58_encode`, for inputs whose buffer size fits its 32-bit variable. */
  method Bs58Encode(input: seq<byte>) returns (result: string)
    requires |input| * 138 / 100 + 1 < 0x1_0000_0000
    ensures result == Encode(input)
  {
    hide ToText, Zeros, Encode, Number, ToInts, Rep;
    var encodedSize := Wrap32(|input| * 138 / 100 + 1);
    var encoded := new byte[encodedSize](_ => 0);
    var digitSize := EncodeDigits(input, encoded);
    var ones := LeadingOnes(input);
    var digits := WriteDigits(encoded, digitSize);
    result := ones + digits;
    NoOnes();
    EncodeFromParts(input, OnesWritten(input));
  }

  lemma NoOnes()
    ensures ToText(Zeros(0)) == ""
  {
  }

  // Decoding

  lemma NumberOfTextPrefix(ds: seq<int>, i: nat)
    requires i < |ds| && AreDigits(ds, 58)
    ensures Number(ds[..i + 1], 58) == Number(ds[..i], 58) * 58 + ds[i]
    ensures 0 <= Number(ds[..i], 58) < Pow(58, i)
    ensures 0 <= Number(ds[..i + 1], 58) < Pow(58, i + 1)
  {
    assert ds[..i + 1] == ds[..i] + [ds[i]];
    NumberAppend(ds[..i], ds[i], 58);
    StringNumberBound(ds[..i], 58);
    StringNumberBound(ds[..i + 1], 58);
  }

  lemma PrefixDigits(str: string, i: nat)
    requires i < |str| && IsBase58(str[..i]) && IsDigitChar(str[i])
    ensures IsBase58(str[..i + 1])
    ensures FromText(str[..i + 1])[..i] == FromText(str[..i])
    ensures FromText(str[..i + 1])[i] == AlphabetMap(str[i] as int)
    ensures FromText(str[..i + 1])[..i + 1] == FromText(str[..i + 1])
  {
  }

  /** The byte buffer of `bs58_decode`, stopping at the first byte that is no digit. */
  method DecodeDigits(str: string, result: array<byte>) returns (resultLen: nat, valid: bool)
    requires str != "" && result.Length == |Utf8(str)| * 2
    requires result[0] == 0
    modifies result
    ensures valid <==> IsBase58(str)
    ensures valid ==> resultLen <= result.Length && Number(FromText(str), 58) >= 0
    ensures valid ==> result[..resultLen] == Rep(Number(FromText(str), 58), 256)
  {
    hide Number, Rep, Utf8, AlphabetMap;
    var bytes := Utf8(str);
    resultLen := 1;
    var i := 0;
    NothingRead(str[..0]);
    assert result[..1] == [0];
    while i < |str|
      invariant i <= |str| && IsBase58(str[..i])
      invariant resultLen <= result.Length && Number(FromText(str[..i]), 58) >= 0
      invariant result[..resultLen] == Rep(Number(FromText(str[..i]), 58), 256)
    {
      forall j | 0 <= j < i ensures IsDigitChar(str[j]) {
        assert IsDigitChar(str[..i][j]);
      }
      Utf8Prefix(str, i);
      var carry := AlphabetMap(bytes[i]);
      if carry == 255 {
        return resultLen, false;
      }
      DecodePass(str, i, carry);
      resultLen := Pass(result, resultLen, 58, carry, 256);
      i := i + 1;
    }
    assert str[..i] == str;
    valid := true;
  }

  lemma NothingRead(str: string)
    requires str == ""
    ensures IsBase58(str) && Number(FromText(str), 58) == 0 && Rep(0, 256) == [0]
  {
  }

  lemma DecodePass(str: string, i: nat, d: int)
    requires i < |str| && IsBase58(str[..i]) && IsDigitChar(str[i])
    requires d == AlphabetMap(str[i] as int)
    ensures IsBase58(str[..i + 1])
    ensures Number(FromText(str[..i]), 58) >= 0 && Number(FromText(str[..i + 1]), 58) >= 0
    ensures MulAdd(Rep(Number(FromText(str[..i]), 58), 256), 58, d, 256) == Rep(Number(FromText(str[..i + 1]), 58), 256)
    ensures |Rep(Number(FromText(str[..i + 1]), 58), 256)| <= i + 1
  {
    hide Number, Rep, MulAdd, FromText;
    PrefixDigits(str, i);
    var ds := FromText(str[..i + 1]);
    NumberOfTextPrefix(ds, i);
    RepStep(Number(ds[..i], 58), 58, d, 256);
    BytesFit(Number(ds, 58), i + 1);
  }

  /** The little-endian bytes once the zeros are appended. */
  function Assembled(buffer: seq<int>, zeros: nat, textLength: nat): seq<int> {
    if zeros == textLength then Zeros(zeros) else buffer + Zeros(zeros)
  }

  /** A zero byte for every leading '1', written above the digits; a text of ones
      only has one zero too many then. */
  method AppendZeros(str: string, result: array<byte>, size: nat) returns (resultLen: nat)
    requires IsBase58(str) && str != ""
    requires 1 <= size && size + |str| <= result.Length
    requires Lead(FromText(str)) == |str| ==> result[..size] == [0]
    modifies result
    ensures resultLen <= result.Length
    ensures result[..resultLen] == Assembled(old(result[..size]), Lead(FromText(str)), |str|)
  {
    hide FromText, Lead, Zeros;
    var i := 0;
    resultLen := size;
    ghost var buffer := result[..size];
    NoZeros(buffer, FromText(str));
    while i < |str| && str[i] == '1'
      invariant i <= |str| && resultLen == size + i
      invariant FromText(str)[..i] == Zeros(i)
      invariant result[..resultLen] == buffer + Zeros(i)
    {
      ghost var before := result[..resultLen];
      OneMoreZero(str, buffer, i);
      result[resultLen] := 0;
      resultLen := resultLen + 1;
      i := i + 1;
      assert result[..resultLen] == before + [0];
    }
    LeadingOnesCounted(str, i);
    if i == |str| {
      TrimZero(i);
      ghost var whole := result[..resultLen];
      resultLen := resultLen - 1;
      assert result[..resultLen] == whole[..i];
    }
  }

  lemma NoZeros(buffer: seq<byte>, ds: seq<int>)
    ensures buffer + Zeros(0) == buffer && ds[..0] == Zeros(0)
  {
  }

  lemma OneMoreZero(str: string, buffer: seq<byte>, i: nat)
    requires IsBase58(str) && i < |str| && str[i] == '1' && FromText(str)[..i] == Zeros(i)
    ensures FromText(str)[..i + 1] == Zeros(i + 1)
    ensures buffer + Zeros(i) + [0] == buffer + Zeros(i + 1)
  {
    DigitOfChar(0);
  }

  lemma TrimZero(n: nat)
    ensures |[0] + Zeros(n)| == n + 1 && ([0] + Zeros(n))[..n] == Zeros(n)
  {
  }

  lemma LeadingOnesCounted(str: string, i: nat)
    requires IsBase58(str) && i <= |str|
    requires FromText(str)[..i] == Zeros(i)
    requires i < |str| ==> str[i] != '1'
    ensures Lead(FromText(str)) == i
  {
    var ds := FromText(str);
    if i < |str| {
      CharOfDigit(str[i] as int);
    }
    assert ds == Zeros(i) + ds[i..];
    LeadOf(i, ds[i..]);
  }

  /** Swapping from the upper half reverses the first `size` bytes in place. */
  method ReverseInPlace(a: array<byte>, size: nat)
    requires size <= a.Length
    modifies a
    ensures a[..size] == Reverse(old(a[..size]))
  {
    var i := size - 1;
    var z := size / 2 + size % 2;
    while i >= z
      invariant z - 1 <= i <= size - 1
      invariant forall k :: 0 <= k < size && (k > i || k < size - 1 - i) ==> a[k] == old(a[size - 1 - k])
      invariant forall k :: size - 1 - i <= k <= i ==> a[k] == old(a[k])
    {
      var k := a[i];
      a[i] := a[size - i - 1];
      a[size - i - 1] := k;
      i := i - 1;
    }
    forall k | 0 <= k < size ensures a[k] == old(a[size - 1 - k]) {
    }
    assert forall k :: 0 <= k < size ==> old(a[..size])[k] == old(a[k]);
  }

  /** The little-endian buffer, reversed, is the decoded byte string. */
  lemma DecodeFromParts(ds: seq<int>)
    requires ds != [] && AreDigits(ds, 58)
    ensures Number(ds, 58) >= 0
    ensures Lead(ds) == |ds| ==> Rep(Number(ds, 58), 256) == [0]
    ensures Convert(ds, 58, 256) == Reverse(Assembled(Rep(Number(ds, 58), 256), Lead(ds), |ds|))
  {
    hide Number, Lead, Reverse, Zeros, ToDigits, Pow, Convert, Rep, AreDigits;
    var (z, n) := (Lead(ds), Number(ds, 58));
    NumberOfZeros(ds, 58);
    ConvertIs(ds, z, n);
    ZerosReversed(ToDigits(n, 256), z);
    NoDigits(256);
  }

  /** A digit string stands for zero exactly when it is all zeros. */
  lemma NumberOfZeros(s: seq<int>, b: int)
    requires 2 <= b && AreDigits(s, b)
    ensures Number(s, b) >= 0 && (Number(s, b) == 0 <==> Lead(s) == |s|)
  {
    hide Number, Lead, Pow, AreDigits;
    NumberBounds(s, b);
    var m := |s| - Lead(s);
    if m == 0 {
      PowZero(b);
    } else {
      PowPositive(b, m - 1);
    }
  }

  lemma ConvertIs(ds: seq<int>, z: nat, n: nat)
    requires AreDigits(ds, 58) && z == Lead(ds) && n == Number(ds, 58)
    ensures Convert(ds, 58, 256) == Zeros(z) + Reverse(ToDigits(n, 256))
    ensures n == 0 ==> Rep(n, 256) == [0]
    ensures n > 0 ==> Rep(n, 256) == ToDigits(n, 256)
  {
  }

  lemma PowZero(b: int)
    ensures Pow(b, 0) == 1
  {
  }

  lemma ZerosReversed(buffer: seq<int>, z: nat)
    ensures Reverse(Zeros(z)) == Zeros(z) + Reverse([])
    ensures Reverse(buffer + Zeros(z)) == Zeros(z) + Reverse(buffer)
  {
  }

  /** After the digits there is room for every leading one. */
  lemma DecodeFits(str: string)
    requires IsBase58(str) && str != ""
    ensures Number(FromText(str), 58) >= 0
    ensures |Rep(Number(FromText(str), 58), 256)| <= |str| <= |Utf8(str)|
  {
    StringNumberBound(FromText(str), 58);
    BytesFit(Number(FromText(str), 58), |str|);
  }

  /** The end of `bs58_decode`: zeros for the leading ones, then the reversal. */
  method FinishDecode(str: string, result: array<byte>, size: nat) returns (bytes: seq<byte>)
    requires str != "" && IsBase58(str) && result.Length == |Utf8(str)| * 2
    requires size <= result.Length && Number(FromText(str), 58) >= 0
    requires result[..size] == Rep(Number(FromText(str), 58), 256)
    modifies result
    ensures bytes == Decode(str)
  {
    hide Number, Rep, Convert, Lead, FromText, Reverse, Zeros, Utf8, IsBase58, Base58.Decode;
    DecodeFits(str);
    DecodeFromParts(FromText(str));
    DecodeCases(str);
    var resultLen := AppendZeros(str, result, size);
    ReverseInPlace(result, resultLen);
    bytes := result[..resultLen];
  }

  lemma DecodeCases(str: string)
    ensures !IsBase58(str) ==> Decode(str) == []
    ensures IsBase58(str) ==> Decode(str) == Convert(FromText(str), 58, 256)
  {
  }

  /** `bs58_decode`, on any string; no write leaves the buffer of twice its length. */
  method Bs58Decode(str: string) returns (bytes: seq<byte>)
    ensures bytes == Decode(str)
  {
    hide Number, Rep, FromText, Utf8, IsBase58, Base58.Decode;
    EmptyText();
    DecodeCases(str);
    if |str| == 0 {
      return [];
    }
    var result := new byte[|Utf8(str)| * 2](_ => 0);
    var resultLen, valid := DecodeDigits(str, result);
    if !valid {
      return [];
    }
    bytes := FinishDecode(str, result, resultLen);
  }

  lemma EmptyText()
    ensures Decode("") == []
  {
    assert FromText("") == [];
    ConvertLength([], 58, 256);
  }
}
