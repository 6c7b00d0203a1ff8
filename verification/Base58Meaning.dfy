/** What base58 text means: its alphabet, the number it is, and its leading ones. */
module Base58Meaning {
  import opened Words
  import opened Positional
  import opened Base58

  // The alphabet

  /** Digits, then the letters without the ones that look like others. */
  const ALPHABET := "123456789" + "ABCDEFGH" + "JKLMN" + "PQRSTUVWXYZ" + "abcdefghijk" + "mnopqrstuvwxyz"

  /** The character of a digit is the one at its place in the alphabet. */
  lemma DigitsInOrder(d: int)
    requires 0 <= d < 58
    ensures |ALPHABET| == 58 && DigitChar(d) == ALPHABET[d]
  {
    Runs(d);
    Rows("123456789", "ABCDEFGH", "JKLMN", "PQRSTUVWXYZ", "abcdefghijk", "mnopqrstuvwxyz", d);
  }

  /** A byte is a digit exactly when it is a character of the alphabet. */
  lemma DigitsAreTheAlphabet(c: byte)
    ensures AlphabetMap(c) != 255 <==> exists d :: 0 <= d < 58 && |ALPHABET| == 58 && ALPHABET[d] as int == c
    ensures AlphabetMap(c) != 255 ==> |ALPHABET| == 58 && ALPHABET[AlphabetMap(c)] as int == c
  {
    hide DigitChar, AlphabetMap, ALPHABET;
    if AlphabetMap(c) != 255 {
      CharOfDigit(c);
      DigitsInOrder(AlphabetMap(c));
    }
    forall d | 0 <= d < 58 && |ALPHABET| == 58 && ALPHABET[d] as int == c ensures AlphabetMap(c) != 255 {
      DigitsInOrder(d);
      DigitOfChar(d);
    }
  }

  function Run(d: int): string
    requires 0 <= d < 58
  {
    if d < 9 then "123456789" else if d < 17 then "ABCDEFGH" else if d < 22 then "JKLMN"
    else if d < 33 then "PQRSTUVWXYZ" else if d < 44 then "abcdefghijk" else "mnopqrstuvwxyz"
  }

  function RunStart(d: int): (n: int)
    requires 0 <= d < 58
    ensures 0 <= n <= d
  {
    if d < 9 then 0 else if d < 17 then 9 else if d < 22 then 17 else if d < 33 then 22 else if d < 44 then 33 else 44
  }

  lemma Runs(d: int)
    requires 0 <= d < 58
    ensures d - RunStart(d) < |Run(d)| && DigitChar(d) == Run(d)[d - RunStart(d)]
  {
  }

  lemma Rows(r0: string, r1: string, r2: string, r3: string, r4: string, r5: string, d: int)
    requires 0 <= d < 58 && |r0| == 9 && |r1| == 8 && |r2| == 5 && |r3| == 11 && |r4| == 11 && |r5| == 14
    ensures var all := r0 + r1 + r2 + r3 + r4 + r5;
            && |all| == 58
            && all[d] == if d < 9 then r0[d] else if d < 17 then r1[d - 9] else if d < 22 then r2[d - 17]
                         else if d < 33 then r3[d - 22] else if d < 44 then r4[d - 33] else r5[d - 44]
  {
  }

  // The number

  /** The text of a nonempty byte string is the same number in base 58, behind as
      many ones as there are leading zero bytes; these two make the text unique. */
  lemma EncodesNumber(b: seq<byte>)
    requires b != []
    ensures var s := Encode(b);
            && IsBase58(s) && Number(FromText(s), 58) == Number(ToInts(b), 256)
            && Lead(FromText(s)) == Lead(ToInts(b))
  {
    hide Number, Lead, ToDigits, ToText, FromText, ToInts, IsBase58;
    var (s, n) := (ToInts(b), Number(ToInts(b), 256));
    ConvertedNumber(s, 256, 58);
    TextInverse(Convert(s, 256, 58));
  }

  lemma EncodesNothing()
    ensures Encode([]) == "1"
  {
  }

  /** The bytes of a text over the alphabet are the same number in base 256, behind
      as many zeros as there are leading ones. */
  lemma DecodesNumber(s: string)
    requires IsBase58(s)
    ensures var b := Decode(s);
            && Number(ToInts(b), 256) == Number(FromText(s), 58) && Lead(ToInts(b)) == Lead(FromText(s))
  {
    hide Number, Lead, ToDigits, FromText, IsBase58;
    var ds := FromText(s);
    ConvertedNumber(ds, 58, 256);
    assert ToInts(ToBytes(Convert(ds, 58, 256))) == Convert(ds, 58, 256);
  }

  lemma DecodesOthers(s: string)
    requires !IsBase58(s)
    ensures Decode(s) == []
  {
  }

  lemma ConvertedNumber(s: seq<int>, from: int, base: int)
    requires 2 <= from && 2 <= base && AreDigits(s, from)
    ensures Number(Convert(s, from, base), base) == Number(s, from) && Lead(Convert(s, from, base)) == Lead(s)
  {
    hide Number, Lead, ToDigits, Reverse;
    NumberNonneg(s, from);
    NumberOfDigits(Lead(s), Number(s, from), base);
  }

  lemma NumberNonneg(s: seq<int>, b: int)
    requires 2 <= b && AreDigits(s, b)
    ensures Number(s, b) >= 0
  {
    FromDigitsNonneg(Reverse(s), b);
  }

  /** Two digit strings with the same number and as many leading zeros are the same. */
  lemma NumberAndLeadDecide(s: seq<int>, s': seq<int>, b: int)
    requires 2 <= b && AreDigits(s, b) && AreDigits(s', b)
    requires Number(s, b) == Number(s', b) && Lead(s) == Lead(s')
    ensures s == s'
  {
    hide Number, Lead, ToDigits, Reverse;
    Canonical(s, b);
    Canonical(s', b);
  }
}
