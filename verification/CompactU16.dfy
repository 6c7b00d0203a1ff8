/** The compact-u16 length prefix: `short_u16_encode` and `short_u16_decode`. */
module CompactU16 {
  import opened Words
  import opened LittleEndian

  /** The bytes written in at most `turns` turns: seven bits each, least
      significant first, the top bit set while more remains. */
  function EncodeFrom(remaining: nat, turns: nat): (b: seq<byte>)
    ensures |b| <= turns && (turns > 0 ==> b != [])
    decreases turns
  {
    if turns == 0 then []
    else if remaining / 128 == 0 then [remaining % 128]
    else [remaining % 128 + 128] + EncodeFrom(remaining / 128, turns - 1)
  }

  function Encode(value: u32): (b: seq<byte>)
    ensures 1 <= |b| <= 3
  {
    EncodeFrom(value, 3)
  }

  /** Seven bits and the continuation bit. */
  function Low7(b: byte): (v: nat)
    ensures v < 128
  {
    b % 128
  }

  predicate Continues(b: byte) {
    b >= 128
  }

  /** The weight of the bits read in turn `i`. */
  function Weight(i: nat): nat {
    if i == 0 then 1 else 128 * Weight(i - 1)
  }

  /** Seven bits, shifted to their place. */
  function Placed(v: nat, i: nat): nat {
    v * Weight(i)
  }

  /** What the turns from `i` on add to the value, and the cursor after them. The
      bits or-ed in are disjoint from those already there. */
  function DecodeFrom(bytes: seq<byte>, cursor: nat, i: nat): (nat, nat)
    decreases 3 - i
  {
    if i >= 3 || cursor >= |bytes| then (0, cursor)
    else
      var here := Placed(Low7(bytes[cursor]), i);
      if !Continues(bytes[cursor]) then (here, cursor + 1)
      else
        var (more, after) := DecodeFrom(bytes, cursor + 1, i + 1);
        (here + more, after)
  }

  function Decode(bytes: seq<byte>, cursor: nat): (nat, nat) {
    DecodeFrom(bytes, cursor, 0)
  }

  lemma DecodedFits(bytes: seq<byte>, cursor: nat)
    ensures Decode(bytes, cursor).0 < 0x20_0000
    ensures cursor <= Decode(bytes, cursor).1 <= cursor + 3
    ensures cursor <= |bytes| ==> Decode(bytes, cursor).1 <= |bytes|
  {
    hide Low7, Continues;
    assert Weight(0) == 1 && Weight(1) == 128 * Weight(0) && Weight(2) == 128 * Weight(1);
    TurnsFit(bytes, cursor, 0);
    assert Weight(3) == 128 * Weight(2);
  }

  lemma {:induction false} TurnsFit(bytes: seq<byte>, cursor: nat, i: nat)
    requires i <= 3
    ensures var (v, after) := DecodeFrom(bytes, cursor, i);
            && v <= Weight(3) - Weight(i)
            && cursor <= after <= cursor + (3 - i) && (cursor <= |bytes| ==> after <= |bytes|)
    decreases 3 - i
  {
    if i < 3 {
      TurnsFit(bytes, cursor + 1, i + 1);
    } else {
      assert i == 3;
    }
  }

  // Round trip

  /** What is left of a value after so many turns of seven bits. */
  function Kept(n: nat, turns: nat): nat
    decreases turns
  {
    if turns == 0 then 0 else n % 128 + 128 * Kept(n / 128, turns - 1)
  }

  lemma KeptInThree(n: nat)
    ensures Kept(n, 3) == n % 0x20_0000
  {
    assert Kept(n / 128 / 128, 1) == n / 128 / 128 % 128 + 128 * Kept(n / 128 / 128 / 128, 0);
    assert Kept(n, 3) == n % 128 + 128 * (n / 128 % 128 + 128 * (n / 128 / 128 % 128));
    ModUnique(n, 0x20_0000, n / 128 / 128 / 128, Kept(n, 3));
  }

  lemma {:induction false} KeptWhole(n: nat, turns: nat)
    requires n < 128 && turns > 0
    ensures Kept(n, turns) == n
    decreases turns
  {
    if turns > 1 {
      KeptWhole(0, turns - 1);
    }
  }

  lemma KeptStep(n: nat, turns: nat)
    requires turns > 0
    ensures Kept(n, turns) == n % 128 + 128 * Kept(n / 128, turns - 1)
    ensures Kept(n, 0) == 0
  {
  }

  lemma PlacedTogether(a: nat, b: nat, i: nat)
    ensures Placed(a, i) + Placed(b, i + 1) == Placed(a + 128 * b, i)
    ensures Placed(0, i) == 0
  {
  }

  lemma {:induction false} TurnsReadBack(pre: seq<byte>, n: nat, i: nat, rest: seq<byte>)
    requires i < 3
    ensures DecodeFrom(pre + EncodeFrom(n, 3 - i) + rest, |pre|, i)
         == (Placed(Kept(n, 3 - i), i), |pre| + |EncodeFrom(n, 3 - i)|)
    decreases 3 - i
  {
    hide Placed, Kept, DecodeFrom, EncodeFrom, Low7, Continues;
    var code := EncodeFrom(n, 3 - i);
    var bytes := pre + code + rest;
    EncodeTurn(n, 3 - i);
    Middle(pre, code, rest);
    DecodeTurn(bytes, |pre|, i);
    Bits(n);
    if n / 128 == 0 {
      KeptWhole(n, 3 - i);
    } else {
      KeptStep(n, 3 - i);
      PlacedTogether(n % 128, Kept(n / 128, 2 - i), i);
      if i == 2 {
        NoTurns(n / 128);
        DecodeEnds(bytes, |pre| + 1, 3);
        KeptStep(n / 128, 1);
      } else {
        ShiftFirst(pre, n % 128 + 128, EncodeFrom(n / 128, 2 - i), rest);
        TurnsReadBack(pre + [n % 128 + 128], n / 128, i + 1, rest);
      }
    }
  }

  lemma Middle(pre: seq<byte>, code: seq<byte>, rest: seq<byte>)
    requires code != []
    ensures (pre + code + rest)[|pre|] == code[0]
  {
  }

  lemma ShiftFirst(pre: seq<byte>, b: byte, code: seq<byte>, rest: seq<byte>)
    ensures pre + ([b] + code) + rest == (pre + [b]) + code + rest
  {
  }

  lemma Bits(n: nat)
    ensures n / 128 == 0 ==> n % 128 == n
    ensures !Continues(n % 128) && Low7(n % 128) == n % 128
    ensures Continues(n % 128 + 128) && Low7(n % 128 + 128) == n % 128
  {
    ModUnique(n % 128 + 128, 128, 1, n % 128);
  }

  /** Reading what was written, whatever stands before and after it, gives the low
      21 bits of the value and moves the cursor by the encoded length; so values
      below 2^21, and no others, are read back. */
  lemma DecodeEncode(pre: seq<byte>, value: u32, rest: seq<byte>)
    ensures Decode(pre + Encode(value) + rest, |pre|) == (value % 0x20_0000, |pre| + |Encode(value)|)
    ensures Decode(pre + Encode(value) + rest, |pre|).0 == value <==> value < 0x20_0000
  {
    hide DecodeFrom, EncodeFrom, Kept;
    TurnsReadBack(pre, value, 0, rest);
    KeptInThree(value);
  }

  // The bytes themselves

  /** One byte below 2^7, two below 2^14, and three for everything else; a byte
      with more to come has 128 added. */
  lemma EncodedBytes(value: u32)
    ensures value < 128 ==> Encode(value) == [value]
    ensures 128 <= value < 0x4000 ==> Encode(value) == [value % 128 + 128, value / 128]
    ensures 0x4000 <= value < 0x20_0000 ==>
              Encode(value) == [value % 128 + 128, value / 128 % 128 + 128, value / 0x4000]
    ensures 0x20_0000 <= value ==>
              Encode(value) == [value % 128 + 128, value / 128 % 128 + 128, value / 0x4000 % 128 + 128]
  {
    hide EncodeFrom;
    EncodeTurn(value, 3);
    EncodeTurn(value / 128, 2);
    EncodeTurn(value / 128 / 128, 1);
    NoTurns(value / 128 / 128 / 128);
    assert value / 128 / 128 == value / 0x4000 && value / 128 / 128 / 128 == value / 0x20_0000;
  }

  /** All bytes are read: up to three, seven bits each, while a byte is 128 or more
      and there is another one. */
  lemma DecodedValue(bytes: seq<byte>, cursor: nat)
    ensures var (n, v) := (|bytes|, (i: nat) => if cursor + i < |bytes| then bytes[cursor + i] as int else 0);
            Decode(bytes, cursor)
            == if cursor >= n then (0, cursor)
               else if v(0) < 128 then (v(0), cursor + 1)
               else if cursor + 1 >= n then (v(0) - 128, cursor + 1)
               else if v(1) < 128 then (v(0) - 128 + 128 * v(1), cursor + 2)
               else if cursor + 2 >= n then (v(0) - 128 + 128 * (v(1) - 128), cursor + 2)
               else (v(0) - 128 + 128 * (v(1) - 128) + 0x4000 * (v(2) % 128), cursor + 3)
  {
    hide DecodeFrom;
    assert Weight(0) == 1 && Weight(1) == 128 * Weight(0) && Weight(2) == 128 * Weight(1);
    if cursor < |bytes| {
      DecodeTurn(bytes, cursor, 0);
      if cursor + 1 < |bytes| {
        DecodeTurn(bytes, cursor + 1, 1);
        if cursor + 2 < |bytes| {
          DecodeTurn(bytes, cursor + 2, 2);
          DecodeEnds(bytes, cursor + 3, 3);
        } else {
          DecodeEnds(bytes, cursor + 2, 2);
        }
      } else {
        DecodeEnds(bytes, cursor + 1, 1);
      }
    } else {
      DecodeEnds(bytes, cursor, 0);
    }
  }

  // The two functions as they run

  /** `short_u16_encode`. */
  method ShortU16Encode(value: u32) returns (result: seq<byte>)
    ensures result == Encode(value)
  {
    hide Encode;
    result := [];
    var remaining: u32 := value;
    EncodeIs(value);
    for i := 0 to 3
      invariant result + EncodeFrom(remaining, 3 - i) == Encode(value)
    {
      EncodeTurn(remaining, 3 - i);
      var b: byte := remaining % 128;
      remaining := remaining / 128;
      if remaining == 0 {
        result := result + [b];
        return;
      } else {
        b := b + 128;
        result := result + [b];
      }
    }
    NoTurns(remaining);
  }

  lemma EncodeIs(value: u32)
    ensures Encode(value) == EncodeFrom(value, 3)
  {
  }

  lemma EncodeTurn(n: nat, turns: nat)
    requires turns > 0
    ensures EncodeFrom(n, turns)
         == if n / 128 == 0 then [n % 128] else [n % 128 + 128] + EncodeFrom(n / 128, turns - 1)
  {
  }

  lemma NoTurns(n: nat)
    ensures EncodeFrom(n, 0) == []
  {
  }

  /** `short_u16_decode`, its cursor passed in and out. */
  method ShortU16Decode(bytes: seq<byte>, cursor: nat) returns (value: nat, after: nat)
    ensures (value, after) == Decode(bytes, cursor)
  {
    hide DecodeFrom, Placed, Low7, Continues;
    value, after := 0, cursor;
    var i := 0;
    while i < 3 && after < |bytes|
      invariant 0 <= i <= 3 && value < Weight(i)
      invariant Decode(bytes, cursor) == (value + DecodeFrom(bytes, after, i).0, DecodeFrom(bytes, after, i).1)
    {
      DecodeTurn(bytes, after, i);
      var b := bytes[after];
      BitsApart(value, Low7(b), i);
      value := value + Placed(Low7(b), i);
      after := after + 1;
      if !Continues(b) {
        return;
      }
      i := i + 1;
    }
    DecodeEnds(bytes, after, i);
  }

  /** Everything read so far lies below the place of the next seven bits. */
  lemma BitsApart(value: nat, v: nat, i: nat)
    requires value < Weight(i) && v < 128
    ensures value + Placed(v, i) < Weight(i + 1)
  {
    assert Weight(i + 1) == 128 * Weight(i);
    assert v * Weight(i) <= 127 * Weight(i);
  }

  lemma DecodeTurn(bytes: seq<byte>, cursor: nat, i: nat)
    requires i < 3 && cursor < |bytes|
    ensures var here := Placed(Low7(bytes[cursor]), i);
            var more := DecodeFrom(bytes, cursor + 1, i + 1);
            DecodeFrom(bytes, cursor, i)
            == if Continues(bytes[cursor]) then (here + more.0, more.1) else (here, cursor + 1)
  {
    hide Low7, Placed, Continues;
  }

  lemma DecodeEnds(bytes: seq<byte>, cursor: nat, i: nat)
    requires i >= 3 || cursor >= |bytes|
    ensures DecodeFrom(bytes, cursor, i) == (0, cursor)
  {
  }
}
