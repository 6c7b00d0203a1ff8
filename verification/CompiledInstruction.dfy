/** The wire format of compiled instructions. */
module CompiledInstructions {
  import opened Words
  import opened Text
  import opened CompactU16

  const MAX_TRANSACTION_SIZE: nat := 1232
  const MINIMUM_COMPILED_INSTRUCTION_SIZE: nat := 3

  datatype Compiled = Compiled(programIdIndex: byte, accounts: seq<byte>, data: seq<byte>)

  /** What a parse leaves behind: the fields and the bytes read, or nothing. */
  datatype Parsed = Parsed(instruction: Compiled, used: nat) | Refused

  /** The array lengths are converted to 32 bits. */
  function Serialize(c: Compiled): seq<byte> {
    [c.programIdIndex] + CompactU16.Encode(Wrap32(|c.accounts|)) + c.accounts
    + CompactU16.Encode(Wrap32(|c.data|)) + c.data
  }

  /** `create_from_bytes`, its checks in their order. */
  function Parse(bytes: seq<byte>): Parsed {
    if |bytes| > MAX_TRANSACTION_SIZE || |bytes| < MINIMUM_COMPILED_INSTRUCTION_SIZE then Refused
    else
      var (accountsLen, at) := CompactU16.Decode(bytes, 1);
      if |bytes| < MINIMUM_COMPILED_INSTRUCTION_SIZE + accountsLen then Refused
      else
        var accounts := Slice(bytes, at, at + accountsLen);
        var (dataLen, cursor) := CompactU16.Decode(bytes, at + accountsLen);
        if |bytes| < MINIMUM_COMPILED_INSTRUCTION_SIZE + accountsLen + dataLen then Refused
        else if cursor + dataLen > MAX_TRANSACTION_SIZE then Refused
        else if dataLen > MAX_TRANSACTION_SIZE || accountsLen > MAX_TRANSACTION_SIZE then Refused
        else Parsed(Compiled(bytes[0], accounts, Slice(bytes, cursor, cursor + dataLen)), cursor + dataLen)
  }

  // One instruction

  /** The two compact lengths of a serialised instruction, and where they stand. */
  lemma LengthsReadBack(c: Compiled, rest: seq<byte>)
    requires |Serialize(c)| <= MAX_TRANSACTION_SIZE
    ensures var (a, d) := (CompactU16.Encode(|c.accounts|), CompactU16.Encode(|c.data|));
            var (at, bytes) := (1 + |a|, Serialize(c) + rest);
            && |Serialize(c)| == at + |c.accounts| + |d| + |c.data|
            && CompactU16.Decode(bytes, 1) == (|c.accounts|, at)
            && CompactU16.Decode(bytes, at + |c.accounts|) == (|c.data|, at + |c.accounts| + |d|)
            && Slice(bytes, at, at + |c.accounts|) == c.accounts
            && Slice(bytes, at + |c.accounts| + |d|, |Serialize(c)|) == c.data
            && bytes[0] == c.programIdIndex
  {
    hide CompactU16.Encode, CompactU16.Decode, Wrap32;
    LengthsFit(c);
    var (a, d) := (CompactU16.Encode(|c.accounts|), CompactU16.Encode(|c.data|));
    var bytes := Serialize(c) + rest;
    var pre := [c.programIdIndex] + a + c.accounts;
    assert bytes == [c.programIdIndex] + a + (c.accounts + d + c.data + rest);
    DecodeEncode([c.programIdIndex], |c.accounts|, c.accounts + d + c.data + rest);
    assert bytes == pre + d + (c.data + rest);
    DecodeEncode(pre, |c.data|, c.data + rest);
    assert bytes[1 + |a|..|pre|] == c.accounts;
    assert bytes[|pre| + |d|..|pre| + |d| + |c.data|] == c.data;
  }

  lemma LengthsFit(c: Compiled)
    requires |Serialize(c)| <= MAX_TRANSACTION_SIZE
    ensures Wrap32(|c.accounts|) == |c.accounts| && Wrap32(|c.data|) == |c.data|
    ensures |c.accounts| + |c.data| <= MAX_TRANSACTION_SIZE
  {
    hide CompactU16.Encode;
  }

  /** A serialised instruction is recovered, whatever follows it, and the bytes
      read are exactly its own. */
  lemma ParseSerialize(c: Compiled, rest: seq<byte>)
    requires |Serialize(c) + rest| <= MAX_TRANSACTION_SIZE
    ensures Parse(Serialize(c) + rest) == Parsed(c, |Serialize(c)|)
  {
    hide CompactU16.Encode, CompactU16.Decode, Serialize, Slice;
    LengthsReadBack(c, rest);
  }

  /** Of an accepted input the two arrays are complete exactly when they end within it. */
  lemma AcceptedLengths(bytes: seq<byte>)
    requires Parse(bytes).Parsed?
    ensures var (accountsLen, at) := CompactU16.Decode(bytes, 1);
            var (dataLen, cursor) := CompactU16.Decode(bytes, at + accountsLen);
            var c := Parse(bytes).instruction;
            |c.accounts| == accountsLen && |c.data| == dataLen <==> cursor + dataLen <= |bytes|
  {
    hide CompactU16.Decode, Slice;
    DecodedFits(bytes, 1);
    var (accountsLen, at) := CompactU16.Decode(bytes, 1);
    DecodedFits(bytes, at + accountsLen);
    FullSlice(bytes, at, accountsLen);
    var (dataLen, cursor) := CompactU16.Decode(bytes, at + accountsLen);
    if cursor <= |bytes| {
      FullSlice(bytes, cursor, dataLen);
    }
  }

  lemma FullSlice(b: seq<byte>, from: nat, n: nat)
    requires from <= |b|
    ensures |Slice(b, from, from + n)| == n <==> from + n <= |b|
  {
  }

  /** Exactly which inputs are accepted: 3 to 1232 bytes that leave room for both
      arrays behind three bytes, and whose end by the lengths read is within 1232. */
  lemma AcceptedIff(bytes: seq<byte>)
    ensures var (accountsLen, at) := CompactU16.Decode(bytes, 1);
            var (dataLen, cursor) := CompactU16.Decode(bytes, at + accountsLen);
            Parse(bytes)
            == if 3 <= |bytes| <= 1232 && 3 + accountsLen + dataLen <= |bytes| && cursor + dataLen <= 1232
               then Parsed(Compiled(bytes[0], Slice(bytes, at, at + accountsLen),
                                    Slice(bytes, cursor, cursor + dataLen)),
                           cursor + dataLen)
               else Refused
  {
    hide CompactU16.Decode, Slice;
    DecodedFits(bytes, 1);
    var (accountsLen, at) := CompactU16.Decode(bytes, 1);
    var (dataLen, cursor) := CompactU16.Decode(bytes, at + accountsLen);
    assert dataLen >= 0 && accountsLen >= 0;
  }

  /** The wire format: the program's index, then each array behind its length. */
  lemma WireFormat(c: Compiled)
    requires |Serialize(c)| <= 1232
    ensures var (b, n, m) := (Serialize(c), |c.accounts|, |c.data|);
            var (p, q) := (CompactU16.Encode(n), CompactU16.Encode(m));
            var (at, end) := (1 + |p|, 1 + |p| + n + |q|);
            && |b| == end + m && b[0] == c.programIdIndex && b[1..at] == p && b[at..at + n] == c.accounts
            && b[at + n..end] == q && b[end..] == c.data
  {
    hide CompactU16.Encode, Wrap32;
    LengthsFit(c);
    var (b, p, q) := (Serialize(c), CompactU16.Encode(|c.accounts|), CompactU16.Encode(|c.data|));
    assert b == [c.programIdIndex] + (p + (c.accounts + (q + c.data)));
  }

  // Instructions cut short

  /** Every proper prefix of a serialised instruction is refused exactly when it
      has fewer than 128 accounts and fewer than 128 bytes of data. The size checks
      count one byte for each length, so longer prefixes of lengths leave room for
      a missing byte. */
  lemma CutShortRefused(c: Compiled)
    requires |Serialize(c)| <= MAX_TRANSACTION_SIZE
    ensures (forall n :: 0 <= n < |Serialize(c)| ==> Parse(Serialize(c)[..n]).Refused?)
            <==> |c.accounts| < 128 && |c.data| < 128
  {
    hide CompactU16.Encode, Parse;
    if |c.accounts| < 128 && |c.data| < 128 {
      forall n | 0 <= n < |Serialize(c)| ensures Parse(Serialize(c)[..n]).Refused? {
        ShortPrefixRefused(c, n);
      }
    } else {
      var n := |Serialize(c)| - 1;
      LongPrefixAccepted(c);
      assert Parse(Serialize(c)[..n]).Parsed?;
    }
  }

  lemma OneByteLength(n: u32)
    requires n < 128
    ensures CompactU16.Encode(n) == [n]
  {
    EncodeTurn(n, 3);
  }

  lemma LongLength(n: u32)
    requires n >= 128
    ensures |CompactU16.Encode(n)| >= 2
  {
    EncodeTurn(n, 3);
  }

  /** The length prefix at a position, with anything behind it, or nothing at all. */
  lemma LengthAt(bytes: seq<byte>, pre: seq<byte>, n: u32, rest: seq<byte>)
    requires n < 0x20_0000 && bytes == pre + CompactU16.Encode(n) + rest
    ensures CompactU16.Decode(bytes, |pre|) == (n, |pre| + |CompactU16.Encode(n)|)
  {
    hide CompactU16.Encode, CompactU16.Decode;
    DecodeEncode(pre, n, rest);
  }

  lemma NoLength(bytes: seq<byte>)
    ensures CompactU16.Decode(bytes, |bytes|) == (0, |bytes|)
  {
  }

  lemma ShortPrefixRefused(c: Compiled, n: nat)
    requires |c.accounts| < 128 && |c.data| < 128 && n < |Serialize(c)|
    ensures Parse(Serialize(c)[..n]).Refused?
  {
    hide CompactU16.Encode, CompactU16.Decode, Wrap32, Slice;
    ShortSerialized(c);
    var (a, d) := (|c.accounts|, |c.data|);
    var bytes := Serialize(c)[..n];
    if n >= 3 {
      OneByteLength(a);
      assert bytes == [c.programIdIndex] + [a] + bytes[2..];
      LengthAt(bytes, [c.programIdIndex], a, bytes[2..]);
      if n >= 3 + a {
        OneByteLength(d);
        assert bytes == bytes[..2 + a] + [d] + bytes[3 + a..];
        LengthAt(bytes, bytes[..2 + a], d, bytes[3 + a..]);
      }
    }
  }

  lemma ShortSerialized(c: Compiled)
    requires |c.accounts| < 128 && |c.data| < 128
    ensures Serialize(c) == [c.programIdIndex, |c.accounts|] + c.accounts + [|c.data|] + c.data
  {
    hide CompactU16.Encode;
    OneByteLength(|c.accounts|);
    OneByteLength(|c.data|);
  }

  /** One byte less is accepted as soon as one of the lengths takes two bytes. */
  lemma LongPrefixAccepted(c: Compiled)
    requires |Serialize(c)| <= MAX_TRANSACTION_SIZE && (|c.accounts| >= 128 || |c.data| >= 128)
    ensures Parse(Serialize(c)[..|Serialize(c)| - 1]).Parsed?
  {
    hide CompactU16.Encode, CompactU16.Decode, Wrap32, Slice;
    LengthsFit(c);
    var (a, d) := (CompactU16.Encode(|c.accounts|), CompactU16.Encode(|c.data|));
    if |c.accounts| >= 128 {
      LongLength(|c.accounts|);
    } else {
      LongLength(|c.data|);
    }
    var pre := [c.programIdIndex] + a + c.accounts;
    var bytes := Serialize(c)[..|Serialize(c)| - 1];
    if c.data == [] {
      OneByteLength(0);
      assert bytes == pre && pre == [c.programIdIndex] + a + c.accounts;
      LengthAt(bytes, [c.programIdIndex], |c.accounts|, c.accounts);
      NoLength(bytes);
    } else {
      var tail := c.data[..|c.data| - 1];
      assert bytes == [c.programIdIndex] + a + (c.accounts + d + tail);
      LengthAt(bytes, [c.programIdIndex], |c.accounts|, c.accounts + d + tail);
      assert bytes == pre + d + tail;
      LengthAt(bytes, pre, |c.data|, tail);
    }
  }

  /** 128 bytes of data: cut by one byte, the last one is missing from the data;
      cut inside the length itself, all of them are, and nothing shows it. */
  lemma CutShortAccepted(c: Compiled)
    requires c.accounts == [] && |c.data| == 128
    ensures |Serialize(c)| == 132
    ensures Parse(Serialize(c)[..131]) == Parsed(c.(data := c.data[..127]), 132)
    ensures Parse(Serialize(c)[..3]) == Parsed(Compiled(c.programIdIndex, [], []), 3)
  {
    assert Serialize(c) == [c.programIdIndex, 0, 128, 1] + c.data by {
      assert EncodeFrom(128, 3) == [128] + EncodeFrom(1, 2);
    }
    CutData(c, Serialize(c)[..131]);
    CutLength(c, Serialize(c)[..3]);
  }

  lemma CutData(c: Compiled, bytes: seq<byte>)
    requires c.accounts == [] && |c.data| == 128 && bytes == [c.programIdIndex, 0, 128, 1] + c.data[..127]
    ensures Parse(bytes) == Parsed(c.(data := c.data[..127]), 132)
  {
    assert CompactU16.Decode(bytes, 1) == (0, 2);
    assert CompactU16.Decode(bytes, 2) == (128, 4) by {
      assert DecodeFrom(bytes, 3, 1) == (128, 4);
    }
    assert Slice(bytes, 4, 132) == c.data[..127];
    assert Slice(bytes, 2, 2) == [];
  }

  lemma CutLength(c: Compiled, bytes: seq<byte>)
    requires bytes == [c.programIdIndex, 0, 128]
    ensures Parse(bytes) == Parsed(Compiled(c.programIdIndex, [], []), 3)
  {
    assert CompactU16.Decode(bytes, 1) == (0, 2);
    assert CompactU16.Decode(bytes, 2) == (0, 3) by {
      assert DecodeFrom(bytes, 3, 1) == (0, 3);
    }
  }

  // Many instructions

  function SerializeAll(cs: seq<Compiled>): seq<byte> {
    if cs == [] then [] else Serialize(cs[0]) + SerializeAll(cs[1..])
  }

  /** Instructions parsed one after another, and the cursor after the last. */
  function ParseAll(bytes: seq<byte>, cursor: nat, count: nat): (seq<Compiled>, nat)
    decreases count
  {
    if count == 0 then ([], cursor)
    else
      match Parse(SliceFrom(bytes, cursor))
      case Refused => ([], cursor)
      case Parsed(c, used) =>
        var (others, after) := ParseAll(bytes, cursor + used, count - 1);
        ([c] + others, after)
  }

  lemma ParseTurn(bytes: seq<byte>, cursor: nat, count: nat)
    requires count > 0
    ensures match Parse(SliceFrom(bytes, cursor))
            case Refused => ParseAll(bytes, cursor, count) == ([], cursor)
            case Parsed(c, used) =>
              var others := ParseAll(bytes, cursor + used, count - 1);
              ParseAll(bytes, cursor, count) == ([c] + others.0, others.1)
  {
    hide Parse, SliceFrom;
  }

  lemma ParseNone(bytes: seq<byte>, cursor: nat)
    ensures ParseAll(bytes, cursor, 0) == ([], cursor)
  {
  }

  /** Instructions serialised back to back within 1232 bytes are recovered, and
      nothing beyond them is read. */
  lemma {:induction false} ParseSerializeAll(pre: seq<byte>, cs: seq<Compiled>, rest: seq<byte>)
    requires |SerializeAll(cs) + rest| <= MAX_TRANSACTION_SIZE
    ensures ParseAll(pre + SerializeAll(cs) + rest, |pre|, |cs|) == (cs, |pre| + |SerializeAll(cs)|)
    decreases |cs|
  {
    hide Serialize, Parse, ParseAll;
    if cs == [] {
      ParseNone(pre + [] + rest, |pre|);
    } else {
      var (first, others) := (Serialize(cs[0]), SerializeAll(cs[1..]));
      var bytes := pre + (first + others) + rest;
      assert SliceFrom(bytes, |pre|) == first + (others + rest);
      assert |first + (others + rest)| == |SerializeAll(cs) + rest|;
      ParseSerialize(cs[0], others + rest);
      ParseTurn(bytes, |pre|, |cs|);
      ParseSerializeAll(pre + first, cs[1..], rest);
      assert SerializeAll(cs) == first + others && cs == [cs[0]] + cs[1..];
      assert bytes == (pre + first) + others + rest;
    }
  }

  class CompiledInstruction {
    var programIdIndex: byte
    var accounts: seq<byte>
    var data: seq<byte>

    constructor ()
      ensures Fields() == Compiled(0, [], [])
    {
      programIdIndex, accounts, data := 0, [], [];
    }

    function Fields(): Compiled
      reads this
    {
      Compiled(programIdIndex, accounts, data)
    }

    /** `serialize`. */
    method ToBytes() returns (result: seq<byte>)
      ensures result == Serialize(Fields())
    {
      hide CompactU16.Encode, Wrap32;
      result := [programIdIndex];
      var length := ShortU16Encode(Wrap32(|accounts|));
      result := result + length;
      result := result + accounts;
      length := ShortU16Encode(Wrap32(|data|));
      result := result + length;
      result := result + data;
    }

    /** `create_from_bytes`. A refusal returns 0 and leaves the object alone. */
    method CreateFromBytes(bytes: seq<byte>) returns (used: nat)
      modifies this
      ensures used <= MAX_TRANSACTION_SIZE
      ensures match Parse(bytes)
              case Refused => used == 0 && Fields() == old(Fields())
              case Parsed(c, n) => used == n && used > 0 && Fields() == c
    {
      hide CompactU16.Decode, Slice;
      if |bytes| > MAX_TRANSACTION_SIZE {
        return 0;
      }
      if |bytes| < MINIMUM_COMPILED_INSTRUCTION_SIZE {
        return 0;
      }
      var cursor := 0;
      var compiledProgramIdIndex := bytes[cursor];
      cursor := cursor + 1;
      var accountsLen, dataLen;
      DecodedFits(bytes, cursor);
      accountsLen, cursor := ShortU16Decode(bytes, cursor);
      if |bytes| < MINIMUM_COMPILED_INSTRUCTION_SIZE + accountsLen {
        return 0;
      }
      var compiledAccounts := Slice(bytes, cursor, cursor + accountsLen);
      cursor := cursor + accountsLen;
      DecodedFits(bytes, cursor);
      dataLen, cursor := ShortU16Decode(bytes, cursor);
      if |bytes| < MINIMUM_COMPILED_INSTRUCTION_SIZE + accountsLen + dataLen {
        return 0;
      }
      if cursor + dataLen > MAX_TRANSACTION_SIZE {
        return 0;
      }
      if dataLen > MAX_TRANSACTION_SIZE {
        return 0;
      }
      if accountsLen > MAX_TRANSACTION_SIZE {
        return 0;
      }
      this.data := Slice(bytes, cursor, cursor + dataLen);
      this.accounts := compiledAccounts;
      this.programIdIndex := compiledProgramIdIndex;
      return cursor + dataLen;
    }
  }

  ghost function FieldsOf(cs: seq<CompiledInstruction>): seq<Compiled>
    reads cs
  {
    if cs == [] then [] else [cs[0].Fields()] + FieldsOf(cs[1..])
  }

  /** The loop of `Message::serialize`. */
  method WriteInstructions(cs: seq<CompiledInstruction>) returns (result: seq<byte>)
    ensures result == SerializeAll(FieldsOf(cs))
  {
    hide Serialize, SerializeAll, FieldsOf;
    result := [];
    assert cs[0..] == cs;
    for i := 0 to |cs|
      invariant result + SerializeAll(FieldsOf(cs[i..])) == SerializeAll(FieldsOf(cs))
    {
      var bytes := cs[i].ToBytes();
      assert cs[i..][1..] == cs[i + 1..];
      SerializeStep(cs[i..]);
      result := result + bytes;
    }
    NothingSerialized(cs[|cs|..]);
  }

  lemma SerializeStep(cs: seq<CompiledInstruction>)
    requires cs != []
    ensures SerializeAll(FieldsOf(cs)) == Serialize(cs[0].Fields()) + SerializeAll(FieldsOf(cs[1..]))
  {
    hide Serialize;
    assert FieldsOf(cs)[1..] == FieldsOf(cs[1..]);
  }

  lemma NothingSerialized(cs: seq<CompiledInstruction>)
    requires cs == []
    ensures SerializeAll(FieldsOf(cs)) == []
  {
  }

  /** The loop of `Message::create`; a refused instruction ends it. */
  method ReadInstructions(bytes: seq<byte>, start: nat, count: nat)
    returns (read: seq<CompiledInstruction>, cursor: nat)
    ensures fresh(read) && (FieldsOf(read), cursor) == ParseAll(bytes, start, count)
  {
    hide Parse, ParseAll, SliceFrom, FieldsOf;
    read, cursor := [], start;
    NoFields();
    assert FieldsOf(read) + ParseAll(bytes, cursor, count).0 == ParseAll(bytes, cursor, count).0;
    for i := 0 to count
      invariant fresh(read)
      invariant (FieldsOf(read) + ParseAll(bytes, cursor, count - i).0, ParseAll(bytes, cursor, count - i).1)
             == ParseAll(bytes, start, count)
    {
      ParseTurn(bytes, cursor, count - i);
      ghost var before := FieldsOf(read);
      var instruction := new CompiledInstruction();
      var consumed := instruction.CreateFromBytes(SliceFrom(bytes, cursor));
      assert FieldsOf(read) == before;
      if consumed == 0 {
        assert before + [] == before;
        return;
      }
      FieldsOfAppend(read, instruction);
      ghost var later := ParseAll(bytes, cursor + consumed, count - i - 1);
      assert before + ([instruction.Fields()] + later.0) == (before + [instruction.Fields()]) + later.0;
      read := read + [instruction];
      cursor := cursor + consumed;
    }
    ParseNone(bytes, cursor);
    assert FieldsOf(read) + [] == FieldsOf(read);
  }

  lemma NoFields()
    ensures FieldsOf([]) == []
  {
  }

  lemma {:induction false} FieldsOfAppend(cs: seq<CompiledInstruction>, c: CompiledInstruction)
    ensures FieldsOf(cs + [c]) == FieldsOf(cs) + [c.Fields()]
  {
    if cs == [] {
      assert cs + [c] == [c] && [c][1..] == [];
    } else {
      FieldsOfAppend(cs[1..], c);
      assert (cs + [c])[1..] == cs[1..] + [c];
    }
  }
}
