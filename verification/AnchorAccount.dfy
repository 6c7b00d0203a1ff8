/** Accounts of an Anchor program: `parse_account_data`, and the structs whose
    dictionary is mistaken for something else. */
module AnchorAccount {
  import opened Words
  import opened Options
  import opened LittleEndian
  import opened Text
  import opened AnchorModel
  import opened AnchorRoundTrip
  import AnchorCodec
  import Base64
  import Base64Buffers

  // The field loop of `parse_account_data`

  /** Each field is decoded from the array cut at the offset, which is itself the
      counter the decoder adds to. */
  function ParseFields(idl: Idl, account: seq<byte>, fields: seq<Field>, offset: u32, parsed: seq<Entry>,
                       ghost ranks: map<AsciiString, nat>): Decoded
    requires Acyclic(idl, ranks)
    decreases fields
  {
    if fields == [] then Ok(Dict(parsed), offset)
    else
      match Deserialize(idl, SliceFrom(account, offset), fields[0].ty, offset, ranks)
      case Crash => Crash
      case Ok(value, next) => ParseFields(idl, account, fields[1..], next, Put(parsed, fields[0].name, value), ranks)
  }

  /** `parse_account_data`; an account without bytes gives an empty dictionary. */
  function ParseAccountData(idl: Idl, encoded: string, discriminatorLength: u32, fields: seq<Field>,
                            ghost ranks: map<AsciiString, nat>): Decoded
    requires Acyclic(idl, ranks)
  {
    match Base64.Decode(encoded)
    case Crash => Crash
    case Decoded(bytes) =>
      if bytes == [] then Ok(Dict([]), 0)
      else ParseFields(idl, SliceFrom(bytes, discriminatorLength), fields, 0, [], ranks)
  }

  /** Fields written one after another are recovered, and the offset ends where they do. */
  lemma {:induction false} FieldsReadBack(idl: Idl, pre: seq<byte>, entries: seq<Entry>, fields: seq<Field>,
                                          done: seq<Entry>, rest: seq<byte>, ranks: map<AsciiString, nat>)
    requires Acyclic(idl, ranks) && FieldsTyped(idl, entries, fields, ranks)
    requires DistinctNames(fields) && NewNames(done, fields)
    requires |pre| + |SerializeEntries(entries)| < 0x1_0000_0000
    ensures ParseFields(idl, pre + SerializeEntries(entries) + rest, fields, |pre|, done, ranks)
         == Ok(Dict(done + EraseEntries(entries)), |pre| + |SerializeEntries(entries)|)
    decreases |fields|
  {
    hide Serialize, Erase, Wrap32, Deserialize, SliceFrom, Put, Acyclic, WellTyped, DistinctNames, NewNames,
      SerializeEntries, EraseEntries, FieldsTyped, Rank, FieldsRank, ParseFields;
    if fields == [] {
      NoEntries(idl, entries, ranks);
      ParseEnd(idl, pre + [] + rest, |pre|, done, ranks);
      assert done + EraseEntries(entries) == done;
    } else {
      EntriesSplit(idl, entries, fields, ranks);
      var (first, others) := (Serialize(entries[0].value), SerializeEntries(entries[1..]));
      var (value, account) := (Erase(entries[0].value), pre + (first + others) + rest);
      RoundTripFrom(idl, entries[0].value, fields[0].ty, others + rest, |pre|, ranks);
      SmallFits(|pre| + |first|);
      CutHere(pre, first, others, rest);
      ParseStep(idl, account, fields, |pre|, done, value, |pre| + |first|, ranks);
      NamesStep(done, fields, value);
      FieldsReadBack(idl, pre + first, entries[1..], fields[1..], done + [Entry(fields[0].name, value)], rest, ranks);
      assert done + EraseEntries(entries) == done + [Entry(fields[0].name, value)] + EraseEntries(entries[1..]);
    }
  }

  lemma CutHere(pre: seq<byte>, first: seq<byte>, others: seq<byte>, rest: seq<byte>)
    ensures SliceFrom(pre + (first + others) + rest, |pre|) == first + (others + rest)
    ensures pre + (first + others) + rest == (pre + first) + others + rest
  {
  }

  lemma ParseStep(idl: Idl, account: seq<byte>, fields: seq<Field>, offset: u32, parsed: seq<Entry>, value: Variant,
                  next: u32, ranks: map<AsciiString, nat>)
    requires Acyclic(idl, ranks) && fields != []
    requires Deserialize(idl, SliceFrom(account, offset), fields[0].ty, offset, ranks) == Ok(value, next)
    ensures ParseFields(idl, account, fields, offset, parsed, ranks)
         == ParseFields(idl, account, fields[1..], next, Put(parsed, fields[0].name, value), ranks)
  {
    hide Deserialize, SliceFrom, Put, Acyclic;
  }

  lemma ParseCrash(idl: Idl, account: seq<byte>, fields: seq<Field>, offset: u32, parsed: seq<Entry>,
                   ranks: map<AsciiString, nat>)
    requires Acyclic(idl, ranks) && fields != []
    requires Deserialize(idl, SliceFrom(account, offset), fields[0].ty, offset, ranks).Crash?
    ensures ParseFields(idl, account, fields, offset, parsed, ranks).Crash?
  {
    hide Deserialize, SliceFrom, Put, Acyclic;
  }

  lemma ParseEnd(idl: Idl, account: seq<byte>, offset: u32, parsed: seq<Entry>, ranks: map<AsciiString, nat>)
    requires Acyclic(idl, ranks)
    ensures ParseFields(idl, account, [], offset, parsed, ranks) == Ok(Dict(parsed), offset)
  {
  }

  /** An account made of a discriminator and the fields of a well-typed struct, in
      base64, is parsed into those fields. */
  lemma AccountReadsBack(idl: Idl, discriminator: seq<byte>, entries: seq<Entry>, fields: seq<Field>, rest: seq<byte>,
                         ranks: map<AsciiString, nat>)
    requires Acyclic(idl, ranks) && FieldsTyped(idl, entries, fields, ranks) && DistinctNames(fields)
    requires |discriminator| < 0x1_0000_0000 && discriminator + SerializeEntries(entries) + rest != []
    requires Base64.TextLength(|discriminator + SerializeEntries(entries) + rest|) <= Base64.EXACT
    ensures ParseAccountData(idl, Base64.Encode(discriminator + SerializeEntries(entries) + rest), |discriminator|,
                             fields, ranks)
         == Ok(Dict(EraseEntries(entries)), |SerializeEntries(entries)|)
  {
    hide Base64.Encode, Base64.Decode, SerializeEntries, EraseEntries, ParseFields, Acyclic, FieldsTyped, DistinctNames;
    var bytes := discriminator + SerializeEntries(entries) + rest;
    Base64.DecodeEncode(bytes);
    assert SliceFrom(bytes, |discriminator|) == [] + SerializeEntries(entries) + rest;
    FieldsReadBack(idl, [], entries, fields, [], rest, ranks);
    assert [] + EraseEntries(entries) == EraseEntries(entries);
  }

  /** `parse_account_data`, from the account's base64 text. */
  method ParseAccount(idl: Idl, encoded: string, discriminatorLength: u32, fields: seq<Field>,
                      ghost ranks: map<AsciiString, nat>)
    returns (d: Decoded)
    requires Acyclic(idl, ranks)
    ensures d == ParseAccountData(idl, encoded, discriminatorLength, fields, ranks)
  {
    hide Base64.Decode, Deserialize, ParseFields, SliceFrom, Put, Acyclic;
    var outcome := Base64Buffers.Bs64Decode(encoded);
    if outcome == Base64.Crash {
      return Crash;
    }
    if outcome.bytes == [] {
      return Ok(Dict([]), 0);
    }
    var accountBytes := SliceFrom(outcome.bytes, discriminatorLength);
    var dataOffset: u32 := 0;
    var parsed := [];
    assert fields[0..] == fields;
    for j := 0 to |fields|
      invariant ParseFields(idl, accountBytes, fields[j..], dataOffset, parsed, ranks)
             == ParseFields(idl, accountBytes, fields, 0, [], ranks)
    {
      var val := AnchorCodec.DeserializeVariant(idl, SliceFrom(accountBytes, dataOffset), fields[j].ty, dataOffset,
                                                ranks);
      if val.Crash? {
        ParseCrash(idl, accountBytes, fields[j..], dataOffset, parsed, ranks);
        return Crash;
      }
      ParseStep(idl, accountBytes, fields[j..], dataOffset, parsed, val.value, val.consumed, ranks);
      assert fields[j..][1..] == fields[j + 1..];
      dataOffset := val.consumed;
      parsed := Put(parsed, fields[j].name, val.value);
    }
    ParseEnd(idl, accountBytes, dataOffset, parsed, ranks);
    d := Ok(Dict(parsed), dataOffset);
  }

  // Structs mistaken for something else

  lemma {:induction false} PartLength(entries: seq<Entry>, i: nat)
    requires i < |entries|
    ensures |Serialize(entries[i].value)| <= |SerializeEntries(entries)|
  {
    hide Serialize;
    if i > 0 {
      PartLength(entries[1..], i - 1);
    }
  }

  lemma {:induction false} TwoPartsLength(entries: seq<Entry>, i: nat, j: nat)
    requires i < j < |entries|
    ensures |Serialize(entries[i].value)| + |Serialize(entries[j].value)| <= |SerializeEntries(entries)|
  {
    hide Serialize;
    if i > 0 {
      TwoPartsLength(entries[1..], i - 1, j - 1);
    } else {
      PartLength(entries[1..], j - 1);
    }
  }

  /** The tag and the value of a dictionary, both serialised as fields. */
  lemma TagAndValueLength(entries: seq<Entry>)
    requires Lookup(entries, "dataType").Some?
    ensures |Serialize(Lookup(entries, "dataType").value)| <= |SerializeEntries(entries)|
    ensures Lookup(entries, "value").Some? ==>
              |Serialize(Lookup(entries, "dataType").value)| + |Serialize(Lookup(entries, "value").value)|
              <= |SerializeEntries(entries)|
  {
    hide Serialize, SerializeEntries, Lookup;
    var i :| 0 <= i < |entries| && entries[i].key == "dataType"
                && entries[i].value == Lookup(entries, "dataType").value;
    PartLength(entries, i);
    if Lookup(entries, "value").Some? {
      var j :| 0 <= j < |entries| && entries[j].key == "value" && entries[j].value == Lookup(entries, "value").value;
      if i < j {
        TwoPartsLength(entries, i, j);
      } else {
        TwoPartsLength(entries, j, i);
      }
    }
  }

  lemma TagLength(tag: Variant, value: Variant)
    ensures |Serialize(tag)| >= (if WidthOf(tag) == 0 then 0 else 4) && WidthOf(tag) <= 8
    ensures tag == Str("option") ==> |Serialize(tag)| >= 4
    ensures value.Int? ==> |Serialize(value)| == 8
  {
    hide ToLE, AsciiBytes;
  }

  /** A dictionary is serialised as its values in order exactly when it neither has
      both a "dataType" and a "value" nor is tagged as an option, or when there is
      nothing to write; a struct with such field names loses bytes. */
  lemma EncodedInOrder(v: Variant)
    requires v.Dict?
    ensures Serialize(v) == SerializeEntries(v.entries) <==>
            (!IsTypedPrimitive(v.entries) && !IsOption(v.entries)) || SerializeEntries(v.entries) == []
    ensures |Serialize(v)| <= |SerializeEntries(v.entries)|
  {
    hide Serialize, SerializeEntries, Lookup, WidthOf, ToLE;
    AnchorCodec.DictionarySerializes(v);
    if IsTypedPrimitive(v.entries) || IsOption(v.entries) {
      TagAndValueLength(v.entries);
      var (tag, value) := (Lookup(v.entries, "dataType").value, Lookup(v.entries, "value"));
      TagLength(tag, if value.Some? then value.value else Nil);
    }
  }

  /** A struct with fields "dataType" and "value" is written as a sized integer,
      and read back as something else. */
  lemma TaggedStructMisread()
    ensures var fields := [Field("dataType", StringType), Field("value", IntType(8, true))];
            var entries := [Entry("dataType", Str("u8")), Entry("value", Int(7))];
            && FieldsTyped([], entries, fields, map[]) && DistinctNames(fields)
            && Serialize(Dict(entries)) == [7]
            && Deserialize([], [7], StructKind(fields), 0, map[])
            == Ok(Dict([Entry("dataType", Str("")), Entry("value", Int(0))]), 12)
  {
    var fields := [Field("dataType", StringType), Field("value", IntType(8, true))];
    var entries := [Entry("dataType", Str("u8")), Entry("value", Int(7))];
    MisreadTyped(entries, fields);
    MisreadWritten(entries);
    MisreadRead(fields);
  }

  lemma MisreadTyped(entries: seq<Entry>, fields: seq<Field>)
    requires fields == [Field("dataType", StringType), Field("value", IntType(8, true))]
    requires entries == [Entry("dataType", Str("u8")), Entry("value", Int(7))]
    ensures FieldsTyped([], entries, fields, map[]) && DistinctNames(fields)
  {
    hide Lookup;
    SmallPow256();
    assert FieldsTyped([], entries[2..], fields[2..], map[]);
    assert FieldsTyped([], entries[1..], fields[1..], map[]);
  }

  lemma MisreadWritten(entries: seq<Entry>)
    requires entries == [Entry("dataType", Str("u8")), Entry("value", Int(7))]
    ensures Serialize(Dict(entries)) == [7]
  {
    hide SerializeEntries;
    assert Lookup(entries, "dataType") == Some(Str("u8"));
    assert Lookup(entries[1..], "value") == Some(Int(7));
    assert Lookup(entries, "value") == Some(Int(7));
    assert ToLE(7, 1) == [7] + ToLE(0, 0);
  }

  lemma MisreadRead(fields: seq<Field>)
    requires fields == [Field("dataType", StringType), Field("value", IntType(8, true))]
    ensures Deserialize([], [7], StructKind(fields), 0, map[])
         == Ok(Dict([Entry("dataType", Str("")), Entry("value", Int(0))]), 12)
  {
    hide DeserializeFields, Wrap32, Put, Pow256;
    SmallPow256();
    var nothing: seq<byte>, seven: seq<byte> := [], [7];
    var idl: Idl, start: seq<Entry> := [], [];
    var one := [Entry("dataType", Str(""))];
    var both := [Entry("dataType", Str("")), Entry("value", Int(0))];
    SmallFits(4);
    SmallFits(8);
    SmallFits(12);
    assert SliceFrom(seven, 4) == nothing && SliceFrom(nothing, 8) == nothing && fields[1..][1..] == [];
    PutNew(start, "dataType", Str(""));
    PutNew(one, "value", Int(0));
    assert start + one == one && one + [Entry("value", Int(0))] == both;
    assert Deserialize(idl, seven, StringType, 0, map[]) == Ok(Str(""), 4);
    FieldsStep(idl, seven, fields, start, 0, Str(""), 4, map[]);
    assert Deserialize(idl, nothing, IntType(8, true), 0, map[]) == Ok(Int(0), 8);
    FieldsStep(idl, nothing, fields[1..], one, 4, Int(0), 8, map[]);
    FieldsEnd(idl, nothing, both, 12, map[]);
    assert DeserializeFields(idl, seven, fields, start, 0, map[]) == Ok(Dict(both), 12);
  }
}
