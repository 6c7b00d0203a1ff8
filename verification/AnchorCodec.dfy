/** The Anchor codec as it runs: loops that append to a result buffer on one side,
    and that cut consumed bytes off the front on the other. */
module AnchorCodec {
  import opened Words
  import opened Options
  import opened LittleEndian
  import opened Text
  import opened AnchorModel
  import opened AnchorRoundTrip

  // Serialising

  /** `serialize_variant`. */
  method SerializeVariant(v: Variant) returns (result: seq<byte>)
    ensures result == Serialize(v)
    decreases v, 2
  {
    hide SerializeItems, SerializeEntries, IsTypedPrimitive, IsOption, Lookup;
    match v {
      case Nil => result := [];
      case Bool(flag) => result := [if flag then 1 else 0];
      case Int(i) => result := ToLE(i, 8);
      case Str(s) =>
        result := ToLE(|s|, 4);
        result := result + AsciiBytes(s);
      case Bytes(b) =>
        result := ToLE(|b|, 4);
        result := result + b;
      case Arr(items) => result := SerializeVariantArray(items);
      case Dict(entries) => result := SerializeDictionary(v);
      case Pubkey(key) => result := key;
    }
  }

  /** `serialize_variant_array`. */
  method SerializeVariantArray(items: seq<Variant>) returns (result: seq<byte>)
    ensures result == Serialize(Arr(items))
    decreases items, 0
  {
    hide Serialize, SerializeItems, ToLE;
    ArraySerializes(Arr(items));
    result := ToLE(|items|, 4);
    assert items[0..] == items;
    for i := 0 to |items|
      invariant result + SerializeItems(items[i..]) == ToLE(|items|, 4) + SerializeItems(items)
    {
      ItemsTurn(items, i);
      var bytes := SerializeVariant(items[i]);
      result := result + bytes;
    }
    NoItems();
    assert items[|items|..] == [];
  }

  /** `serialize_dictionary`: a sized integer, an option, or the values in order. */
  method SerializeDictionary(v: Variant) returns (result: seq<byte>)
    requires v.Dict?
    ensures result == Serialize(v)
    decreases v, 1
  {
    hide Serialize, SerializeEntries, IsTypedPrimitive, IsOption, Lookup, SerializeTypedPrimitive;
    var entries := v.entries;
    DictionarySerializes(v);
    if IsTypedPrimitive(entries) {
      return SerializeTypedPrimitive(entries);
    }
    if IsOption(entries) {
      result := SerializeOption(v);
      return;
    }
    result := [];
    assert entries[0..] == entries;
    for i := 0 to |entries|
      invariant result + SerializeEntries(entries[i..]) == SerializeEntries(entries)
    {
      EntriesTurn(entries, i);
      var bytes := SerializeVariant(entries[i].value);
      result := result + bytes;
    }
    NoItems();
    assert entries[|entries|..] == [];
  }

  /** `serialize_option`. */
  method SerializeOption(v: Variant) returns (result: seq<byte>)
    requires v.Dict?
    ensures result == match Lookup(v.entries, "value")
                      case None => []
                      case Some(value) => if value.Nil? then [0] else [1] + Serialize(value)
    decreases v, 0
  {
    hide Serialize, Lookup;
    match Lookup(v.entries, "value") {
      case None => return [];
      case Some(value) =>
        result := [];
        if value.Nil? {
          result := result + [0];
        } else {
          result := result + [1];
          var bytes := SerializeVariant(value);
          result := result + bytes;
        }
    }
  }

  lemma DictionarySerializes(v: Variant)
    requires v.Dict?
    ensures Serialize(v)
         == if IsTypedPrimitive(v.entries) then SerializeTypedPrimitive(v.entries)
            else if IsOption(v.entries) then
              match Lookup(v.entries, "value")
              case None => []
              case Some(value) => if value.Nil? then [0] else [1] + Serialize(value)
            else SerializeEntries(v.entries)
  {
    hide SerializeEntries, IsTypedPrimitive, IsOption, Lookup, SerializeTypedPrimitive;
  }

  lemma ItemsTurn(items: seq<Variant>, i: nat)
    requires i < |items|
    ensures SerializeItems(items[i..]) == Serialize(items[i]) + SerializeItems(items[i + 1..])
  {
    hide Serialize;
    assert items[i..][1..] == items[i + 1..];
  }

  lemma EntriesTurn(entries: seq<Entry>, i: nat)
    requires i < |entries|
    ensures SerializeEntries(entries[i..]) == Serialize(entries[i].value) + SerializeEntries(entries[i + 1..])
  {
    hide Serialize;
    assert entries[i..][1..] == entries[i + 1..];
  }

  lemma NoItems()
    ensures SerializeItems([]) == [] && SerializeEntries([]) == []
  {
  }

  // Deserialising

  /** `deserialize_variant`; the counter is passed in and out. */
  method DeserializeVariant(idl: Idl, bytes: seq<byte>, ty: Type, consumed: u32, ghost ranks: map<AsciiString, nat>)
    returns (d: Decoded)
    requires Acyclic(idl, ranks)
    ensures d == Deserialize(idl, bytes, ty, consumed, ranks)
    decreases Rank(ty, ranks), ty, 1, 0
  {
    hide DeserializeDict, Acyclic, DecodeInteger, DecodeUnsigned, AsciiText, Slice, Wrap32;
    var counter := consumed;
    match ty {
      case IntType(width, signed) =>
        counter := Wrap32(counter + width);
        d := Ok(Int(DecodeInteger(bytes, width, signed)), counter);
      case StringType =>
        var dataLength := DecodeUnsigned(bytes, 0, 4);
        if |bytes| < dataLength {
          return Ok(Nil, counter);
        }
        counter := Wrap32(counter + Wrap32(4 + dataLength));
        d := Ok(Str(AsciiText(Slice(bytes, 4, 4 + dataLength))), counter);
      case PublicKeyType =>
        counter := Wrap32(counter + 32);
        d := Ok(Pubkey(Slice(bytes, 0, 32)), counter);
      case BoolType =>
        counter := Wrap32(counter + 1);
        if |bytes| < 1 {
          return Ok(Nil, counter);
        }
        d := Ok(Bool(bytes[0] == 1), counter);
      case _ => d := DeserializeDictionary(idl, bytes, ty, counter, ranks);
    }
  }

  /** `deserialize_dict`. */
  method DeserializeDictionary(idl: Idl, bytes: seq<byte>, ty: Type, consumed: u32, ghost ranks: map<AsciiString, nat>)
    returns (d: Decoded)
    requires Acyclic(idl, ranks)
    ensures d == DeserializeDict(idl, bytes, ty, consumed, ranks)
    decreases Rank(ty, ranks), ty, 0, 0
  {
    hide Deserialize, DeserializeFields, DeserializeItems, DecodeUnsigned, SliceFrom, Wrap32;
    match ty {
      case StructKind(fields) => d := DeserializeStruct(idl, bytes, fields, consumed, ranks);
      case EnumKind =>
        if bytes == [] {
          return Crash;
        }
        d := Ok(Int(bytes[0]), Wrap32(consumed + 1));
      case Defined(name) =>
        var idlType := FindIdlType(idl, name);
        if idlType.None? {
          return Ok(Nil, consumed);
        }
        d := DeserializeDictionary(idl, bytes, idlType.value, consumed, ranks);
      case Vec(element) => d := DeserializeVec(idl, bytes, element, consumed, ranks);
      case OptionOf(inner) =>
        var counter := Wrap32(consumed + 1);
        if bytes == [] {
          return Crash;
        }
        if bytes[0] == 0 {
          return Ok(Nil, counter);
        }
        d := DeserializeVariant(idl, bytes[1..], inner, counter, ranks);
      case _ => d := Ok(Nil, consumed);
    }
  }

  /** The field loop of a struct. */
  method DeserializeStruct(idl: Idl, bytes: seq<byte>, fields: seq<Field>, consumed: u32,
                           ghost ranks: map<AsciiString, nat>)
    returns (d: Decoded)
    requires Acyclic(idl, ranks)
    ensures d == DeserializeFields(idl, bytes, fields, [], consumed, ranks)
    decreases FieldsRank(fields, ranks), fields, 2, 0
  {
    hide Deserialize, DeserializeFields, SliceFrom, Wrap32, Put, Acyclic, Rank, FieldsRank;
    var counter: u32 := consumed;
    var result, tempBytes := [], bytes;
    assert fields[0..] == fields;
    for i := 0 to |fields|
      invariant DeserializeFields(idl, tempBytes, fields[i..], result, counter, ranks)
             == DeserializeFields(idl, bytes, fields, [], consumed, ranks)
    {
      FieldRank(fields, i, ranks);
      var field := DeserializeVariant(idl, tempBytes, fields[i].ty, 0, ranks);
      if field.Crash? {
        FieldsCrash(idl, tempBytes, fields[i..], result, counter, ranks);
        return Crash;
      }
      FieldsStep(idl, tempBytes, fields[i..], result, counter, field.value, field.consumed, ranks);
      assert fields[i..][1..] == fields[i + 1..];
      counter := Wrap32(counter + field.consumed);
      tempBytes := SliceFrom(tempBytes, field.consumed);
      result := Put(result, fields[i].name, field.value);
    }
    FieldsEnd(idl, tempBytes, result, counter, ranks);
    d := Ok(Dict(result), counter);
  }

  /** The element loop of a vec, behind its length. */
  method DeserializeVec(idl: Idl, bytes: seq<byte>, element: Type, consumed: u32, ghost ranks: map<AsciiString, nat>)
    returns (d: Decoded)
    requires Acyclic(idl, ranks)
    ensures d == DeserializeDict(idl, bytes, Vec(element), consumed, ranks)
    decreases Rank(element, ranks), element, 3, 0
  {
    hide Deserialize, DeserializeItems, DecodeUnsigned, SliceFrom, Wrap32, Acyclic;
    var arrayLength := DecodeUnsigned(bytes, 0, 4);
    var counter: u32 := Wrap32(consumed + 4);
    var values, tempBytes := [], SliceFrom(bytes, 4);
    ghost var all := DeserializeItems(idl, tempBytes, element, arrayLength, [], counter, ranks);
    for i := 0 to arrayLength
      invariant DeserializeItems(idl, tempBytes, element, arrayLength - i, values, counter, ranks) == all
    {
      var item := DeserializeVariant(idl, tempBytes, element, 0, ranks);
      if item.Crash? {
        ItemsCrash(idl, tempBytes, element, arrayLength - i, values, counter, ranks);
        return Crash;
      }
      ItemsStep(idl, tempBytes, element, arrayLength - i, values, counter, item.value, item.consumed, ranks);
      values := values + [item.value];
      tempBytes := SliceFrom(tempBytes, item.consumed);
      counter := Wrap32(counter + item.consumed);
    }
    ItemsEnd(idl, tempBytes, element, values, counter, ranks);
    d := Ok(Arr(values), counter);
  }

  lemma {:induction false} FieldRank(fields: seq<Field>, i: nat, ranks: map<AsciiString, nat>)
    requires i < |fields|
    ensures Rank(fields[i].ty, ranks) <= FieldsRank(fields, ranks)
  {
    if i > 0 {
      FieldRank(fields[1..], i - 1, ranks);
    }
  }
}
