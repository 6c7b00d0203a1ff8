/** The Anchor wire format in its own terms, byte strings included, and what the
    decoder makes of arrays that are too short. */
module AnchorWire {
  import opened Words
  import opened Options
  import opened LittleEndian
  import opened Text
  import opened AnchorModel
  import opened AnchorRoundTrip

  // What is written

  /** A byte string: its length in four bytes, then its bytes. */
  lemma ByteStringWire(bytes: seq<byte>, rest: seq<byte>)
    requires |bytes| < 0x1_0000_0000
    ensures var b := Serialize(Bytes(bytes));
            |b| == 4 + |bytes| && DecodeUnsigned(b + rest, 0, 4) == |bytes| && b[4..] == bytes
  {
    hide DecodeUnsigned, ToLE;
    LengthReadsBack(|bytes|, bytes + rest);
    assert ToLE(|bytes|, 4) + bytes + rest == ToLE(|bytes|, 4) + (bytes + rest);
  }

  /** A string: its length in four bytes, then its ASCII codes. */
  lemma StringWire(s: AsciiString, rest: seq<byte>)
    requires |s| < 0x1_0000_0000
    ensures var b := Serialize(Str(s));
            && |b| == 4 + |s| && DecodeUnsigned(b + rest, 0, 4) == |s|
            && forall i :: 0 <= i < |s| ==> b[4 + i] == s[i] as int
  {
    hide DecodeUnsigned, ToLE;
    LengthReadsBack(|s|, AsciiBytes(s) + rest);
    assert ToLE(|s|, 4) + AsciiBytes(s) + rest == ToLE(|s|, 4) + (AsciiBytes(s) + rest);
  }

  /** Truths are 0 or 1, keys are their bytes, nothing is nothing, and a plain
      integer is eight bytes of two's complement. */
  lemma PlainWire(flag: bool, key: seq<byte>, n: int)
    requires FitsSigned(n, 8)
    ensures Serialize(Bool(flag)) == [if flag then 1 else 0]
    ensures Serialize(Pubkey(key)) == key && Serialize(Nil) == []
    ensures |Serialize(Int(n))| == 8 && DecodeSigned(Serialize(Int(n)), 0, 8) == n
  {
    hide DecodeSigned, ToLE, FitsSigned;
    DecodesSigned([], n, 8, []);
    assert [] + ToLE(n, 8) + [] == ToLE(n, 8);
  }

  /** The bytes of the first i items. */
  function Before(items: seq<Variant>, i: nat): nat
    requires i <= |items|
  {
    if i == 0 then 0 else Before(items, i - 1) + |Serialize(items[i - 1])|
  }

  lemma {:induction false} BeforeFirst(items: seq<Variant>, i: nat)
    requires 0 < i <= |items|
    ensures Before(items, i) == |Serialize(items[0])| + Before(items[1..], i - 1)
  {
    hide Serialize;
    if i == 1 {
      assert Before(items, 0) == 0 && Before(items[1..], 0) == 0;
    } else {
      BeforeFirst(items, i - 1);
      assert items[1..][i - 2] == items[i - 1];
    }
  }

  lemma {:induction false} ItemsPlaces(items: seq<Variant>, i: nat)
    requires i < |items|
    ensures var (b, at, n) := (SerializeItems(items), Before(items, i), |Serialize(items[i])|);
            at + n <= |b| && b[at..at + n] == Serialize(items[i])
    ensures |SerializeItems(items)| == Before(items, |items|)
  {
    hide Serialize;
    BeforeFirst(items, |items|);
    if |items| == 1 {
      assert items[1..] == [];
    } else {
      ItemsPlaces(items[1..], if i == 0 then 0 else i - 1);
    }
    if i > 0 {
      BeforeFirst(items, i);
    }
  }

  /** An array: the number of its items in four bytes, then each item behind the
      ones before it. */
  lemma ArrayWire(items: seq<Variant>, i: nat)
    requires i < |items| < 0x1_0000_0000
    ensures var (b, at, n) := (Serialize(Arr(items)), 4 + Before(items, i), |Serialize(items[i])|);
            && DecodeUnsigned(b, 0, 4) == |items| && |b| == 4 + Before(items, |items|)
            && at + n <= |b| && b[at..at + n] == Serialize(items[i])
  {
    hide Serialize, SerializeItems, Before, DecodeUnsigned, ToLE;
    ArraySerializes(Arr(items));
    LengthReadsBack(|items|, SerializeItems(items));
    ItemsPlaces(items, i);
  }

  /** The dictionary that `u8` .. `s64` make. */
  function Tagged(dataType: AsciiString, value: Variant): seq<Entry> {
    [Entry("dataType", Str(dataType)), Entry("value", value)]
  }

  lemma TaggedParts(dataType: AsciiString, value: Variant)
    ensures Lookup(Tagged(dataType, value), "dataType") == Some(Str(dataType))
    ensures Lookup(Tagged(dataType, value), "value") == Some(value)
  {
    var entries := Tagged(dataType, value);
    assert Lookup(entries[1..], "value") == Some(value);
  }

  /** The name says how many bytes of two's complement are written. */
  lemma UnsignedWire(n: int)
    ensures Serialize(Dict(Tagged("u8", Int(n)))) == ToLE(n, 1)
    ensures Serialize(Dict(Tagged("u16", Int(n)))) == ToLE(n, 2)
    ensures Serialize(Dict(Tagged("u32", Int(n)))) == ToLE(n, 4)
    ensures Serialize(Dict(Tagged("u64", Int(n)))) == ToLE(n, 8)
  {
    hide Serialize, ToLE, Tagged;
    OneSizedWire("u8", n, 1);
    OneSizedWire("u16", n, 2);
    OneSizedWire("u32", n, 4);
    OneSizedWire("u64", n, 8);
  }

  lemma SignedWire(n: int)
    ensures Serialize(Dict(Tagged("i8", Int(n)))) == ToLE(n, 1)
    ensures Serialize(Dict(Tagged("i16", Int(n)))) == ToLE(n, 2)
    ensures Serialize(Dict(Tagged("i32", Int(n)))) == ToLE(n, 4)
    ensures Serialize(Dict(Tagged("i64", Int(n)))) == ToLE(n, 8)
  {
    hide Serialize, ToLE, Tagged;
    OneSizedWire("i8", n, 1);
    OneSizedWire("i16", n, 2);
    OneSizedWire("i32", n, 4);
    OneSizedWire("i64", n, 8);
  }

  lemma OneSizedWire(dataType: AsciiString, n: int, width: nat)
    requires width == WidthOf(Str(dataType)) > 0
    ensures Serialize(Dict(Tagged(dataType, Int(n)))) == ToLE(n, width)
  {
    hide Lookup, Tagged, ToLE, SerializeEntries;
    TaggedParts(dataType, Int(n));
  }

  /** An option: 0 for nothing, else 1 and the value. */
  lemma OptionWire(value: Variant)
    ensures Serialize(Dict(Tagged("option", value))) == if value == Nil then [0] else [1] + Serialize(value)
  {
    hide Lookup, Tagged, Serialize;
    TaggedParts("option", value);
    OptionDictionary(Dict(Tagged("option", value)), value);
  }

  /** Any other dictionary: its values, in the order they were inserted. */
  lemma PlainDictionaryWire(entries: seq<Entry>)
    requires forall i :: 0 <= i < |entries| ==> entries[i].key != "dataType"
    ensures Serialize(Dict(entries))
         == SerializeItems(seq(|entries|, i requires 0 <= i < |entries| => entries[i].value))
  {
    hide SerializeEntries, SerializeItems;
    PlainDictionary(Dict(entries));
    EntriesAreItems(entries);
  }

  lemma {:induction false} EntriesAreItems(entries: seq<Entry>)
    ensures SerializeEntries(entries)
         == SerializeItems(seq(|entries|, i requires 0 <= i < |entries| => entries[i].value))
  {
    hide Serialize;
    if entries != [] {
      var values := seq(|entries|, i requires 0 <= i < |entries| => entries[i].value);
      EntriesAreItems(entries[1..]);
      assert values[1..] == seq(|entries[1..]|, i requires 0 <= i < |entries[1..]| => entries[1..][i].value);
    }
  }

  // Dictionaries

  /** A key is looked up where it first stands. */
  lemma {:induction false} LooksUpFirst(entries: seq<Entry>, key: AsciiString, i: nat)
    requires i < |entries| && entries[i].key == key && forall j :: 0 <= j < i ==> entries[j].key != key
    ensures Lookup(entries, key) == Some(entries[i].value)
  {
    if i > 0 {
      LooksUpFirst(entries[1..], key, i - 1);
    }
  }

  /** Putting a key replaces its value in place, or appends it, and nothing else. */
  lemma {:induction false} PutsInPlace(entries: seq<Entry>, key: AsciiString, value: Variant, i: nat)
    requires i < |entries| && entries[i].key == key && forall j :: 0 <= j < i ==> entries[j].key != key
    ensures Put(entries, key, value) == entries[i := Entry(key, value)]
  {
    if i > 0 {
      PutsInPlace(entries[1..], key, value, i - 1);
    }
  }

  // What is read from arrays that are too short, or mean something else

  /** A string longer than the whole array is nothing, and nothing is counted. */
  lemma StringTooLong(idl: Idl, bytes: seq<byte>, consumed: u32, ranks: map<AsciiString, nat>)
    requires Acyclic(idl, ranks) && |bytes| < DecodeUnsigned(bytes, 0, 4)
    ensures Deserialize(idl, bytes, StringType, consumed, ranks) == Ok(Nil, consumed)
  {
    hide DecodeUnsigned, Acyclic, DeserializeDict;
  }

  /** Of a truth only 1 is true; a missing one is nothing, but is counted. */
  lemma TruthRead(idl: Idl, bytes: seq<byte>, ranks: map<AsciiString, nat>)
    requires Acyclic(idl, ranks)
    ensures Deserialize(idl, bytes, BoolType, 0, ranks)
         == Ok(if bytes == [] then Nil else Bool(bytes[0] == 1), 1)
  {
    hide Acyclic, DeserializeDict;
  }

  /** Integers that are not there are 0, and are counted. */
  lemma IntegerMissing(idl: Idl, bytes: seq<byte>, width: nat, signed: bool, ranks: map<AsciiString, nat>)
    requires Acyclic(idl, ranks) && IsWidth(width) && |bytes| < width
    ensures Deserialize(idl, bytes, IntType(width, signed), 0, ranks) == Ok(Int(0), width)
  {
    hide Acyclic, DeserializeDict, Pow256;
    SmallFits(width);
    SmallPow256();
  }

  /** A key is what is there of the next 32 bytes, which are counted. */
  lemma KeyRead(idl: Idl, bytes: seq<byte>, ranks: map<AsciiString, nat>)
    requires Acyclic(idl, ranks)
    ensures Deserialize(idl, bytes, PublicKeyType, 0, ranks)
         == Ok(Pubkey(if |bytes| < 32 then bytes else bytes[..32]), 32)
  {
    hide Acyclic, DeserializeDict;
    assert |bytes| < 32 ==> bytes[0..] == bytes;
  }

  /** An enum is one byte, an option is nothing behind a 0 and its value behind
      anything else; both crash on an empty array. */
  lemma EnumAndOptionRead(idl: Idl, bytes: seq<byte>, inner: Type, ranks: map<AsciiString, nat>)
    requires Acyclic(idl, ranks)
    ensures Deserialize(idl, bytes, EnumKind, 0, ranks) == if bytes == [] then Crash else Ok(Int(bytes[0]), 1)
    ensures Deserialize(idl, bytes, OptionOf(inner), 0, ranks)
         == if bytes == [] then Crash
            else if bytes[0] == 0 then Ok(Nil, 1)
            else match Deserialize(idl, bytes[1..], inner, 0, ranks)
                 case Crash => Crash
                 case Ok(value, n) => Ok(value, Wrap32(1 + n))
  {
    hide Acyclic, Deserialize, DeserializeFields, DeserializeItems, Wrap32;
    SmallFits(1);
    Dispatched(idl, bytes, EnumKind, 0, ranks);
    Dispatched(idl, bytes, OptionOf(inner), 0, ranks);
    if bytes != [] && bytes[0] != 0 {
      CounterOnlyAdds(idl, bytes[1..], inner, 1, ranks);
    }
  }

  /** A defined type is read as the first type of its name, or, when there is none,
      as nothing. */
  lemma DefinedRead(idl: Idl, bytes: seq<byte>, name: AsciiString, i: nat, ranks: map<AsciiString, nat>)
    requires Acyclic(idl, ranks)
    ensures IsFirstNamed(idl, name, i) && IsDictionaryType(idl[i].body) ==>
              Deserialize(idl, bytes, Defined(name), 0, ranks) == Deserialize(idl, bytes, idl[i].body, 0, ranks)
    ensures (forall j :: 0 <= j < |idl| ==> idl[j].name != name) ==>
              Deserialize(idl, bytes, Defined(name), 0, ranks) == Ok(Nil, 0)
  {
    hide Acyclic, Deserialize, DeserializeFields, DeserializeItems, Wrap32, FindIdlType, SliceFrom, DecodeUnsigned;
    Dispatched(idl, bytes, Defined(name), 0, ranks);
    FindsNoneIff(idl, name);
    if IsFirstNamed(idl, name, i) && IsDictionaryType(idl[i].body) {
      FindsFirst(idl, name, i);
      Dispatched(idl, bytes, idl[i].body, 0, ranks);
    }
  }
}
