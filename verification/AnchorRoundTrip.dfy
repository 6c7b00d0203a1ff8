/** Decoding undoes encoding for every well-typed value, and the two ways of
    counting consumed bytes agree. */
module AnchorRoundTrip {
  import opened Words
  import opened Options
  import opened LittleEndian
  import opened Text
  import opened AnchorModel

  // One step of each decoder

  lemma FieldsStep(idl: Idl, bytes: seq<byte>, fields: seq<Field>, done: seq<Entry>, consumed: u32,
                   value: Variant, offset: u32, ranks: map<AsciiString, nat>)
    requires Acyclic(idl, ranks) && fields != []
    requires Deserialize(idl, bytes, fields[0].ty, 0, ranks) == Ok(value, offset)
    ensures DeserializeFields(idl, bytes, fields, done, consumed, ranks)
         == DeserializeFields(idl, SliceFrom(bytes, offset), fields[1..], Put(done, fields[0].name, value),
                              Wrap32(consumed + offset), ranks)
  {
    hide Deserialize, Wrap32, SliceFrom, Put, Acyclic;
  }

  lemma FieldsEnd(idl: Idl, bytes: seq<byte>, done: seq<Entry>, consumed: u32, ranks: map<AsciiString, nat>)
    requires Acyclic(idl, ranks)
    ensures DeserializeFields(idl, bytes, [], done, consumed, ranks) == Ok(Dict(done), consumed)
  {
  }

  lemma ItemsStep(idl: Idl, bytes: seq<byte>, element: Type, length: nat, done: seq<Variant>, consumed: u32,
                  value: Variant, offset: u32, ranks: map<AsciiString, nat>)
    requires Acyclic(idl, ranks) && length > 0
    requires Deserialize(idl, bytes, element, 0, ranks) == Ok(value, offset)
    ensures DeserializeItems(idl, bytes, element, length, done, consumed, ranks)
         == DeserializeItems(idl, SliceFrom(bytes, offset), element, length - 1, done + [value],
                             Wrap32(consumed + offset), ranks)
  {
    hide Deserialize, Wrap32, SliceFrom, Acyclic;
  }

  lemma ItemsEnd(idl: Idl, bytes: seq<byte>, element: Type, done: seq<Variant>, consumed: u32,
                 ranks: map<AsciiString, nat>)
    requires Acyclic(idl, ranks)
    ensures DeserializeItems(idl, bytes, element, 0, done, consumed, ranks) == Ok(Arr(done), consumed)
  {
  }

  lemma FieldsCrash(idl: Idl, bytes: seq<byte>, fields: seq<Field>, done: seq<Entry>, consumed: u32,
                    ranks: map<AsciiString, nat>)
    requires Acyclic(idl, ranks) && fields != []
    requires Deserialize(idl, bytes, fields[0].ty, 0, ranks).Crash?
    ensures DeserializeFields(idl, bytes, fields, done, consumed, ranks).Crash?
  {
    hide Deserialize, Wrap32, SliceFrom, Put, Acyclic;
  }

  lemma ItemsCrash(idl: Idl, bytes: seq<byte>, element: Type, length: nat, done: seq<Variant>, consumed: u32,
                   ranks: map<AsciiString, nat>)
    requires Acyclic(idl, ranks) && length > 0
    requires Deserialize(idl, bytes, element, 0, ranks).Crash?
    ensures DeserializeItems(idl, bytes, element, length, done, consumed, ranks).Crash?
  {
    hide Deserialize, Wrap32, SliceFrom, Acyclic;
  }

  // The counter

  predicate IsDictionaryType(ty: Type) {
    ty.StructKind? || ty.EnumKind? || ty.Defined? || ty.Vec? || ty.OptionOf?
  }

  lemma SmallFits(n: int)
    requires 0 <= n < 0x1_0000_0000
    ensures Wrap32(n) == n
  {
  }

  predicate Shifted(d: Decoded, d0: Decoded, consumed: u32) {
    match d0
    case Crash => d.Crash?
    case Ok(value, offset) => d == Ok(value, Wrap32(consumed + offset))
  }

  lemma WrapShift(a: u32, b: int, c: int)
    ensures Wrap32(Wrap32(a + b) + c) == Wrap32(a + Wrap32(b + c))
    ensures Wrap32(a + Wrap32(b)) == Wrap32(a + b)
  {
  }

  /** The counter a decoder is started with is only added to: on all bytes,
      whether well formed or not, an accumulated counter and one that starts
      from zero give the same value and the same number of bytes. */
  lemma {:induction false} CounterOnlyAdds(idl: Idl, bytes: seq<byte>, ty: Type, consumed: u32,
                                           ranks: map<AsciiString, nat>)
    requires Acyclic(idl, ranks)
    ensures Shifted(Deserialize(idl, bytes, ty, consumed, ranks), Deserialize(idl, bytes, ty, 0, ranks), consumed)
    decreases Rank(ty, ranks), ty, 1, 0
  {
    hide Deserialize, DeserializeDict, Acyclic, Wrap32;
    if IsDictionaryType(ty) {
      DictCounterOnlyAdds(idl, bytes, ty, consumed, ranks);
      Dispatched(idl, bytes, ty, consumed, ranks);
      Dispatched(idl, bytes, ty, 0, ranks);
    } else {
      PrimitiveCounter(idl, bytes, ty, consumed, ranks);
    }
  }

  lemma PrimitiveCounter(idl: Idl, bytes: seq<byte>, ty: Type, consumed: u32, ranks: map<AsciiString, nat>)
    requires Acyclic(idl, ranks) && !IsDictionaryType(ty)
    ensures Shifted(Deserialize(idl, bytes, ty, consumed, ranks), Deserialize(idl, bytes, ty, 0, ranks), consumed)
  {
    hide DeserializeDict, Acyclic, Wrap32, DecodeUnsigned, DecodeInteger, AsciiText, Slice;
    SmallFits(consumed);
    match ty
    case IntType(width, signed) => WrapShift(consumed, width, 0);
    case StringType => WrapShift(consumed, Wrap32(4 + DecodeUnsigned(bytes, 0, 4)), 0);
    case PublicKeyType => WrapShift(consumed, 32, 0);
    case BoolType => WrapShift(consumed, 1, 0);
  }

  lemma Dispatched(idl: Idl, bytes: seq<byte>, ty: Type, consumed: u32, ranks: map<AsciiString, nat>)
    requires Acyclic(idl, ranks) && IsDictionaryType(ty)
    ensures Deserialize(idl, bytes, ty, consumed, ranks) == DeserializeDict(idl, bytes, ty, consumed, ranks)
  {
    hide DeserializeDict, Acyclic;
  }

  lemma {:induction false} DictCounterOnlyAdds(idl: Idl, bytes: seq<byte>, ty: Type, consumed: u32,
                                               ranks: map<AsciiString, nat>)
    requires Acyclic(idl, ranks)
    ensures Shifted(DeserializeDict(idl, bytes, ty, consumed, ranks), DeserializeDict(idl, bytes, ty, 0, ranks),
                    consumed)
    decreases Rank(ty, ranks), ty, 0, 0
  {
    hide Deserialize, DeserializeFields, DeserializeItems, Wrap32, DecodeUnsigned, SliceFrom;
    SmallFits(consumed);
    SmallFits(4);
    SmallFits(1);
    match ty
    case StructKind(fields) => FieldsCounterOnlyAdds(idl, bytes, fields, [], consumed, 0, ranks);
    case Defined(name) =>
      if FindIdlType(idl, name).Some? {
        DictCounterOnlyAdds(idl, bytes, FindIdlType(idl, name).value, consumed, ranks);
      }
    case Vec(element) =>
      ItemsCounterOnlyAdds(idl, SliceFrom(bytes, 4), element, DecodeUnsigned(bytes, 0, 4), [], consumed, 4, ranks);
    case OptionOf(inner) =>
      if bytes != [] && bytes[0] != 0 {
        CounterOnlyAdds(idl, bytes[1..], inner, Wrap32(consumed + 1), ranks);
        CounterOnlyAdds(idl, bytes[1..], inner, 1, ranks);
        match Deserialize(idl, bytes[1..], inner, 0, ranks) {
          case Crash =>
          case Ok(value, offset) => WrapShift(consumed, 1, offset);
        }
      }
    case _ =>
  }

  lemma {:induction false} FieldsCounterOnlyAdds(idl: Idl, bytes: seq<byte>, fields: seq<Field>, result: seq<Entry>,
                                                 consumed: u32, start: u32, ranks: map<AsciiString, nat>)
    requires Acyclic(idl, ranks)
    ensures Shifted(DeserializeFields(idl, bytes, fields, result, Wrap32(consumed + start), ranks),
                    DeserializeFields(idl, bytes, fields, result, start, ranks), consumed)
    decreases FieldsRank(fields, ranks), fields, 0, 0
  {
    hide Deserialize, DeserializeFields, Wrap32, SliceFrom, Put, Acyclic;
    var from := Wrap32(consumed + start);
    if fields == [] {
      FieldsEnd(idl, bytes, result, from, ranks);
      FieldsEnd(idl, bytes, result, start, ranks);
    } else {
      match Deserialize(idl, bytes, fields[0].ty, 0, ranks)
      case Crash =>
        FieldsCrash(idl, bytes, fields, result, from, ranks);
        FieldsCrash(idl, bytes, fields, result, start, ranks);
      case Ok(value, offset) =>
        WrapShift(consumed, start, offset);
        FieldsStep(idl, bytes, fields, result, from, value, offset, ranks);
        FieldsStep(idl, bytes, fields, result, start, value, offset, ranks);
        FieldsCounterOnlyAdds(idl, SliceFrom(bytes, offset), fields[1..], Put(result, fields[0].name, value),
                              consumed, Wrap32(start + offset), ranks);
    }
  }

  lemma {:induction false} ItemsCounterOnlyAdds(idl: Idl, bytes: seq<byte>, element: Type, length: nat,
                                                values: seq<Variant>, consumed: u32, start: u32,
                                                ranks: map<AsciiString, nat>)
    requires Acyclic(idl, ranks)
    ensures Shifted(DeserializeItems(idl, bytes, element, length, values, Wrap32(consumed + start), ranks),
                    DeserializeItems(idl, bytes, element, length, values, start, ranks), consumed)
    decreases Rank(element, ranks), element, 2, length
  {
    hide Deserialize, DeserializeItems, Wrap32, SliceFrom, Acyclic;
    var from := Wrap32(consumed + start);
    if length == 0 {
      ItemsEnd(idl, bytes, element, values, from, ranks);
      ItemsEnd(idl, bytes, element, values, start, ranks);
    } else {
      match Deserialize(idl, bytes, element, 0, ranks)
      case Crash =>
        ItemsCrash(idl, bytes, element, length, values, from, ranks);
        ItemsCrash(idl, bytes, element, length, values, start, ranks);
      case Ok(value, offset) =>
        WrapShift(consumed, start, offset);
        ItemsStep(idl, bytes, element, length, values, from, value, offset, ranks);
        ItemsStep(idl, bytes, element, length, values, start, value, offset, ranks);
        ItemsCounterOnlyAdds(idl, SliceFrom(bytes, offset), element, length - 1, values + [value],
                             consumed, Wrap32(start + offset), ranks);
    }
  }

  // Well-typed values

  predicate IsWidth(width: nat) {
    width == 1 || width == 2 || width == 4 || width == 8
  }

  predicate Fits(n: int, width: nat, signed: bool) {
    if signed || width == 8 then FitsSigned(n, width) else FitsUnsigned(n, width)
  }

  /** A dictionary made by `u8` .. `s64`: an integer with the name of its width. */
  predicate IsSized(v: Variant, width: nat, signed: bool) {
    && v.Dict?
    && Lookup(v.entries, "dataType") == Some(Str(IntName(width, signed)))
    && Lookup(v.entries, "value").Some? && Lookup(v.entries, "value").value.Int?
    && Fits(Lookup(v.entries, "value").value.i, width, signed)
  }

  predicate DistinctNames(fields: seq<Field>) {
    forall i, j :: 0 <= i < j < |fields| ==> fields[i].name != fields[j].name
  }

  /** The values a type describes. A struct must not look like a sized integer or
      an option: its dictionary would be serialised as one. */
  ghost predicate WellTyped(idl: Idl, v: Variant, ty: Type, ranks: map<AsciiString, nat>)
    requires Acyclic(idl, ranks)
    decreases Rank(ty, ranks), ty, 1
  {
    match ty
    case IntType(width, signed) =>
      IsWidth(width) && (IsSized(v, width, signed) || (width == 8 && v.Int? && FitsSigned(v.i, 8)))
    case BoolType => v.Bool?
    case StringType => v.Str? && |v.s| < 0x1_0000_0000 && NulFree(v.s)
    case PublicKeyType => v.Pubkey? && |v.key| == 32
    case EnumKind => IsSized(v, 1, false)
    case StructKind(fields) =>
      v.Dict? && !IsTypedPrimitive(v.entries) && !IsOption(v.entries) && DistinctNames(fields)
      && FieldsTyped(idl, v.entries, fields, ranks)
    case Defined(name) =>
      exists i: nat ::
        IsFirstNamed(idl, name, i) && IsDictionaryType(idl[i].body) && WellTyped(idl, v, idl[i].body, ranks)
    case Vec(element) =>
      v.Arr? && |v.items| < 0x1_0000_0000
      && forall i :: 0 <= i < |v.items| ==> WellTyped(idl, v.items[i], element, ranks)
    case OptionOf(inner) =>
      v.Dict? && IsOption(v.entries) && Lookup(v.entries, "value").Some?
      && (Lookup(v.entries, "value").value.Nil? || WellTyped(idl, Lookup(v.entries, "value").value, inner, ranks))
  }

  ghost predicate FieldsTyped(idl: Idl, entries: seq<Entry>, fields: seq<Field>, ranks: map<AsciiString, nat>)
    requires Acyclic(idl, ranks)
    decreases FieldsRank(fields, ranks), fields, 0
  {
    |entries| == |fields|
    && (fields != [] ==>
          entries[0].key == fields[0].name && WellTyped(idl, entries[0].value, fields[0].ty, ranks)
          && FieldsTyped(idl, entries[1..], fields[1..], ranks))
  }

  /** A value without its width tags and option wrappers. */
  function Erase(v: Variant): Variant
    decreases v, 1
  {
    match v
    case Arr(items) => Arr(EraseItems(items))
    case Dict(entries) =>
      if IsTypedPrimitive(entries) then Lookup(entries, "value").value
      else if IsOption(entries) then
        (match Lookup(entries, "value")
         case None => Nil
         case Some(value) => Erase(value))
      else Dict(EraseEntries(entries))
    case _ => v
  }

  function EraseItems(items: seq<Variant>): seq<Variant>
    decreases items, 0
  {
    if items == [] then [] else [Erase(items[0])] + EraseItems(items[1..])
  }

  function EraseEntries(entries: seq<Entry>): seq<Entry>
    decreases entries, 0
  {
    if entries == [] then [] else [Entry(entries[0].key, Erase(entries[0].value))] + EraseEntries(entries[1..])
  }

  /** A value is read back from the front of the array, whatever follows. */
  predicate ReadsBack(idl: Idl, v: Variant, ty: Type, rest: seq<byte>, ghost ranks: map<AsciiString, nat>)
    requires Acyclic(idl, ranks)
  {
    && |Serialize(v)| < 0x1_0000_0000
    && Deserialize(idl, Serialize(v) + rest, ty, 0, ranks) == Ok(Erase(v), |Serialize(v)|)
  }

  lemma IntReadsBack(n: int, width: nat, signed: bool, rest: seq<byte>)
    requires IsWidth(width) && Fits(n, width, signed)
    ensures DecodeInteger(ToLE(n, width) + rest, width, signed) == n
  {
    assert [] + ToLE(n, width) + rest == ToLE(n, width) + rest;
    if signed || width == 8 {
      DecodesSigned([], n, width, rest);
    } else {
      DecodesUnsigned([], n, width, rest);
    }
  }

  lemma SizedSerializes(v: Variant, width: nat, signed: bool)
    requires IsWidth(width) && IsSized(v, width, signed)
    ensures Serialize(v) == ToLE(Lookup(v.entries, "value").value.i, width)
    ensures Erase(v) == Lookup(v.entries, "value").value
  {
    hide Lookup, IntName, WidthOf, SerializeEntries, EraseEntries, ToLE, Fits;
    NameHasWidth(width, signed);
  }

  lemma NameHasWidth(width: nat, signed: bool)
    requires IsWidth(width)
    ensures WidthOf(Str(IntName(width, signed))) == width && IntName(width, signed) != "option"
  {
  }

  lemma LengthReadsBack(n: nat, rest: seq<byte>)
    requires n < 0x1_0000_0000
    ensures DecodeUnsigned(ToLE(n, 4) + rest, 0, 4) == n
  {
    SmallPow256();
    assert [] + ToLE(n, 4) + rest == ToLE(n, 4) + rest;
    DecodesUnsigned([], n, 4, rest);
  }

  lemma StringReadsBack(s: AsciiString, rest: seq<byte>)
    requires |s| < 0x1_0000_0000
    ensures var bytes := ToLE(|s|, 4) + AsciiBytes(s) + rest;
            && DecodeUnsigned(bytes, 0, 4) == |s| && |bytes| >= 4 + |s|
            && (AsciiText(Slice(bytes, 4, 4 + |s|)) == s <==> NulFree(s))
  {
    var bytes := ToLE(|s|, 4) + AsciiBytes(s) + rest;
    assert bytes == ToLE(|s|, 4) + (AsciiBytes(s) + rest);
    LengthReadsBack(|s|, AsciiBytes(s) + rest);
    assert bytes[4..4 + |s|] == AsciiBytes(s);
    TextReadsBack(s);
  }

  lemma AfterFirst(a: seq<byte>, b: seq<byte>, rest: seq<byte>)
    ensures a + b + rest == a + (b + rest)
    ensures SliceFrom(a + b + rest, |a|) == b + rest
  {
  }

  lemma {:induction false} PutNew(entries: seq<Entry>, key: AsciiString, value: Variant)
    requires forall i :: 0 <= i < |entries| ==> entries[i].key != key
    ensures Put(entries, key, value) == entries + [Entry(key, value)]
  {
    if entries != [] {
      PutNew(entries[1..], key, value);
    }
  }

  predicate NewNames(done: seq<Entry>, fields: seq<Field>) {
    forall i, j :: 0 <= i < |done| && 0 <= j < |fields| ==> done[i].key != fields[j].name
  }

  lemma NamesStep(done: seq<Entry>, fields: seq<Field>, value: Variant)
    requires fields != [] && DistinctNames(fields) && NewNames(done, fields)
    ensures DistinctNames(fields[1..]) && NewNames(done + [Entry(fields[0].name, value)], fields[1..])
    ensures Put(done, fields[0].name, value) == done + [Entry(fields[0].name, value)]
  {
    PutNew(done, fields[0].name, value);
  }

  lemma PlainDictionary(v: Variant)
    requires v.Dict? && !IsTypedPrimitive(v.entries) && !IsOption(v.entries)
    ensures Serialize(v) == SerializeEntries(v.entries) && Erase(v) == Dict(EraseEntries(v.entries))
  {
    hide SerializeEntries, EraseEntries, IsTypedPrimitive, IsOption, Lookup;
  }

  lemma OptionDictionary(v: Variant, value: Variant)
    requires v.Dict? && IsOption(v.entries) && Lookup(v.entries, "value") == Some(value)
    ensures Serialize(v) == if value.Nil? then [0] else [1] + Serialize(value)
    ensures Erase(v) == if value.Nil? then Nil else Erase(value)
  {
    hide SerializeEntries, EraseEntries, Lookup;
    assert Erase(Nil) == Nil;
  }

  lemma ArraySerializes(v: Variant)
    requires v.Arr?
    ensures Serialize(v) == ToLE(|v.items|, 4) + SerializeItems(v.items) && Erase(v) == Arr(EraseItems(v.items))
  {
  }

  // Round trip

  /** Decoding the encoding of a well-typed value, followed by anything at all,
      gives the value back with its width tags erased, and counts exactly the
      bytes of the encoding. */
  lemma {:induction false} RoundTrip(idl: Idl, v: Variant, ty: Type, rest: seq<byte>, ranks: map<AsciiString, nat>)
    requires Acyclic(idl, ranks) && WellTyped(idl, v, ty, ranks)
    requires |Serialize(v)| < 0x1_0000_0000
    ensures ReadsBack(idl, v, ty, rest, ranks)
    decreases Rank(ty, ranks), ty, 1, 0
  {
    if IsDictionaryType(ty) {
      DictRoundTrip(idl, v, ty, rest, ranks);
      Dispatched(idl, Serialize(v) + rest, ty, 0, ranks);
    } else {
      PrimitiveRoundTrip(idl, v, ty, rest, ranks);
    }
  }

  lemma PrimitiveRoundTrip(idl: Idl, v: Variant, ty: Type, rest: seq<byte>, ranks: map<AsciiString, nat>)
    requires Acyclic(idl, ranks) && WellTyped(idl, v, ty, ranks) && !IsDictionaryType(ty)
    requires |Serialize(v)| < 0x1_0000_0000
    ensures ReadsBack(idl, v, ty, rest, ranks)
  {
    hide Deserialize, Acyclic, Lookup, Serialize, Erase, IsSized, FitsSigned;
    match ty
    case IntType(width, signed) => IntRoundTrip(idl, v, width, signed, rest, ranks);
    case BoolType => BoolRoundTrip(idl, v, rest, ranks);
    case StringType => StringRoundTrip(idl, v, rest, ranks);
    case PublicKeyType => KeyRoundTrip(idl, v, rest, ranks);
  }

  lemma IntRoundTrip(idl: Idl, v: Variant, width: nat, signed: bool, rest: seq<byte>, ranks: map<AsciiString, nat>)
    requires Acyclic(idl, ranks) && IsWidth(width)
    requires IsSized(v, width, signed) || (width == 8 && v.Int? && FitsSigned(v.i, 8))
    ensures ReadsBack(idl, v, IntType(width, signed), rest, ranks)
  {
    hide DeserializeDict, Acyclic, Lookup, Serialize, Erase, DecodeInteger, ToLE, FitsSigned, FitsUnsigned;
    SmallFits(width);
    if v.Dict? {
      SizedSerializes(v, width, signed);
      IntReadsBack(Lookup(v.entries, "value").value.i, width, signed, rest);
    } else {
      PlainSerializes(v);
      IntReadsBack(v.i, width, signed, rest);
    }
  }

  lemma BoolRoundTrip(idl: Idl, v: Variant, rest: seq<byte>, ranks: map<AsciiString, nat>)
    requires Acyclic(idl, ranks) && v.Bool?
    ensures ReadsBack(idl, v, BoolType, rest, ranks)
  {
    hide DeserializeDict, Acyclic, Serialize, Erase;
    PlainSerializes(v);
  }

  /** A string is read back, whatever follows it, exactly when it holds no zero. */
  lemma StringRoundTrip(idl: Idl, v: Variant, rest: seq<byte>, ranks: map<AsciiString, nat>)
    requires Acyclic(idl, ranks) && v.Str? && |v.s| < 0x1_0000_0000
    requires |Serialize(v)| < 0x1_0000_0000
    ensures ReadsBack(idl, v, StringType, rest, ranks) <==> NulFree(v.s)
  {
    hide DeserializeDict, Acyclic, Serialize, Erase, ToLE, AsciiText, AsciiBytes, NulFree, DecodeUnsigned, Slice,
      Wrap32;
    PlainSerializes(v);
    StringReadsBack(v.s, rest);
    SmallFits(4 + |v.s|);
  }

  lemma KeyRoundTrip(idl: Idl, v: Variant, rest: seq<byte>, ranks: map<AsciiString, nat>)
    requires Acyclic(idl, ranks) && v.Pubkey? && |v.key| == 32
    ensures ReadsBack(idl, v, PublicKeyType, rest, ranks)
  {
    hide DeserializeDict, Acyclic, Serialize, Erase;
    PlainSerializes(v);
    assert Slice(v.key + rest, 0, 32) == v.key;
  }

  lemma PlainSerializes(v: Variant)
    requires v.Bool? || v.Int? || v.Str? || v.Pubkey?
    ensures Erase(v) == v
    ensures Serialize(v) == match v
                            case Bool(flag) => [if flag then 1 else 0]
                            case Int(i) => ToLE(i, 8)
                            case Str(s) => ToLE(|s|, 4) + AsciiBytes(s)
                            case Pubkey(key) => key
                            case _ => []
  {
    hide ToLE, AsciiBytes;
  }

  lemma {:induction false} DictRoundTrip(idl: Idl, v: Variant, ty: Type, rest: seq<byte>, ranks: map<AsciiString, nat>)
    requires Acyclic(idl, ranks) && WellTyped(idl, v, ty, ranks) && IsDictionaryType(ty)
    requires |Serialize(v)| < 0x1_0000_0000
    ensures DeserializeDict(idl, Serialize(v) + rest, ty, 0, ranks) == Ok(Erase(v), |Serialize(v)|)
    decreases Rank(ty, ranks), ty, 0, 0
  {
    hide Serialize, Erase, Lookup, IsTypedPrimitive, IsOption, IsSized, DeserializeFields, DeserializeItems,
      Deserialize, SliceFrom;
    match ty
    case StructKind(fields) => StructRoundTrip(idl, v, fields, rest, ranks);
    case EnumKind => EnumRoundTrip(idl, v, rest, ranks);
    case Defined(name) =>
      var i: nat :|
        IsFirstNamed(idl, name, i) && IsDictionaryType(idl[i].body) && WellTyped(idl, v, idl[i].body, ranks);
      FindsFirst(idl, name, i);
      DictRoundTrip(idl, v, idl[i].body, rest, ranks);
    case Vec(element) => VecRoundTrip(idl, v, element, rest, ranks);
    case OptionOf(inner) => OptionRoundTrip(idl, v, inner, rest, ranks);
  }

  lemma {:induction false} StructRoundTrip(idl: Idl, v: Variant, fields: seq<Field>, rest: seq<byte>,
                                           ranks: map<AsciiString, nat>)
    requires Acyclic(idl, ranks) && v.Dict? && !IsTypedPrimitive(v.entries) && !IsOption(v.entries)
    requires FieldsTyped(idl, v.entries, fields, ranks) && DistinctNames(fields)
    requires |Serialize(v)| < 0x1_0000_0000
    ensures DeserializeDict(idl, Serialize(v) + rest, StructKind(fields), 0, ranks) == Ok(Erase(v), |Serialize(v)|)
    decreases FieldsRank(fields, ranks), fields, 1, 0
  {
    hide Serialize, Erase, SerializeEntries, EraseEntries, IsTypedPrimitive, IsOption, Wrap32, DeserializeFields,
      FieldsTyped, Acyclic;
    PlainDictionary(v);
    SmallFits(|Serialize(v)|);
    FieldsRoundTrip(idl, v.entries, fields, [], 0, rest, ranks);
    assert [] + EraseEntries(v.entries) == EraseEntries(v.entries);
  }

  lemma {:induction false} VecRoundTrip(idl: Idl, v: Variant, element: Type, rest: seq<byte>,
                                        ranks: map<AsciiString, nat>)
    requires Acyclic(idl, ranks) && v.Arr? && |v.items| < 0x1_0000_0000
    requires forall i :: 0 <= i < |v.items| ==> WellTyped(idl, v.items[i], element, ranks)
    requires |Serialize(v)| < 0x1_0000_0000
    ensures DeserializeDict(idl, Serialize(v) + rest, Vec(element), 0, ranks) == Ok(Erase(v), |Serialize(v)|)
    decreases Rank(element, ranks), element, 3, 0
  {
    hide Serialize, Erase, SerializeItems, EraseItems, Wrap32, ToLE, DeserializeItems, DecodeUnsigned, SliceFrom,
      WellTyped, Acyclic;
    var (n, items) := (ToLE(|v.items|, 4), SerializeItems(v.items));
    SmallFits(|Serialize(v)|);
    ArraySerializes(v);
    AfterFirst(n, items, rest);
    LengthReadsBack(|v.items|, items + rest);
    SmallFits(4);
    ItemsRoundTrip(idl, v.items, element, [], 4, rest, ranks);
    assert [] + EraseItems(v.items) == EraseItems(v.items);
  }

  lemma EnumRoundTrip(idl: Idl, v: Variant, rest: seq<byte>, ranks: map<AsciiString, nat>)
    requires Acyclic(idl, ranks) && IsSized(v, 1, false)
    ensures DeserializeDict(idl, Serialize(v) + rest, EnumKind, 0, ranks) == Ok(Erase(v), |Serialize(v)|)
  {
    hide Serialize, Erase, Lookup, Acyclic, ToLE;
    var n := Lookup(v.entries, "value").value.i;
    SizedSerializes(v, 1, false);
    IntReadsBack(n, 1, false, rest);
    EnumByte(ToLE(n, 1), rest);
  }

  lemma EnumByte(b: seq<byte>, rest: seq<byte>)
    requires |b| == 1
    ensures DecodeInteger(b + rest, 1, false) == (b + rest)[0]
  {
    assert (b + rest)[0..1] == b;
    assert FromLE(b) == b[0] + 256 * FromLE(b[1..]);
  }

  lemma {:induction false} OptionRoundTrip(idl: Idl, v: Variant, inner: Type, rest: seq<byte>,
                                           ranks: map<AsciiString, nat>)
    requires Acyclic(idl, ranks) && WellTyped(idl, v, OptionOf(inner), ranks)
    requires |Serialize(v)| < 0x1_0000_0000
    ensures DeserializeDict(idl, Serialize(v) + rest, OptionOf(inner), 0, ranks) == Ok(Erase(v), |Serialize(v)|)
    decreases Rank(inner, ranks), inner, 3, 0
  {
    hide Serialize, Erase, Lookup, IsOption, Wrap32, Deserialize, Acyclic;
    var value := Lookup(v.entries, "value").value;
    OptionDictionary(v, value);
    SmallFits(|Serialize(v)|);
    SmallFits(1);
    if !value.Nil? {
      var bytes := Serialize(value);
      RoundTrip(idl, value, inner, rest, ranks);
      assert ([1] + bytes + rest)[1..] == bytes + rest;
      CounterOnlyAdds(idl, bytes + rest, inner, 1, ranks);
      SmallFits(|bytes|);
    }
  }

  lemma EntriesSplit(idl: Idl, entries: seq<Entry>, fields: seq<Field>, ranks: map<AsciiString, nat>)
    requires Acyclic(idl, ranks) && FieldsTyped(idl, entries, fields, ranks) && fields != []
    ensures entries != [] && entries[0].key == fields[0].name
    ensures WellTyped(idl, entries[0].value, fields[0].ty, ranks) && FieldsTyped(idl, entries[1..], fields[1..], ranks)
    ensures SerializeEntries(entries) == Serialize(entries[0].value) + SerializeEntries(entries[1..])
    ensures EraseEntries(entries) == [Entry(fields[0].name, Erase(entries[0].value))] + EraseEntries(entries[1..])
    ensures Rank(fields[0].ty, ranks) <= FieldsRank(fields, ranks)
    ensures FieldsRank(fields[1..], ranks) <= FieldsRank(fields, ranks)
  {
    hide Acyclic, WellTyped, Serialize, Erase;
  }

  lemma NoEntries(idl: Idl, entries: seq<Entry>, ranks: map<AsciiString, nat>)
    requires Acyclic(idl, ranks) && FieldsTyped(idl, entries, [], ranks)
    ensures SerializeEntries(entries) == [] && EraseEntries(entries) == []
  {
    hide Acyclic;
  }

  lemma {:induction false} FieldsRoundTrip(idl: Idl, entries: seq<Entry>, fields: seq<Field>, done: seq<Entry>,
                                           consumed: u32, rest: seq<byte>, ranks: map<AsciiString, nat>)
    requires Acyclic(idl, ranks) && FieldsTyped(idl, entries, fields, ranks)
    requires DistinctNames(fields) && NewNames(done, fields)
    requires |SerializeEntries(entries)| < 0x1_0000_0000
    ensures DeserializeFields(idl, SerializeEntries(entries) + rest, fields, done, consumed, ranks)
         == Ok(Dict(done + EraseEntries(entries)), Wrap32(consumed + |SerializeEntries(entries)|))
    decreases FieldsRank(fields, ranks), fields, 0, 0
  {
    hide Serialize, Erase, Wrap32, Deserialize, DeserializeFields, SliceFrom, Put, Acyclic, WellTyped, DistinctNames,
      NewNames, SerializeEntries, EraseEntries, FieldsTyped, Rank, FieldsRank;
    if fields == [] {
      NoEntries(idl, entries, ranks);
      FieldsEnd(idl, rest, done, consumed, ranks);
      SmallFits(consumed);
      assert SerializeEntries(entries) + rest == rest && done + EraseEntries(entries) == done;
    } else {
      EntriesSplit(idl, entries, fields, ranks);
      var (first, others) := (Serialize(entries[0].value), SerializeEntries(entries[1..]));
      var value := Erase(entries[0].value);
      RoundTrip(idl, entries[0].value, fields[0].ty, others + rest, ranks);
      SmallFits(|first|);
      AfterFirst(first, others, rest);
      FieldsStep(idl, first + others + rest, fields, done, consumed, value, |first|, ranks);
      NamesStep(done, fields, value);
      WrapShift(consumed, |first|, |others|);
      SmallFits(|first| + |others|);
      FieldsRoundTrip(idl, entries[1..], fields[1..], done + [Entry(fields[0].name, value)],
                      Wrap32(consumed + |first|), rest, ranks);
      assert done + EraseEntries(entries) == done + [Entry(fields[0].name, value)] + EraseEntries(entries[1..]);
    }
  }

  lemma {:induction false} ItemsRoundTrip(idl: Idl, items: seq<Variant>, element: Type, done: seq<Variant>,
                                          consumed: u32, rest: seq<byte>, ranks: map<AsciiString, nat>)
    requires Acyclic(idl, ranks)
    requires forall i :: 0 <= i < |items| ==> WellTyped(idl, items[i], element, ranks)
    requires |SerializeItems(items)| < 0x1_0000_0000
    ensures DeserializeItems(idl, SerializeItems(items) + rest, element, |items|, done, consumed, ranks)
         == Ok(Arr(done + EraseItems(items)), Wrap32(consumed + |SerializeItems(items)|))
    decreases Rank(element, ranks), element, 2, |items|
  {
    hide Serialize, Erase, Wrap32, Deserialize, DeserializeItems, SliceFrom, Acyclic, WellTyped;
    if items == [] {
      ItemsEnd(idl, rest, element, done, consumed, ranks);
      SmallFits(consumed);
      assert SerializeItems(items) + rest == rest && done + EraseItems(items) == done;
    } else {
      var (first, others) := (Serialize(items[0]), SerializeItems(items[1..]));
      RoundTrip(idl, items[0], element, others + rest, ranks);
      SmallFits(|first|);
      AfterFirst(first, others, rest);
      ItemsStep(idl, first + others + rest, element, |items|, done, consumed, Erase(items[0]), |first|, ranks);
      WrapShift(consumed, |first|, |others|);
      SmallFits(|first| + |others|);
      ItemsRoundTrip(idl, items[1..], element, done + [Erase(items[0])], Wrap32(consumed + |first|), rest, ranks);
      assert done + EraseItems(items) == done + [Erase(items[0])] + EraseItems(items[1..]);
    }
  }

  /** The same from any starting value of the counter. */
  lemma RoundTripFrom(idl: Idl, v: Variant, ty: Type, rest: seq<byte>, consumed: u32, ranks: map<AsciiString, nat>)
    requires Acyclic(idl, ranks) && WellTyped(idl, v, ty, ranks)
    requires |Serialize(v)| < 0x1_0000_0000
    ensures Deserialize(idl, Serialize(v) + rest, ty, consumed, ranks)
         == Ok(Erase(v), Wrap32(consumed + |Serialize(v)|))
  {
    hide Serialize, Erase, Deserialize, WellTyped, Wrap32, Acyclic;
    RoundTrip(idl, v, ty, rest, ranks);
    SmallFits(|Serialize(v)|);
    CounterOnlyAdds(idl, Serialize(v) + rest, ty, consumed, ranks);
  }
}
