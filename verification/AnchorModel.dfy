/** The type-directed Anchor codec: `serialize_variant` and `deserialize_variant`.
    Strings are ASCII; a variant is one of the kinds the codec dispatches on. */
module AnchorModel {
  import opened Words
  import opened Options
  import opened LittleEndian
  import opened Text

  /** A dictionary keeps its entries in the order they were inserted. */
  datatype Entry = Entry(key: AsciiString, value: Variant)

  datatype Variant =
    | Nil
    | Bool(flag: bool)
    | Int(i: int)
    | Str(s: AsciiString)
    | Bytes(bytes: seq<byte>)
    | Arr(items: seq<Variant>)
    | Dict(entries: seq<Entry>)
    | Pubkey(key: seq<byte>)

  datatype Field = Field(name: AsciiString, ty: Type)

  /** An IDL type: `u8` .. `i64`, `bool`, `string`, `publicKey`, or a dictionary
      with one of the keys `kind`, `defined`, `vec` or `option`. */
  datatype Type =
    | IntType(width: nat, signed: bool)
    | BoolType
    | StringType
    | PublicKeyType
    | StructKind(fields: seq<Field>)
    | EnumKind
    | Defined(name: AsciiString)
    | Vec(element: Type)
    | OptionOf(inner: Type)

  /** The "types" of an IDL. */
  datatype TypeDef = TypeDef(name: AsciiString, body: Type)
  type Idl = seq<TypeDef>

  // Dictionaries

  function Lookup(entries: seq<Entry>, key: AsciiString): (r: Option<Variant>)
    ensures r.Some? ==> exists i :: 0 <= i < |entries| && entries[i].key == key && entries[i].value == r.value
    ensures r.None? ==> forall i :: 0 <= i < |entries| ==> entries[i].key != key
  {
    if entries == [] then None
    else if entries[0].key == key then Some(entries[0].value)
    else Lookup(entries[1..], key)
  }

  function Put(entries: seq<Entry>, key: AsciiString, value: Variant): seq<Entry> {
    if entries == [] then [Entry(key, value)]
    else if entries[0].key == key then [Entry(key, value)] + entries[1..]
    else [entries[0]] + Put(entries[1..], key, value)
  }

  // Serialisation

  /** `is_typed_primitive`. */
  predicate IsTypedPrimitive(entries: seq<Entry>) {
    && Lookup(entries, "dataType").Some? && Lookup(entries, "value").Some?
    && Lookup(entries, "dataType") != Some(Str("option"))
  }

  /** `is_option`, of a dictionary. */
  predicate IsOption(entries: seq<Entry>) {
    Lookup(entries, "dataType") == Some(Str("option"))
  }

  /** The name a sized integer carries in its "dataType". */
  function IntName(width: nat, signed: bool): AsciiString {
    if signed then
      if width == 1 then "i8" else if width == 2 then "i16" else if width == 4 then "i32" else "i64"
    else if width == 1 then "u8" else if width == 2 then "u16" else if width == 4 then "u32" else "u64"
  }

  /** The width a "dataType" asks for; other names serialise to nothing. */
  function WidthOf(dataType: Variant): nat {
    if dataType == Str("u8") || dataType == Str("i8") then 1
    else if dataType == Str("u16") || dataType == Str("i16") then 2
    else if dataType == Str("u32") || dataType == Str("i32") then 4
    else if dataType == Str("u64") || dataType == Str("i64") then 8
    else 0
  }

  /** `serialize_typed_primitive`; only integers are modelled as values. */
  function SerializeTypedPrimitive(entries: seq<Entry>): seq<byte>
    requires IsTypedPrimitive(entries)
  {
    match Lookup(entries, "value").value
    case Int(n) => ToLE(n, WidthOf(Lookup(entries, "dataType").value))
    case _ => []
  }

  /** `serialize_variant`. */
  function Serialize(v: Variant): seq<byte>
    decreases v, 1
  {
    match v
    case Nil => []
    case Bool(flag) => [if flag then 1 else 0]
    case Int(i) => ToLE(i, 8)
    case Str(s) => ToLE(|s|, 4) + AsciiBytes(s)
    case Bytes(b) => ToLE(|b|, 4) + b
    case Arr(items) => ToLE(|items|, 4) + SerializeItems(items)
    case Pubkey(key) => key
    case Dict(entries) =>
      if IsTypedPrimitive(entries) then SerializeTypedPrimitive(entries)
      else if IsOption(entries) then
        match Lookup(entries, "value")
        case None => []
        case Some(Nil) => [0]
        case Some(value) => [1] + Serialize(value)
      else SerializeEntries(entries)
  }

  function SerializeItems(items: seq<Variant>): seq<byte>
    decreases items, 0
  {
    if items == [] then [] else Serialize(items[0]) + SerializeItems(items[1..])
  }

  function SerializeEntries(entries: seq<Entry>): seq<byte>
    decreases entries, 0
  {
    if entries == [] then [] else Serialize(entries[0].value) + SerializeEntries(entries[1..])
  }

  // Deserialisation

  /** A value and the consumed counter after it; reading byte 0 of an empty array crashes. */
  datatype Decoded = Ok(value: Variant, consumed: u32) | Crash

  /** The type at i is the first of that name. */
  predicate IsFirstNamed(idl: Idl, name: AsciiString, i: nat) {
    i < |idl| && idl[i].name == name && forall j :: 0 <= j < i ==> idl[j].name != name
  }

  /** `find_idl_type`. */
  function FindIdlType(idl: Idl, name: AsciiString): (r: Option<Type>)
    ensures r.Some? ==> exists i :: 0 <= i < |idl| && idl[i].name == name && idl[i].body == r.value
  {
    if idl == [] then None else if idl[0].name == name then Some(idl[0].body) else FindIdlType(idl[1..], name)
  }

  /** All types are looked at, and the first of that name is the one found. */
  lemma {:induction false} FindsFirst(idl: Idl, name: AsciiString, i: nat)
    requires IsFirstNamed(idl, name, i)
    ensures FindIdlType(idl, name) == Some(idl[i].body)
  {
    if i != 0 {
      assert idl[0].name != name;
      FindsFirst(idl[1..], name, i - 1);
    }
  }

  /** Nothing is found exactly when no type has that name. */
  lemma {:induction false} FindsNoneIff(idl: Idl, name: AsciiString)
    ensures FindIdlType(idl, name).None? <==> forall i :: 0 <= i < |idl| ==> idl[i].name != name
  {
    if idl != [] && idl[0].name != name {
      FindsNoneIff(idl[1..], name);
      assert forall i :: 1 <= i < |idl| ==> idl[i] == idl[1..][i - 1];
      assert forall i :: 0 <= i < |idl| - 1 ==> idl[1..][i] == idl[i + 1];
    }
  }

  /** How many definitions deep a type goes, given the depth of each name. */
  function Rank(ty: Type, ranks: map<AsciiString, nat>): nat
    decreases ty, 1
  {
    match ty
    case Defined(name) => if name in ranks then ranks[name] + 1 else 0
    case Vec(element) => Rank(element, ranks)
    case OptionOf(inner) => Rank(inner, ranks)
    case StructKind(fields) => FieldsRank(fields, ranks)
    case _ => 0
  }

  function FieldsRank(fields: seq<Field>, ranks: map<AsciiString, nat>): nat
    decreases fields, 0
  {
    if fields == [] then 0
    else
      var (a, b) := (Rank(fields[0].ty, ranks), FieldsRank(fields[1..], ranks));
      if a >= b then a else b
  }

  /** No type is defined in terms of itself: decoding such a type need not end. */
  predicate Acyclic(idl: Idl, ranks: map<AsciiString, nat>) {
    forall i :: 0 <= i < |idl| ==> idl[i].name in ranks && Rank(idl[i].body, ranks) <= ranks[idl[i].name]
  }

  /** `decode_u8` .. `decode_s64`: a variant holds a signed 64-bit integer, so a
      64-bit one is read as signed either way. */
  function DecodeInteger(b: seq<byte>, width: nat, signed: bool): int {
    if signed || width == 8 then DecodeSigned(b, 0, width) else DecodeUnsigned(b, 0, width)
  }

  /** `deserialize_variant`. */
  function Deserialize(idl: Idl, bytes: seq<byte>, ty: Type, consumed: u32, ghost ranks: map<AsciiString, nat>): Decoded
    requires Acyclic(idl, ranks)
    decreases Rank(ty, ranks), ty, 1, 0
  {
    match ty
    case IntType(width, signed) =>
      Ok(Int(DecodeInteger(bytes, width, signed)), Wrap32(consumed + width))
    case StringType =>
      var length := DecodeUnsigned(bytes, 0, 4);
      if |bytes| < length then Ok(Nil, consumed)
      else Ok(Str(AsciiText(Slice(bytes, 4, 4 + length))), Wrap32(consumed + Wrap32(4 + length)))
    case PublicKeyType => Ok(Pubkey(Slice(bytes, 0, 32)), Wrap32(consumed + 32))
    case BoolType =>
      if |bytes| < 1 then Ok(Nil, Wrap32(consumed + 1)) else Ok(Bool(bytes[0] == 1), Wrap32(consumed + 1))
    case _ => DeserializeDict(idl, bytes, ty, consumed, ranks)
  }

  /** `deserialize_dict`. */
  function DeserializeDict(idl: Idl, bytes: seq<byte>, ty: Type, consumed: u32,
                           ghost ranks: map<AsciiString, nat>): Decoded
    requires Acyclic(idl, ranks)
    decreases Rank(ty, ranks), ty, 0, 0
  {
    match ty
    case StructKind(fields) => DeserializeFields(idl, bytes, fields, [], consumed, ranks)
    case EnumKind => if bytes == [] then Crash else Ok(Int(bytes[0]), Wrap32(consumed + 1))
    case Defined(name) =>
      (match FindIdlType(idl, name)
       case None => Ok(Nil, consumed)
       case Some(body) => DeserializeDict(idl, bytes, body, consumed, ranks))
    case Vec(element) =>
      DeserializeItems(idl, SliceFrom(bytes, 4), element, DecodeUnsigned(bytes, 0, 4), [], Wrap32(consumed + 4), ranks)
    case OptionOf(inner) =>
      if bytes == [] then Crash
      else if bytes[0] == 0 then Ok(Nil, Wrap32(consumed + 1))
      else Deserialize(idl, bytes[1..], inner, Wrap32(consumed + 1), ranks)
    case _ => Ok(Nil, consumed)
  }

  /** The field loop: each field starts a counter of its own from zero. */
  function DeserializeFields(idl: Idl, bytes: seq<byte>, fields: seq<Field>, result: seq<Entry>, consumed: u32,
                             ghost ranks: map<AsciiString, nat>): Decoded
    requires Acyclic(idl, ranks)
    decreases FieldsRank(fields, ranks), fields, 0, 0
  {
    if fields == [] then Ok(Dict(result), consumed)
    else match Deserialize(idl, bytes, fields[0].ty, 0, ranks)
         case Crash => Crash
         case Ok(value, offset) =>
           DeserializeFields(idl, SliceFrom(bytes, offset), fields[1..], Put(result, fields[0].name, value),
                             Wrap32(consumed + offset), ranks)
  }

  /** The element loop of a vec. */
  function DeserializeItems(idl: Idl, bytes: seq<byte>, element: Type, length: nat, values: seq<Variant>, consumed: u32,
                            ghost ranks: map<AsciiString, nat>): Decoded
    requires Acyclic(idl, ranks)
    decreases Rank(element, ranks), element, 2, length
  {
    if length == 0 then Ok(Arr(values), consumed)
    else match Deserialize(idl, bytes, element, 0, ranks)
         case Crash => Crash
         case Ok(value, offset) =>
           DeserializeItems(idl, SliceFrom(bytes, offset), element, length - 1, values + [value],
                            Wrap32(consumed + offset), ranks)
  }
}
