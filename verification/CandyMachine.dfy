/** The candy machine account: the layout `CandyMachineData::serialize` writes,
    and the parser inside `fetch_account_callback`. */
module CandyMachine {
  import opened Words
  import opened Options
  import opened LittleEndian
  import opened Text
  import opened ByteCursor
  import Base64

  type u16 = x: int | 0 <= x < 0x1_0000

  datatype Creator = Creator(address: seq<byte>, verified: bool, share: u16)

  datatype Config = Config(prefixName: AsciiString, nameLength: u32, prefixUri: AsciiString, uriLength: u32,
                           isSequential: bool)

  datatype Data = Data(itemsAvailable: u64, symbol: AsciiString, sellerFee: u32, maxSupply: u64, isMutable: bool,
                       creators: seq<Creator>, config: Option<Config>)

  /** What stands before the data in an account, after nine bytes nobody reads. */
  datatype Header = Header(tokenStandard: byte, features: seq<byte>, authority: seq<byte>, mintAuthority: seq<byte>,
                           collectionMint: seq<byte>, itemsRedeemed: u64)

  // Layout

  function Flag(b: bool): byte {
    if b then 1 else 0
  }

  /** A 32-bit length and the characters. */
  function TextBytes(s: AsciiString): seq<byte> {
    ToLE(|s|, 4) + AsciiBytes(s)
  }

  /** `MetaDataCreator::serialize`: the share is cut to a byte. */
  function CreatorBytes(c: Creator): seq<byte> {
    c.address + [Flag(c.verified)] + [Wrap8(c.share)]
  }

  function CreatorsBytes(cs: seq<Creator>): seq<byte> {
    if cs == [] then [] else CreatorBytes(cs[0]) + CreatorsBytes(cs[1..])
  }

  /** `ConfigLineSetting::serialize`. */
  function ConfigBytes(c: Config): seq<byte> {
    TextBytes(c.prefixName) + ToLE(c.nameLength, 4) + TextBytes(c.prefixUri) + ToLE(c.uriLength, 4)
    + [Flag(c.isSequential)]
  }

  /** The part before the creators. */
  function FixedBytes(d: Data): seq<byte> {
    ToLE(d.itemsAvailable, 8) + TextBytes(d.symbol) + ToLE(d.sellerFee, 2) + ToLE(d.maxSupply, 8)
    + [Flag(d.isMutable)] + ToLE(|d.creators|, 4)
  }

  function SettingBytes(config: Option<Config>): seq<byte> {
    match config
    case None => [0]
    case Some(c) => [1] + ConfigBytes(c)
  }

  /** `CandyMachineData::serialize`; the last byte says that there are no hidden settings. */
  function Serialize(d: Data): seq<byte> {
    FixedBytes(d) + CreatorsBytes(d.creators) + SettingBytes(d.config) + [0]
  }

  function HeaderBytes(h: Header): seq<byte> {
    [h.tokenStandard] + h.features + h.authority + h.mintAuthority + h.collectionMint + ToLE(h.itemsRedeemed, 8)
  }

  // Parser

  const BASE_DATA_LENGTH: nat := 9
  const AMOUNT_FEATURES: nat := 6
  const PUBKEY_LENGTH: nat := 32

  /** The creator loop. Reading a byte past the end crashes: the result is None. */
  function ParseCreators(bytes: seq<byte>, cursor: nat, n: nat): Option<(seq<Creator>, nat)>
    decreases n
  {
    if n == 0 then Some(([], cursor))
    else if cursor + 33 >= |bytes| then None
    else
      var c := Creator(Slice(bytes, cursor, cursor + PUBKEY_LENGTH), bytes[cursor + 32] == 1, bytes[cursor + 33]);
      Prepend([c], ParseCreators(bytes, cursor + 34, n - 1))
  }

  function Prepend(cs: seq<Creator>, r: Option<(seq<Creator>, nat)>): Option<(seq<Creator>, nat)> {
    match r
    case None => None
    case Some((others, after)) => Some((cs + others, after))
  }

  /** The config line setting, from behind its flag. */
  function ParseConfig(bytes: seq<byte>, cursor: nat): Option<Config> {
    var name := DecodeUnsigned(bytes, cursor, 4);
    var at := cursor + 4 + name;
    var uri := DecodeUnsigned(bytes, at + 4, 4);
    var after := at + 8 + uri;
    if after + 4 >= |bytes| then None
    else
      Some(Config(AsciiText(Slice(bytes, cursor + 4, at)), Wrap32(DecodeUnsigned(bytes, at, 4)),
                  AsciiText(Slice(bytes, at + 8, after)),
                  Wrap32(DecodeUnsigned(bytes, after, 4)), bytes[after + 4] == 1))
  }

  function ParseHeader(bytes: seq<byte>): Option<Header> {
    if |bytes| < 16 then None
    else
      Some(Header(bytes[9], bytes[10..16], Slice(bytes, 16, 48), Slice(bytes, 48, 80), Slice(bytes, 80, 112),
                  Wrap64(DecodeUnsigned(bytes, 112, 8))))
  }

  /** The account parser, from the items available on. */
  function ParseData(bytes: seq<byte>, cursor: nat): Option<Data> {
    var name := DecodeUnsigned(bytes, cursor + 8, 4);
    var at := cursor + 12 + name;
    if at + 10 >= |bytes| then None
    else
      match ParseCreators(bytes, at + 15, DecodeUnsigned(bytes, at + 11, 4))
      case None => None
      case Some((creators, flag)) =>
        if flag >= |bytes| then None
        else
          var d := Data(Wrap64(DecodeUnsigned(bytes, cursor, 8)), AsciiText(Slice(bytes, cursor + 12, at)),
                        Wrap32(DecodeUnsigned(bytes, at, 2)), Wrap64(DecodeUnsigned(bytes, at + 2, 8)),
                        bytes[at + 10] == 1,
                        creators, None);
          if bytes[flag] != 1 then Some(d)
          else
            match ParseConfig(bytes, flag + 1)
            case None => None
            case Some(c) => Some(d.(config := Some(c)))
  }

  function ParseAccount(bytes: seq<byte>): Option<(Header, Data)> {
    match ParseHeader(bytes)
    case None => None
    case Some(h) =>
      match ParseData(bytes, 120)
      case None => None
      case Some(d) => Some((h, d))
  }

  // Round trip

  /** What is left of a text, a share and a fee in the account. */
  function Stored(s: AsciiString): AsciiString {
    AsciiText(AsciiBytes(s))
  }

  function StoredCreators(cs: seq<Creator>): seq<Creator> {
    if cs == [] then [] else [cs[0].(share := Wrap8(cs[0].share))] + StoredCreators(cs[1..])
  }

  function StoredConfig(c: Config): Config {
    c.(prefixName := Stored(c.prefixName), prefixUri := Stored(c.prefixUri))
  }

  function StoredData(d: Data): Data {
    d.(symbol := Stored(d.symbol), sellerFee := d.sellerFee % 0x1_0000, creators := StoredCreators(d.creators),
       config := if d.config.None? then None else Some(StoredConfig(d.config.value)))
  }

  /** Sizes that the length fields can hold, and keys of 32 bytes. */
  predicate Sized(d: Data) {
    && |d.symbol| < 0x1_0000_0000 && |d.creators| < 0x1_0000_0000
    && (forall i :: 0 <= i < |d.creators| ==> |d.creators[i].address| == PUBKEY_LENGTH)
    && (d.config.Some? ==> |d.config.value.prefixName| < 0x1_0000_0000 && |d.config.value.prefixUri| < 0x1_0000_0000)
  }

  predicate SizedHeader(h: Header) {
    |h.features| == AMOUNT_FEATURES
    && |h.authority| == |h.mintAuthority| == |h.collectionMint| == PUBKEY_LENGTH
  }

  predicate FitsAccount(d: Data) {
    && NulFree(d.symbol) && d.sellerFee < 0x1_0000
    && (forall i :: 0 <= i < |d.creators| ==> d.creators[i].share < 0x100)
    && (d.config.Some? ==> NulFree(d.config.value.prefixName) && NulFree(d.config.value.prefixUri))
  }

  lemma ReadText(bytes: seq<byte>, cursor: nat, s: AsciiString, tail: seq<byte>)
    requires At(bytes, cursor, TextBytes(s) + tail) && |s| < 0x1_0000_0000
    ensures DecodeUnsigned(bytes, cursor, 4) == |s|
    ensures Slice(bytes, cursor + 4, cursor + 4 + |s|) == AsciiBytes(s)
    ensures At(bytes, cursor + 4 + |s|, tail)
  {
    hide DecodeUnsigned, ToLE, Slice, AsciiBytes;
    assert TextBytes(s) + tail == ToLE(|s|, 4) + (AsciiBytes(s) + tail);
    ReadSmall(bytes, cursor, |s|, 4, AsciiBytes(s) + tail);
    ReadSlice(bytes, cursor + 4, AsciiBytes(s), tail);
  }

  lemma {:induction false} CreatorsReadBack(bytes: seq<byte>, cursor: nat, cs: seq<Creator>, tail: seq<byte>)
    requires At(bytes, cursor, CreatorsBytes(cs) + tail)
    requires forall i :: 0 <= i < |cs| ==> |cs[i].address| == PUBKEY_LENGTH
    ensures ParseCreators(bytes, cursor, |cs|) == Some((StoredCreators(cs), cursor + |CreatorsBytes(cs)|))
    ensures At(bytes, cursor + |CreatorsBytes(cs)|, tail)
    decreases |cs|
  {
    hide Slice, Flag, Wrap8, At;
    if cs == [] {
      assert CreatorsBytes(cs) + tail == tail;
    } else {
      var (c, others) := (cs[0], CreatorsBytes(cs[1..]) + tail);
      assert CreatorsBytes(cs) + tail == c.address + ([Flag(c.verified)] + ([Wrap8(c.share)] + others));
      ReadSlice(bytes, cursor, c.address, [Flag(c.verified)] + ([Wrap8(c.share)] + others));
      ReadByte(bytes, cursor + 32, Flag(c.verified), [Wrap8(c.share)] + others);
      ReadByte(bytes, cursor + 33, Wrap8(c.share), others);
      FlagReadsBack(c.verified);
      CreatorsReadBack(bytes, cursor + 34, cs[1..], tail);
    }
  }

  lemma FlagReadsBack(b: bool)
    ensures (Flag(b) == 1) == b
  {
  }

  lemma ConfigReadsBack(bytes: seq<byte>, cursor: nat, c: Config, tail: seq<byte>)
    requires At(bytes, cursor, ConfigBytes(c) + tail)
    requires |c.prefixName| < 0x1_0000_0000 && |c.prefixUri| < 0x1_0000_0000
    ensures ParseConfig(bytes, cursor) == Some(StoredConfig(c))
  {
    hide At, Slice, Flag, DecodeUnsigned, ToLE, TextBytes, AsciiText, AsciiBytes, Wrap32;
    var tail4 := [Flag(c.isSequential)] + tail;
    var tail3 := ToLE(c.uriLength, 4) + tail4;
    var tail2 := TextBytes(c.prefixUri) + tail3;
    var tail1 := ToLE(c.nameLength, 4) + tail2;
    assert ConfigBytes(c) + tail == TextBytes(c.prefixName) + tail1;
    ReadText(bytes, cursor, c.prefixName, tail1);
    var at := cursor + 4 + |c.prefixName|;
    ReadSmall(bytes, at, c.nameLength, 4, tail2);
    ReadText(bytes, at + 4, c.prefixUri, tail3);
    var after := at + 8 + |c.prefixUri|;
    ReadSmall(bytes, after, c.uriLength, 4, tail4);
    ReadByte(bytes, after + 4, Flag(c.isSequential), tail);
    FlagReadsBack(c.isSequential);
    Unwrapped(c.nameLength);
    Unwrapped(c.uriLength);
  }

  lemma Unwrapped(n: u64)
    ensures n < 0x1_0000_0000 ==> Wrap32(n) == n
    ensures Wrap64(n) == n
  {
  }

  /** The fixed part, field by field, whatever follows it. */
  lemma FixedReadsBack(bytes: seq<byte>, cursor: nat, d: Data, tail: seq<byte>)
    requires At(bytes, cursor, FixedBytes(d) + tail) && |d.symbol| < 0x1_0000_0000 && |d.creators| < 0x1_0000_0000
    ensures var at := cursor + 12 + |d.symbol|;
            && DecodeUnsigned(bytes, cursor, 8) == d.itemsAvailable
            && DecodeUnsigned(bytes, cursor + 8, 4) == |d.symbol|
            && Slice(bytes, cursor + 12, at) == AsciiBytes(d.symbol)
            && DecodeUnsigned(bytes, at, 2) == d.sellerFee % 0x1_0000
            && DecodeUnsigned(bytes, at + 2, 8) == d.maxSupply
            && at + 10 < |bytes| && (bytes[at + 10] == 1) == d.isMutable
            && DecodeUnsigned(bytes, at + 11, 4) == |d.creators|
            && At(bytes, at + 15, tail)
  {
    hide At, Slice, Flag, DecodeUnsigned, ToLE, TextBytes, AsciiBytes, Pow256;
    var tail5 := ToLE(|d.creators|, 4) + tail;
    var tail4 := [Flag(d.isMutable)] + tail5;
    var tail3 := ToLE(d.maxSupply, 8) + tail4;
    var tail2 := ToLE(d.sellerFee, 2) + tail3;
    var tail1 := TextBytes(d.symbol) + tail2;
    assert FixedBytes(d) + tail == ToLE(d.itemsAvailable, 8) + tail1;
    var at := cursor + 12 + |d.symbol|;
    ReadSmall(bytes, cursor, d.itemsAvailable, 8, tail1);
    ReadText(bytes, cursor + 8, d.symbol, tail2);
    SmallPow256();
    ReadInt(bytes, at, d.sellerFee, 2, tail3);
    ReadSmall(bytes, at + 2, d.maxSupply, 8, tail4);
    ReadByte(bytes, at + 10, Flag(d.isMutable), tail5);
    FlagReadsBack(d.isMutable);
    ReadSmall(bytes, at + 11, |d.creators|, 4, tail);
  }

  lemma DataReadsBack(bytes: seq<byte>, cursor: nat, d: Data, rest: seq<byte>)
    requires At(bytes, cursor, Serialize(d) + rest) && Sized(d)
    ensures ParseData(bytes, cursor) == Some(StoredData(d))
  {
    hide At, Slice, DecodeUnsigned, FixedBytes, CreatorsBytes, ConfigBytes, ParseCreators, ParseConfig, StoredCreators,
      StoredConfig, AsciiText, AsciiBytes, Wrap32, Wrap64;
    var tail2 := SettingBytes(d.config) + ([0] + rest);
    var tail1 := CreatorsBytes(d.creators) + tail2;
    assert Serialize(d) + rest == FixedBytes(d) + tail1;
    FixedReadsBack(bytes, cursor, d, tail1);
    var at := cursor + 12 + |d.symbol|;
    CreatorsReadBack(bytes, at + 15, d.creators, tail2);
    var flag := at + 15 + |CreatorsBytes(d.creators)|;
    Unwrapped(d.itemsAvailable);
    Unwrapped(d.maxSupply);
    Unwrapped(d.sellerFee % 0x1_0000);
    if d.config.None? {
      ReadByte(bytes, flag, 0, [0] + rest);
    } else {
      var tail := ConfigBytes(d.config.value) + ([0] + rest);
      assert tail2 == [1] + tail;
      ReadByte(bytes, flag, 1, tail);
      ConfigReadsBack(bytes, flag + 1, d.config.value, [0] + rest);
    }
  }

  /** The length the serialiser computes beforehand, plus what it appends. */
  lemma SerializedLength(d: Data)
    requires Sized(d)
    ensures |FixedBytes(d) + CreatorsBytes(d.creators)| == 8 + 4 + |d.symbol| + 2 + 8 + 1 + 4 + 34 * |d.creators|
  {
    hide ToLE, CreatorsBytes;
    LengthOfCreators(d.creators);
  }

  lemma ConfigLength(c: Config)
    ensures |ConfigBytes(c)| == 4 + |c.prefixName| + 4 + 4 + |c.prefixUri| + 4 + 1
  {
    hide ToLE;
  }

  lemma {:induction false} LengthOfCreators(cs: seq<Creator>)
    requires forall i :: 0 <= i < |cs| ==> |cs[i].address| == PUBKEY_LENGTH
    ensures |CreatorsBytes(cs)| == 34 * |cs|
  {
    if cs != [] {
      LengthOfCreators(cs[1..]);
    }
  }

  lemma HeaderReadsBack(pre: seq<byte>, h: Header, tail: seq<byte>)
    requires |pre| == BASE_DATA_LENGTH && SizedHeader(h)
    ensures var bytes := pre + HeaderBytes(h) + tail;
            ParseHeader(bytes) == Some(h) && At(bytes, 120, tail)
  {
    hide At, Slice, DecodeUnsigned, ToLE, Wrap64;
    var bytes := pre + HeaderBytes(h) + tail;
    var tail5 := ToLE(h.itemsRedeemed, 8) + tail;
    var tail4 := h.collectionMint + tail5;
    var tail3 := h.mintAuthority + tail4;
    var tail2 := h.authority + tail3;
    var tail1 := h.features + tail2;
    assert bytes == pre + ([h.tokenStandard] + tail1);
    Here(pre, [h.tokenStandard] + tail1);
    ReadByte(bytes, 9, h.tokenStandard, tail1);
    ReadSlice(bytes, 10, h.features, tail2);
    InBounds(bytes, 10, h.features);
    ReadSlice(bytes, 16, h.authority, tail3);
    ReadSlice(bytes, 48, h.mintAuthority, tail4);
    ReadSlice(bytes, 80, h.collectionMint, tail5);
    ReadSmall(bytes, 112, h.itemsRedeemed, 8, tail);
    Unwrapped(h.itemsRedeemed);
  }

  lemma Here(pre: seq<byte>, tail: seq<byte>)
    ensures At(pre + tail, |pre|, tail)
  {
  }

  lemma InBounds(bytes: seq<byte>, cursor: nat, b: seq<byte>)
    requires Slice(bytes, cursor, cursor + |b|) == b && cursor + |b| <= |bytes|
    ensures bytes[cursor..cursor + |b|] == b
  {
  }

  /** Any account made of nine bytes, the header, serialised data and anything at
      all: every field is recovered, up to what its place in the account holds. */
  lemma AccountReadsBack(pre: seq<byte>, h: Header, d: Data, rest: seq<byte>)
    requires |pre| == BASE_DATA_LENGTH && SizedHeader(h) && Sized(d)
    ensures ParseAccount(pre + HeaderBytes(h) + Serialize(d) + rest) == Some((h, StoredData(d)))
  {
    hide ParseHeader, ParseData, Serialize, HeaderBytes, StoredData, At;
    HeaderReadsBack(pre, h, Serialize(d) + rest);
    var bytes := pre + HeaderBytes(h) + (Serialize(d) + rest);
    assert bytes == pre + HeaderBytes(h) + Serialize(d) + rest;
    DataReadsBack(bytes, 120, d, rest);
  }

  lemma {:induction false} StoredCreatorsSame(cs: seq<Creator>)
    ensures StoredCreators(cs) == cs <==> forall i :: 0 <= i < |cs| ==> cs[i].share < 0x100
    decreases |cs|
  {
    if cs != [] {
      StoredCreatorsSame(cs[1..]);
      assert forall i :: 1 <= i < |cs| ==> cs[i] == cs[1..][i - 1];
      assert cs == [cs[0]] + cs[1..];
      assert cs[0].(share := Wrap8(cs[0].share)) == cs[0] <==> cs[0].share < 0x100;
      assert StoredCreators(cs)[0] == cs[0].(share := Wrap8(cs[0].share));
      assert StoredCreators(cs)[1..] == StoredCreators(cs[1..]);
    }
  }

  /** Nothing is lost exactly when no text holds a zero, the fee is below 65536
      and every share is below 256. */
  lemma RecoveredWhenItFits(pre: seq<byte>, h: Header, d: Data, rest: seq<byte>)
    requires |pre| == BASE_DATA_LENGTH && SizedHeader(h) && Sized(d)
    ensures ParseAccount(pre + HeaderBytes(h) + Serialize(d) + rest) == Some((h, d)) <==> FitsAccount(d)
  {
    hide ParseAccount, HeaderBytes, Serialize, StoredCreators, AsciiText, AsciiBytes, NulFree;
    AccountReadsBack(pre, h, d, rest);
    TextReadsBack(d.symbol);
    StoredCreatorsSame(d.creators);
    if d.config.Some? {
      TextReadsBack(d.config.value.prefixName);
      TextReadsBack(d.config.value.prefixUri);
    }
  }

  /** The account behind base64 text; the text decoder may crash as well. */
  function FetchAccount(encoded: string): Option<(Header, Data)> {
    match Base64.Decode(encoded)
    case Crash => None
    case Decoded(bytes) => ParseAccount(bytes)
  }

  /** Through the base64 text, too, everything is recovered exactly when it fits. */
  lemma FetchedWhenItFits(pre: seq<byte>, h: Header, d: Data, rest: seq<byte>)
    requires |pre| == BASE_DATA_LENGTH && SizedHeader(h) && Sized(d)
    requires Base64.TextLength(|pre + HeaderBytes(h) + Serialize(d) + rest|) <= Base64.EXACT
    ensures FetchAccount(Base64.Encode(pre + HeaderBytes(h) + Serialize(d) + rest)) == Some((h, d))
            <==> FitsAccount(d)
  {
    hide Base64.Encode, Base64.Decode, ParseAccount, HeaderBytes, Serialize, FitsAccount;
    RecoveredWhenItFits(pre, h, d, rest);
    Base64.DecodeEncode(pre + HeaderBytes(h) + Serialize(d) + rest);
  }
}
