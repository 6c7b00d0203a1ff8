/** The candy machine classes: `serialize` fills presized buffers, and the account
    parser fills in a new object while a cursor moves over the bytes. */
module CandyMachineObjects {
  import opened Words
  import opened Options
  import opened LittleEndian
  import opened Text
  import opened ByteCursor
  import opened CandyMachine
  import Base64
  import Base64Buffers

  class MetaDataCreator {
    var address: seq<byte>
    var verified: bool
    var share: u16

    constructor ()
      ensures Fields() == Creator([], false, 0)
    {
      address, verified, share := [], false, 0;
    }

    function Fields(): Creator
      reads this
    {
      Creator(address, verified, share)
    }

    /** `MetaDataCreator::serialize`. */
    method ToBytes() returns (res: seq<byte>)
      ensures res == CreatorBytes(Fields())
    {
      res := [];
      res := res + address;
      res := res + [Flag(verified)];
      res := res + [Wrap8(share)];
    }
  }

  class ConfigLineSetting {
    var prefixName: AsciiString
    var prefixUri: AsciiString
    var nameLength: u32
    var uriLength: u32
    var isSequential: bool

    constructor ()
      ensures Fields() == Config("", 0, "", 0, false)
    {
      prefixName, prefixUri, nameLength, uriLength, isSequential := "", "", 0, 0, false;
    }

    function Fields(): Config
      reads this
    {
      Config(prefixName, nameLength, prefixUri, uriLength, isSequential)
    }

    /** `ConfigLineSetting::serialize`: the buffer is exactly filled. */
    method ToBytes() returns (bytes: seq<byte>)
      ensures bytes == ConfigBytes(Fields())
    {
      hide ToLE, Flag, AsciiBytes, Filled;
      var cursor := 0;
      var result := new byte[4 + |prefixName| + 4 + 4 + |prefixUri| + 4 + 1];
      NothingFilled(result);
      EncodeAt(result, cursor, |prefixName|, 4, []);
      cursor := cursor + 4;
      ghost var done := [] + ToLE(|prefixName|, 4);
      WriteBytes(result, cursor, AsciiBytes(prefixName), done);
      cursor := cursor + |prefixName|;
      done := done + AsciiBytes(prefixName);
      EncodeAt(result, cursor, nameLength, 4, done);
      cursor := cursor + 4;
      done := done + ToLE(nameLength, 4);
      EncodeAt(result, cursor, |prefixUri|, 4, done);
      cursor := cursor + 4;
      done := done + ToLE(|prefixUri|, 4);
      WriteBytes(result, cursor, AsciiBytes(prefixUri), done);
      cursor := cursor + |prefixUri|;
      done := done + AsciiBytes(prefixUri);
      EncodeAt(result, cursor, uriLength, 4, done);
      cursor := cursor + 4;
      done := done + ToLE(uriLength, 4);
      PutByte(result, cursor, Flag(isSequential), done);
      AllFilled(result, done + [Flag(isSequential)]);
      ConfigFlat(Fields());
      return result[..];
    }
  }

  class CandyMachineData {
    var tokenStandard: u32
    var features: seq<byte>
    var authority: seq<byte>
    var mintAuthority: seq<byte>
    var collectionMint: seq<byte>
    var itemsRedeemed: u64

    var itemsAvailable: u64
    var symbol: AsciiString
    var sellerFeeBasisPoints: u32
    var maxSupply: u64
    var isMutable: bool
    var creators: seq<MetaDataCreator>
    var configLineSetting: ConfigLineSetting?

    constructor ()
      ensures creators == [] && configLineSetting == null && Contents() == Data(0, "", 0, 0, false, [], None)
    {
      tokenStandard, features, authority, mintAuthority, collectionMint := 0, [], [], [], [];
      itemsRedeemed, itemsAvailable, symbol, sellerFeeBasisPoints, maxSupply, isMutable := 0, 0, "", 0, 0, false;
      creators, configLineSetting := [], null;
    }

    function Contents(): Data
      reads this, creators, configLineSetting
    {
      Data(itemsAvailable, symbol, sellerFeeBasisPoints, maxSupply, isMutable, CreatorsOf(creators),
           if configLineSetting == null then None else Some(configLineSetting.Fields()))
    }

    function HeaderFields(): Header
      reads this
    {
      Header(Wrap8(tokenStandard), features, authority, mintAuthority, collectionMint, itemsRedeemed)
    }

    /** `CandyMachineData::serialize`: the presized part is exactly filled by
        creators of 34 bytes each. */
    method ToBytes() returns (bytes: seq<byte>)
      requires forall c :: c in creators ==> |c.address| == PUBKEY_LENGTH
      ensures bytes == Serialize(Contents())
    {
      hide FixedBytes, CreatorsBytes, ConfigBytes, Filled, CreatorsOf;
      var dataLength := 8 + 4 + |symbol| + 2 + 8 + 1 + 4 + 34 * |creators|;
      var result := new byte[dataLength];
      var cursor := WriteFixed(result);
      WriteCreators(result, cursor, FixedBytes(Contents()));
      AllFilled(result, FixedBytes(Contents()) + CreatorsBytes(CreatorsOf(creators)));
      bytes := result[..];
      if configLineSetting == null {
        bytes := bytes + [0];
      } else {
        bytes := bytes + [1];
        var setting := configLineSetting.ToBytes();
        bytes := bytes + setting;
      }
      // No hidden settings.
      bytes := bytes + [0];
      ghost var d := Contents();
      assert bytes == FixedBytes(d) + CreatorsBytes(d.creators) + SettingBytes(d.config) + [0];
    }

    /** The part of the buffer before the creators. */
    method WriteFixed(result: array<byte>) returns (cursor: nat)
      requires result.Length >= 27 + |symbol|
      modifies result
      ensures cursor == 27 + |symbol| && Filled(result, cursor, FixedBytes(Contents()))
    {
      hide ToLE, Flag, AsciiBytes, Filled, CreatorsOf;
      NothingFilled(result);
      EncodeAt(result, 0, itemsAvailable, 8, []);
      ghost var done := [] + ToLE(itemsAvailable, 8);
      EncodeAt(result, 8, |symbol|, 4, done);
      done := done + ToLE(|symbol|, 4);
      WriteBytes(result, 12, AsciiBytes(symbol), done);
      done := done + AsciiBytes(symbol);
      cursor := 12 + |symbol|;
      EncodeAt(result, cursor, sellerFeeBasisPoints, 2, done);
      cursor := cursor + 2;
      done := done + ToLE(sellerFeeBasisPoints, 2);
      EncodeAt(result, cursor, maxSupply, 8, done);
      cursor := cursor + 8;
      done := done + ToLE(maxSupply, 8);
      PutByte(result, cursor, Flag(isMutable), done);
      cursor := cursor + 1;
      done := done + [Flag(isMutable)];
      EncodeAt(result, cursor, |creators|, 4, done);
      cursor := cursor + 4;
      CreatorCount(creators);
      FixedFlat(Contents());
    }

    method WriteCreators(result: array<byte>, start: nat, ghost done: seq<byte>)
      requires forall c :: c in creators ==> |c.address| == PUBKEY_LENGTH
      requires Filled(result, start, done) && start + 34 * |creators| == result.Length
      modifies result
      ensures Filled(result, result.Length, done + CreatorsBytes(CreatorsOf(creators)))
    {
      hide Filled, CreatorBytes, CreatorsBytes, CreatorsOf;
      var cursor := start;
      assert creators[..0] == [];
      NoCreators(done);
      for i := 0 to |creators|
        invariant cursor == start + 34 * i && Filled(result, cursor, done + CreatorsBytes(CreatorsOf(creators[..i])))
      {
        var creatorBytes := creators[i].ToBytes();
        CreatorLength(creators[i].Fields());
        CreatorsAppend(creators[..i], creators[i]);
        ghost var before := CreatorsBytes(CreatorsOf(creators[..i]));
        assert creators[..i] + [creators[i]] == creators[..i + 1];
        WriteBytes(result, cursor, creatorBytes, done + before);
        assert done + before + creatorBytes == done + (before + creatorBytes);
        cursor := cursor + |creatorBytes|;
      }
      assert creators[..|creators|] == creators;
    }
  }

  lemma ConfigFlat(c: Config)
    ensures ConfigBytes(c)
         == [] + ToLE(|c.prefixName|, 4) + AsciiBytes(c.prefixName) + ToLE(c.nameLength, 4) + ToLE(|c.prefixUri|, 4)
            + AsciiBytes(c.prefixUri) + ToLE(c.uriLength, 4) + [Flag(c.isSequential)]
  {
    hide ToLE, Flag, AsciiBytes;
  }

  lemma FixedFlat(d: Data)
    ensures FixedBytes(d)
         == [] + ToLE(d.itemsAvailable, 8) + ToLE(|d.symbol|, 4) + AsciiBytes(d.symbol) + ToLE(d.sellerFee, 2)
            + ToLE(d.maxSupply, 8) + [Flag(d.isMutable)] + ToLE(|d.creators|, 4)
  {
    hide ToLE, Flag, AsciiBytes;
  }

  lemma NoCreators(done: seq<byte>)
    ensures done + CreatorsBytes(CreatorsOf([])) == done
  {
  }

  lemma {:induction false} CreatorsAppend(cs: seq<MetaDataCreator>, c: MetaDataCreator)
    ensures CreatorsBytes(CreatorsOf(cs + [c])) == CreatorsBytes(CreatorsOf(cs)) + CreatorBytes(c.Fields())
  {
    hide CreatorBytes;
    if cs == [] {
      assert cs + [c] == [c] && [c][1..] == [];
      assert CreatorsOf([c]) == [c.Fields()];
    } else {
      CreatorsAppend(cs[1..], c);
      assert (cs + [c])[1..] == cs[1..] + [c];
      assert CreatorsOf(cs + [c])[1..] == CreatorsOf(cs[1..] + [c]);
      assert CreatorsOf(cs)[1..] == CreatorsOf(cs[1..]);
    }
  }

  function CreatorsOf(cs: seq<MetaDataCreator>): seq<Creator>
    reads cs
  {
    if cs == [] then [] else [cs[0].Fields()] + CreatorsOf(cs[1..])
  }

  lemma {:induction false} CreatorCount(cs: seq<MetaDataCreator>)
    ensures |CreatorsOf(cs)| == |cs|
  {
    if cs != [] {
      CreatorCount(cs[1..]);
    }
  }

  lemma CreatorLength(c: Creator)
    ensures |CreatorBytes(c)| == |c.address| + 2
  {
  }

  // The account parser

  /** The creator loop; it crashes where the specification has no result. */
  method ReadCreators(bytes: seq<byte>, start: nat, n: nat)
    returns (crashed: bool, read: seq<MetaDataCreator>, cursor: nat)
    ensures fresh(read)
    ensures ParseCreators(bytes, start, n) == if crashed then None else Some((CreatorsOf(read), cursor))
  {
    hide ParseCreators, Slice, CreatorsOf;
    crashed, read, cursor := false, [], start;
    Prepended([], ParseCreators(bytes, start, n));
    assert CreatorsOf([]) == [] by { NoFields(); }
    for i := 0 to n
      invariant fresh(read)
      invariant ParseCreators(bytes, start, n) == Prepend(CreatorsOf(read), ParseCreators(bytes, cursor, n - i))
    {
      CreatorsTurn(bytes, cursor, n - i);
      if cursor + 33 >= |bytes| {
        crashed := true;
        return;
      }
      ghost var before := CreatorsOf(read);
      var creator := new MetaDataCreator();
      creator.address := Slice(bytes, cursor, cursor + PUBKEY_LENGTH);
      cursor := cursor + PUBKEY_LENGTH;
      creator.verified := bytes[cursor] == 1;
      cursor := cursor + 1;
      creator.share := bytes[cursor];
      cursor := cursor + 1;
      assert CreatorsOf(read) == before;
      OneMoreCreator(read, creator);
      PrependTwice(before, creator.Fields(), ParseCreators(bytes, cursor, n - i - 1));
      read := read + [creator];
    }
    CreatorsEnd(bytes, cursor);
    assert CreatorsOf(read) + [] == CreatorsOf(read);
  }

  lemma Prepended(cs: seq<Creator>, r: Option<(seq<Creator>, nat)>)
    requires cs == []
    ensures Prepend(cs, r) == r
  {
    assert r.Some? ==> cs + r.value.0 == r.value.0;
  }

  lemma PrependTwice(cs: seq<Creator>, c: Creator, r: Option<(seq<Creator>, nat)>)
    ensures Prepend(cs, Prepend([c], r)) == Prepend(cs + [c], r)
  {
    if r.Some? {
      assert cs + ([c] + r.value.0) == (cs + [c]) + r.value.0;
    }
  }

  lemma NoFields()
    ensures CreatorsOf([]) == []
  {
  }

  lemma {:induction false} OneMoreCreator(cs: seq<MetaDataCreator>, c: MetaDataCreator)
    ensures CreatorsOf(cs + [c]) == CreatorsOf(cs) + [c.Fields()]
  {
    if cs == [] {
      assert cs + [c] == [c] && [c][1..] == [];
    } else {
      OneMoreCreator(cs[1..], c);
      assert (cs + [c])[1..] == cs[1..] + [c];
    }
  }

  lemma CreatorsTurn(bytes: seq<byte>, cursor: nat, n: nat)
    requires n > 0
    ensures ParseCreators(bytes, cursor, n)
         == if cursor + 33 >= |bytes| then None
            else Prepend([Creator(Slice(bytes, cursor, cursor + PUBKEY_LENGTH), bytes[cursor + 32] == 1,
                                  bytes[cursor + 33])],
                         ParseCreators(bytes, cursor + 34, n - 1))
  {
    hide Slice;
  }

  lemma CreatorsEnd(bytes: seq<byte>, cursor: nat)
    ensures ParseCreators(bytes, cursor, 0) == Some(([], cursor))
  {
  }

  /** The config line setting, behind its flag. */
  method ReadConfig(bytes: seq<byte>, start: nat) returns (crashed: bool, setting: ConfigLineSetting)
    ensures fresh(setting)
    ensures ParseConfig(bytes, start) == if crashed then None else Some(setting.Fields())
  {
    hide Slice, DecodeUnsigned, AsciiText, Wrap32;
    crashed := false;
    var cursor := start;
    var prefixLength := DecodeUnsigned(bytes, cursor, 4);
    setting := new ConfigLineSetting();
    cursor := cursor + 4;
    setting.prefixName := AsciiText(Slice(bytes, cursor, cursor + prefixLength));
    cursor := cursor + prefixLength;
    setting.nameLength := Wrap32(DecodeUnsigned(bytes, cursor, 4));
    cursor := cursor + 4;
    var prefixUriLength := DecodeUnsigned(bytes, cursor, 4);
    cursor := cursor + 4;
    setting.prefixUri := AsciiText(Slice(bytes, cursor, cursor + prefixUriLength));
    cursor := cursor + prefixUriLength;
    setting.uriLength := Wrap32(DecodeUnsigned(bytes, cursor, 4));
    cursor := cursor + 4;
    if cursor >= |bytes| {
      crashed := true;
    } else {
      setting.isSequential := bytes[cursor] == 1;
    }
  }

  method ReadFeatures(bytes: seq<byte>, start: nat) returns (crashed: bool, features: seq<byte>)
    ensures crashed == (start + AMOUNT_FEATURES > |bytes|)
    ensures !crashed ==> features == bytes[start..start + AMOUNT_FEATURES]
  {
    var cursor := start;
    crashed, features := false, [];
    for i := 0 to AMOUNT_FEATURES
      invariant cursor == start + i && (i == 0 || cursor <= |bytes|)
      invariant i > 0 ==> features == bytes[start..cursor]
      invariant i == 0 ==> features == []
    {
      if cursor >= |bytes| {
        crashed := true;
        return;
      }
      features := features + [bytes[cursor]];
      cursor := cursor + 1;
    }
  }

  /** `fetch_account_callback`, from the account's base64 text to the object it emits. */
  method FetchAccountCallback(encoded: string) returns (crashed: bool, res: CandyMachineData)
    ensures fresh(res)
    ensures FetchAccount(encoded) == if crashed then None else Some((res.HeaderFields(), res.Contents()))
    ensures !crashed ==> res.tokenStandard < 256
  {
    hide ParseHeader, ParseData, Base64.Decode;
    crashed := true;
    res := new CandyMachineData();
    var outcome := Base64Buffers.Bs64Decode(encoded);
    if outcome != Base64.Crash {
      crashed := ReadHeader(outcome.bytes, res);
      if !crashed {
        crashed := ReadData(outcome.bytes, 120, res);
      }
    }
  }

  /** The account up to the items redeemed. */
  method ReadHeader(accountData: seq<byte>, res: CandyMachineData) returns (crashed: bool)
    modifies res`tokenStandard, res`features, res`authority, res`mintAuthority, res`collectionMint, res`itemsRedeemed
    ensures ParseHeader(accountData) == if crashed then None else Some(res.HeaderFields())
    ensures !crashed ==> res.tokenStandard < 256
  {
    hide Slice, DecodeUnsigned, Wrap64;
    crashed := true;
    var cursor := BASE_DATA_LENGTH;
    if cursor >= |accountData| {
      return;
    }
    res.tokenStandard := accountData[cursor];
    cursor := cursor + 1;
    var features;
    crashed, features := ReadFeatures(accountData, cursor);
    if crashed {
      return;
    }
    cursor := cursor + AMOUNT_FEATURES;
    res.features := features;
    res.authority := Slice(accountData, cursor, cursor + PUBKEY_LENGTH);
    cursor := cursor + PUBKEY_LENGTH;
    res.mintAuthority := Slice(accountData, cursor, cursor + PUBKEY_LENGTH);
    cursor := cursor + PUBKEY_LENGTH;
    res.collectionMint := Slice(accountData, cursor, cursor + PUBKEY_LENGTH);
    cursor := cursor + PUBKEY_LENGTH;
    res.itemsRedeemed := Wrap64(DecodeUnsigned(accountData, cursor, 8));
  }

  /** The rest of the account, from the items available on. */
  method ReadData(accountData: seq<byte>, start: nat, res: CandyMachineData) returns (crashed: bool)
    requires res.configLineSetting == null
    modifies res`itemsAvailable, res`symbol, res`sellerFeeBasisPoints, res`maxSupply, res`isMutable
    modifies res`creators, res`configLineSetting
    ensures ParseData(accountData, start) == if crashed then None else Some(res.Contents())
  {
    hide Slice, DecodeUnsigned, AsciiText, Wrap32, Wrap64, ParseCreators, ParseConfig, CreatorsOf;
    var cursor := start;
    res.itemsAvailable := Wrap64(DecodeUnsigned(accountData, cursor, 8));
    cursor := cursor + 8;
    var nameLength := DecodeUnsigned(accountData, cursor, 4);
    cursor := cursor + 4;
    res.symbol := AsciiText(Slice(accountData, cursor, cursor + nameLength));
    cursor := cursor + nameLength;
    res.sellerFeeBasisPoints := Wrap32(DecodeUnsigned(accountData, cursor, 2));
    cursor := cursor + 2;
    res.maxSupply := Wrap64(DecodeUnsigned(accountData, cursor, 8));
    cursor := cursor + 8;
    if cursor >= |accountData| {
      return true;
    }
    res.isMutable := accountData[cursor] == 1;
    cursor := cursor + 1;
    var creatorsLength := DecodeUnsigned(accountData, cursor, 4);
    cursor := cursor + 4;
    var readCreators;
    crashed, readCreators, cursor := ReadCreators(accountData, cursor, creatorsLength);
    if crashed {
      return;
    }
    res.creators := readCreators;
    if cursor >= |accountData| {
      return true;
    }
    if accountData[cursor] == 1 {
      var setting;
      crashed, setting := ReadConfig(accountData, cursor + 1);
      res.configLineSetting := setting;
    }
  }
}
