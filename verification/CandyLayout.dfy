/** The bytes of a candy machine account at their offsets. */
module CandyLayout {
  import opened Words
  import opened Options
  import opened LittleEndian
  import opened Text
  import opened ByteCursor
  import opened CandyMachine

  /** 32 bytes of address, whether it is verified, and the share. */
  lemma CreatorLayout(c: Creator)
    requires |c.address| == 32
    ensures var b := CreatorBytes(c);
            && |b| == 34 && b[..32] == c.address
            && b[32] == (if c.verified then 1 else 0) && b[33] == c.share % 256
  {
  }

  lemma {:induction false} CreatorsLayout(cs: seq<Creator>, i: nat)
    requires i < |cs| && forall j :: 0 <= j < |cs| ==> |cs[j].address| == 32
    ensures |CreatorsBytes(cs)| == 34 * |cs|
    ensures CreatorsBytes(cs)[34 * i..34 * i + 34] == CreatorBytes(cs[i])
  {
    hide CreatorBytes;
    LengthOfCreators(cs);
    CreatorLayout(cs[0]);
    if i > 0 {
      CreatorsLayout(cs[1..], i - 1);
      assert CreatorsBytes(cs)[34 * i..34 * i + 34] == CreatorsBytes(cs[1..])[34 * (i - 1)..34 * (i - 1) + 34];
    }
  }

  /** The serialised data: numbers little-endian, texts as ASCII codes, truths as 0
      or 1, creators of 34 bytes, the setting behind its flag, and a last 0. */
  lemma SerializedLayout(d: Data)
    requires Sized(d)
    ensures var (b, n, k) := (Serialize(d), |d.symbol|, |d.creators|);
            var (at, flag) := (27 + n, 27 + n + 34 * k);
            && |b| >= flag + 2
            && DecodeUnsigned(b, 0, 8) == d.itemsAvailable && DecodeUnsigned(b, 8, 4) == n
            && (forall i :: 0 <= i < n ==> b[12 + i] == d.symbol[i] as int)
            && DecodeUnsigned(b, 12 + n, 2) == d.sellerFee % 0x1_0000 && DecodeUnsigned(b, 14 + n, 8) == d.maxSupply
            && b[22 + n] == (if d.isMutable then 1 else 0) && DecodeUnsigned(b, 23 + n, 4) == k
            && (forall i :: 0 <= i < k ==> b[at + 34 * i..at + 34 * i + 34] == CreatorBytes(d.creators[i]))
            && b[flag] == (if d.config.Some? then 1 else 0)
            && b[flag + 1..|b| - 1] == (if d.config.Some? then ConfigBytes(d.config.value) else [])
            && b[|b| - 1] == 0
  {
    hide At, DecodeUnsigned, FixedBytes, CreatorsBytes, CreatorBytes, ConfigBytes, ToLE;
    var (n, k) := (|d.symbol|, |d.creators|);
    var (fixed, creators, setting) := (FixedBytes(d), CreatorsBytes(d.creators), SettingBytes(d.config));
    var b := Serialize(d);
    assert b == fixed + (creators + setting + [0]);
    assert At(b, 0, fixed + (creators + setting + [0])) by { FromStart(b); }
    FixedReadsBack(b, 0, d, creators + setting + [0]);
    FixedParts(d);
    LengthOfCreators(d.creators);
    assert b == (fixed + creators) + (setting + [0]);
    forall i | 0 <= i < k
      ensures b[27 + n + 34 * i..27 + n + 34 * i + 34] == CreatorBytes(d.creators[i])
    {
      CreatorsLayout(d.creators, i);
      Inside(fixed, creators, setting + [0], 34 * i, 34 * i + 34);
    }
  }

  lemma FromStart(b: seq<byte>)
    ensures At(b, 0, b)
  {
  }

  lemma Inside(a: seq<byte>, b: seq<byte>, c: seq<byte>, from: nat, end: nat)
    requires from <= end <= |b|
    ensures (a + b + c)[|a| + from..|a| + end] == b[from..end]
  {
  }

  lemma FixedParts(d: Data)
    ensures var (b, n) := (FixedBytes(d), |d.symbol|);
            && |b| == 27 + n && (forall i :: 0 <= i < n ==> b[12 + i] == d.symbol[i] as int)
            && b[22 + n] == (if d.isMutable then 1 else 0)
  {
    hide ToLE;
    var text := AsciiBytes(d.symbol);
    assert FixedBytes(d) == (ToLE(d.itemsAvailable, 8) + ToLE(|d.symbol|, 4)) + text
                            + (ToLE(d.sellerFee, 2) + ToLE(d.maxSupply, 8) + [Flag(d.isMutable)]
                               + ToLE(|d.creators|, 4));
  }

  /** The config line setting: two texts, each behind its length and before a
      number, and a truth. */
  lemma ConfigLayout(c: Config)
    requires |c.prefixName| < 0x1_0000_0000 && |c.prefixUri| < 0x1_0000_0000
    ensures var (b, p, u) := (ConfigBytes(c), |c.prefixName|, |c.prefixUri|);
            && |b| == 17 + p + u
            && DecodeUnsigned(b, 0, 4) == p && (forall i :: 0 <= i < p ==> b[4 + i] == c.prefixName[i] as int)
            && DecodeUnsigned(b, 4 + p, 4) == c.nameLength
            && DecodeUnsigned(b, 8 + p, 4) == u && (forall i :: 0 <= i < u ==> b[12 + p + i] == c.prefixUri[i] as int)
            && DecodeUnsigned(b, 12 + p + u, 4) == c.uriLength
            && b[16 + p + u] == (if c.isSequential then 1 else 0)
  {
    hide At, Slice, Flag, DecodeUnsigned, ToLE, TextBytes, AsciiBytes;
    var b := ConfigBytes(c);
    ConfigLength(c);
    var tail3 := ToLE(c.uriLength, 4) + [Flag(c.isSequential)];
    var tail2 := TextBytes(c.prefixUri) + tail3;
    var tail1 := ToLE(c.nameLength, 4) + tail2;
    assert b == TextBytes(c.prefixName) + tail1;
    FromStart(b);
    ReadText(b, 0, c.prefixName, tail1);
    var at := 4 + |c.prefixName|;
    ReadSmall(b, at, c.nameLength, 4, tail2);
    ReadText(b, at + 4, c.prefixUri, tail3);
    var after := at + 8 + |c.prefixUri|;
    ReadSmall(b, after, c.uriLength, 4, [Flag(c.isSequential)]);
    assert [Flag(c.isSequential)] + [] == [Flag(c.isSequential)];
    ReadByte(b, after + 4, Flag(c.isSequential), []);
    FlagValue(c.isSequential);
    TextHere(b, 4, c.prefixName);
    TextHere(b, at + 8, c.prefixUri);
  }

  lemma FlagValue(b: bool)
    ensures Flag(b) == if b then 1 else 0
  {
  }

  lemma TextHere(b: seq<byte>, at: nat, s: AsciiString)
    requires at + |s| <= |b| && Slice(b, at, at + |s|) == AsciiBytes(s)
    ensures forall i :: 0 <= i < |s| ==> b[at + i] == s[i] as int
  {
    forall i | 0 <= i < |s| ensures b[at + i] == s[i] as int {
      assert b[at + i] == b[at..at + |s|][i];
    }
  }

  /** The account's header: the three keys are the authority, the mint authority and
      the collection mint, in this order. */
  lemma HeaderLayout(pre: seq<byte>, h: Header, tail: seq<byte>)
    requires |pre| == 9 && SizedHeader(h)
    ensures var b := pre + HeaderBytes(h) + tail;
            && |b| == 120 + |tail| && b[9] == h.tokenStandard && b[10..16] == h.features
            && b[16..48] == h.authority && b[48..80] == h.mintAuthority && b[80..112] == h.collectionMint
            && DecodeUnsigned(b, 112, 8) == h.itemsRedeemed && b[120..] == tail
  {
    hide DecodeUnsigned, ToLE;
    var b := pre + HeaderBytes(h) + tail;
    HeaderReadsBack(pre, h, tail);
    HeaderNumber(b);
    assert b == pre + ([h.tokenStandard] + (h.features + (h.authority + (h.mintAuthority + (h.collectionMint
                       + (ToLE(h.itemsRedeemed, 8) + tail))))));
  }

  lemma HeaderNumber(b: seq<byte>)
    requires |b| >= 120
    ensures ParseHeader(b).Some? && ParseHeader(b).value.itemsRedeemed == DecodeUnsigned(b, 112, 8)
  {
    hide Pow256;
    FromLEBound(b[112..120]);
    SmallPow256();
  }
}
