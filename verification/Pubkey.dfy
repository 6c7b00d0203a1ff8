/** The Pubkey object and the program-address search that is hand-copied in
    several places. Program identifiers and the bytes of key arguments are
    parameters. */
module Pubkeys {
  import opened Words
  import opened Text
  import opened Sha256
  import opened Sha256Stream
  import opened Base58
  import opened Base58Buffers
  import opened CurvePoint
  import opened FieldElements

  const MAX_SEED_LEN := 32
  const MAX_SEEDS := 16

  /** "ProgramDerivedAddress" */
  const PDA_MARKER: seq<byte> :=
    [80, 114, 111, 103, 114, 97, 109, 68, 101, 114, 105, 118, 101, 100, 65, 100, 100, 114, 101, 115, 115]

  // What a program address is

  predicate WithinLimits(seeds: seq<seq<byte>>) {
    |seeds| <= MAX_SEEDS && forall i :: 0 <= i < |seeds| ==> |seeds[i]| <= MAX_SEED_LEN
  }

  function AddressInput(seeds: seq<seq<byte>>, programId: seq<byte>): seq<byte> {
    Concat(seeds) + programId + PDA_MARKER
  }

  function Address(seeds: seq<seq<byte>>, programId: seq<byte>): (a: seq<byte>)
    ensures |a| == 32
  {
    Hash(AddressInput(seeds, programId))
  }

  /** The constants are the texts they stand for. */
  lemma MarkerTexts()
    ensures PDA_MARKER == AsciiBytes("ProgramDerivedAddress")
    ensures METADATA_SEED == AsciiBytes("metadata") && EDITION_SEED == AsciiBytes("edition")
  {
  }

  lemma ConcatTwo(seeds: seq<seq<byte>>, a: seq<byte>, b: seq<byte>)
    ensures Concat(seeds + [a, b]) == Concat(seeds) + a + b
  {
    var (one, two) := (seeds + [a], seeds + [a, b]);
    assert two[..|two| - 1] == one && one[..|one| - 1] == seeds;
  }

  /** Pieces are put together in their order: each keeps the place behind the
      pieces before it. */
  lemma {:induction false} ConcatPlaces(pieces: seq<seq<byte>>, i: nat)
    requires i < |pieces|
    ensures var (before, whole) := (Concat(pieces[..i]), Concat(pieces));
            && |before| + |pieces[i]| <= |whole|
            && whole[|before|..|before| + |pieces[i]|] == pieces[i]
    ensures |Concat([])| == 0 && |Concat(pieces[..i + 1])| == |Concat(pieces[..i])| + |pieces[i]|
  {
    assert pieces[..i + 1][..i] == pieces[..i];
    var init := pieces[..|pieces| - 1];
    if i < |init| {
      ConcatPlaces(init, i);
      assert init[..i] == pieces[..i];
    }
  }

  lemma NoPieces()
    ensures Concat([]) == []
  {
  }

  lemma OnePieceMore(pieces: seq<seq<byte>>)
    requires pieces != []
    ensures Concat(pieces) == Concat(pieces[..|pieces| - 1]) + pieces[|pieces| - 1]
  {
  }

  lemma InputIs(seeds: seq<seq<byte>>, programId: seq<byte>)
    ensures AddressInput(seeds, programId) == Concat(seeds) + programId + PDA_MARKER
  {
  }

  /** What is hashed: the seeds, the program identifier, and the marker last. */
  lemma AddressHashes(seeds: seq<seq<byte>>, programId: seq<byte>)
    ensures AddressInput(seeds, programId) == Concat(seeds + [programId, AsciiBytes("ProgramDerivedAddress")])
  {
    hide Concat;
    MarkerTexts();
    ConcatTwo(seeds, programId, PDA_MARKER);
  }

  predicate IsProgramAddress(seeds: seq<seq<byte>>, programId: seq<byte>) {
    WithinLimits(seeds) && !IsYPointValid(Address(seeds, programId))
  }

  /** The bump b, appended as a last seed, gives a program address. */
  predicate BumpWorks(seeds: seq<seq<byte>>, programId: seq<byte>, b: byte) {
    IsProgramAddress(seeds + [[b]], programId)
  }

  /** No bump from 255 down to, but not including, b works. */
  predicate NoneAbove(seeds: seq<seq<byte>>, programId: seq<byte>, b: byte) {
    forall c: byte :: b < c ==> !BumpWorks(seeds, programId, c)
  }

  predicate LargestBump(seeds: seq<seq<byte>>, programId: seq<byte>, b: byte) {
    1 <= b && BumpWorks(seeds, programId, b) && NoneAbove(seeds, programId, b)
  }

  class Pubkey {
    var bytes: seq<byte>
    var value: string

    /** The text and the bytes name the same key, unless the text was no base58. */
    ghost predicate Consistent()
      reads this
    {
      bytes != [] ==> value == Encode(bytes)
    }

    constructor ()
      ensures Consistent() && bytes == [] && value == ""
    {
      bytes, value := [], "";
    }

    method FromString(v: string)
      modifies this
      ensures value == v && bytes == Decode(v) && Consistent()
    {
      value := v;
      bytes := Bs58Decode(value);
      EncodeDecode(v);
    }

    method FromBytes(b: seq<byte>)
      requires |b| * 138 / 100 + 1 < 0x1_0000_0000
      modifies this
      ensures bytes == b && value == (if b == [] then "" else Encode(b)) && Consistent()
    {
      bytes := b;
      if |bytes| == 0 {
        value := "";
      } else {
        value := Bs58Encode(bytes);
      }
    }

    /** `create_program_address_bytes`: refused outside the seed limits, and when
        the hash is a curve point; the key is then left as it was. */
    method CreateProgramAddressBytes(seeds: seq<seq<byte>>, programId: seq<byte>) returns (ok: bool)
      modifies this
      ensures var hash := Hash(Concat(seeds + [programId, AsciiBytes("ProgramDerivedAddress")]));
              && (ok <==> WithinLimits(seeds) && !IsYPointValid(hash))
              && (ok ==> bytes == hash && value == Encode(bytes))
      ensures ok == IsProgramAddress(seeds, programId) && (ok ==> bytes == Address(seeds, programId))
      ensures !ok ==> bytes == old(bytes) && value == old(value)
    {
      hide IsYPointValid, Encode, AddressInput, Hash, Concat, AsciiBytes, SHA256.Valid, SHA256.Shaped;
      AddressHashes(seeds, programId);
      var inLimits := SeedsWithinLimits(seeds);
      if !inLimits {
        return false;
      }
      var hasher := new SHA256();
      NoPieces();
      var i := 0;
      while i < |seeds|
        invariant 0 <= i <= |seeds|
        invariant hasher.Valid() && hasher.message == Concat(seeds[..i])
        invariant fresh(hasher) && fresh(hasher.data) && fresh(hasher.state)
        invariant bytes == old(bytes) && value == old(value)
      {
        hasher.Update(seeds[i]);
        i := i + 1;
        OnePieceMore(seeds[..i]);
        assert seeds[..i][..i - 1] == seeds[..i - 1];
      }
      assert seeds[..i] == seeds;
      hasher.Update(programId);
      hasher.Update(PDA_MARKER);
      InputIs(seeds, programId);
      var hash := hasher.Digest();
      var newBytes := hash[..];
      var isPoint := CurveTest(newBytes);
      if isPoint {
        return false;
      }
      FromBytes(newBytes);
      ok := true;
    }
  }

  method SeedsWithinLimits(seeds: seq<seq<byte>>) returns (ok: bool)
    ensures ok == WithinLimits(seeds)
  {
    if |seeds| > MAX_SEEDS {
      return false;
    }
    for i := 0 to |seeds|
      invariant forall j :: 0 <= j < i ==> |seeds[j]| <= MAX_SEED_LEN
    {
      if |seeds[i]| > MAX_SEED_LEN {
        return false;
      }
    }
    ok := true;
  }

  lemma NoneAboveStart(seeds: seq<seq<byte>>, programId: seq<byte>)
    ensures NoneAbove(seeds, programId, 255)
  {
  }

  /** What every copy of the search returns: the key of the largest bump that
      works, or none when none does. */
  ghost predicate IsSearchResult(seeds: seq<seq<byte>>, programId: seq<byte>, res: Pubkey?)
    reads res
  {
    if res == null then NoneAbove(seeds, programId, 0)
    else
      && res.value == Encode(res.bytes)
      && exists b: byte :: LargestBump(seeds, programId, b) && res.bytes == Address(seeds + [[b]], programId)
  }

  lemma Found(seeds: seq<seq<byte>>, programId: seq<byte>, b: byte, res: Pubkey)
    requires LargestBump(seeds, programId, b)
    requires res.bytes == Address(seeds + [[b]], programId) && res.value == Encode(res.bytes)
    ensures IsSearchResult(seeds, programId, res)
  {
  }

  lemma NotFound(seeds: seq<seq<byte>>, programId: seq<byte>)
    requires NoneAbove(seeds, programId, 0)
    ensures IsSearchResult(seeds, programId, null)
  {
  }

  /** The step that every copy of the loop shares: what trying bump i decides. */
  lemma BumpTried(seeds: seq<seq<byte>>, programId: seq<byte>, b: byte, arr: seq<seq<byte>>)
    requires 1 <= b && NoneAbove(seeds, programId, b) && arr == seeds + [[b]]
    ensures IsProgramAddress(arr, programId) ==> LargestBump(seeds, programId, b)
    ensures !IsProgramAddress(arr, programId) ==> NoneAbove(seeds, programId, b - 1)
  {
    hide IsProgramAddress;
  }

  /** `new_pda_bytes`; no key when the program identifier is of no key type. */
  method NewPdaBytes(seeds: seq<seq<byte>>, isValidKey: bool, programId: seq<byte>) returns (res: Pubkey?)
    ensures !isValidKey ==> res == null
    ensures isValidKey ==> IsSearchResult(seeds, programId, res)
  {
    if !isValidKey {
      return null;
    }
    hide NoneAbove, LargestBump, Encode, Address, IsProgramAddress, IsSearchResult, WithinLimits, Hash, Concat;
    var arr := [];
    for j := 0 to |seeds|
      invariant arr == seeds[..j]
    {
      arr := arr + [seeds[j]];
    }
    arr := arr + [[]];
    var key := new Pubkey();
    NoneAboveStart(seeds, programId);
    var i := 255;
    while i > 0
      invariant 0 <= i <= 255
      invariant |arr| == |seeds| + 1 && arr[..|seeds|] == seeds
      invariant NoneAbove(seeds, programId, i)
    {
      arr := arr[|arr| - 1 := [i]];
      BumpTried(seeds, programId, i, arr);
      var found := key.CreateProgramAddressBytes(arr, programId);
      if found {
        Found(seeds, programId, i, key);
        return key;
      }
      i := i - 1;
    }
    NotFound(seeds, programId);
    return null;
  }

  function AllAsciiBytes(seeds: seq<AsciiString>): (b: seq<seq<byte>>)
    ensures |b| == |seeds| && forall i :: 0 <= i < |seeds| ==> b[i] == AsciiBytes(seeds[i])
  {
    seq(|seeds|, i requires 0 <= i < |seeds| => AsciiBytes(seeds[i]))
  }

  /** `new_pda`, the copy that takes text seeds. */
  method NewPda(seeds: seq<AsciiString>, isValidKey: bool, programId: seq<byte>) returns (res: Pubkey?)
    ensures !isValidKey ==> res == null
    ensures isValidKey ==> IsSearchResult(AllAsciiBytes(seeds), programId, res)
  {
    if !isValidKey {
      return null;
    }
    hide NoneAbove, LargestBump, Encode, Address, IsProgramAddress, IsSearchResult, WithinLimits, Hash, Concat;
    hide AsciiBytes;
    ghost var all := AllAsciiBytes(seeds);
    var arr := [];
    for j := 0 to |seeds|
      invariant arr == all[..j]
    {
      arr := arr + [AsciiBytes(seeds[j])];
    }
    arr := arr + [[]];
    var key := new Pubkey();
    NoneAboveStart(all, programId);
    var i := 255;
    while i > 0
      invariant 0 <= i <= 255
      invariant |arr| == |all| + 1 && arr[..|all|] == all
      invariant NoneAbove(all, programId, i)
    {
      arr := arr[|arr| - 1 := [i]];
      BumpTried(all, programId, i, arr);
      var found := key.CreateProgramAddressBytes(arr, programId);
      if found {
        Found(all, programId, i, key);
        return key;
      }
      i := i - 1;
    }
    NotFound(all, programId);
    return null;
  }

  /** `new_associated_token_address`, the copy that overwrites element 3. */
  method NewAssociatedTokenAddress(wallet: seq<byte>, mint: seq<byte>, tokenProgram: seq<byte>,
                                   associatedProgram: seq<byte>)
    returns (res: Pubkey?)
    ensures IsSearchResult([wallet, tokenProgram, mint], associatedProgram, res)
  {
    hide NoneAbove, LargestBump, Encode, Address, IsProgramAddress, IsSearchResult, WithinLimits, Hash, Concat;
    ghost var seeds := [wallet, tokenProgram, mint];
    var arr := [wallet, tokenProgram, mint, []];
    var key := new Pubkey();
    NoneAboveStart(seeds, associatedProgram);
    var i := 255;
    while i > 0
      invariant 0 <= i <= 255
      invariant |arr| == 4 && arr[..3] == seeds
      invariant NoneAbove(seeds, associatedProgram, i)
    {
      arr := arr[3 := [i]];
      BumpTried(seeds, associatedProgram, i, arr);
      var found := key.CreateProgramAddressBytes(arr, associatedProgram);
      if found {
        Found(seeds, associatedProgram, i, key);
        return key;
      }
      i := i - 1;
    }
    NotFound(seeds, associatedProgram);
    return null;
  }

  /** "metadata" and "edition" */
  const METADATA_SEED: seq<byte> := [109, 101, 116, 97, 100, 97, 116, 97]
  const EDITION_SEED: seq<byte> := [101, 100, 105, 116, 105, 111, 110]

  /** `new_associated_metadata_pubkey` */
  method NewAssociatedMetadataPubkey(mint: seq<byte>, pid: seq<byte>) returns (res: Pubkey?)
    ensures IsSearchResult([METADATA_SEED, pid, mint], pid, res)
  {
    hide NoneAbove, LargestBump, Encode, Address, IsProgramAddress, IsSearchResult, WithinLimits, Hash, Concat;
    ghost var seeds := [METADATA_SEED, pid, mint];
    var arr := [METADATA_SEED, pid, mint, []];
    res := new Pubkey();
    NoneAboveStart(seeds, pid);
    var i := 255;
    while i > 0
      invariant 0 <= i <= 255
      invariant res != null && fresh(res)
      invariant |arr| == 4 && arr[..3] == seeds
      invariant NoneAbove(seeds, pid, i)
    {
      arr := arr[|arr| - 1 := [i]];
      BumpTried(seeds, pid, i, arr);
      var found := res.CreateProgramAddressBytes(arr, pid);
      if found {
        Found(seeds, pid, i, res);
        return;
      }
      i := i - 1;
    }
    NotFound(seeds, pid);
    return null;
  }

  /** `new_associated_metadata_pubkey_master_edition` */
  method NewAssociatedMetadataPubkeyMasterEdition(mint: seq<byte>, pid: seq<byte>) returns (res: Pubkey?)
    ensures IsSearchResult([METADATA_SEED, pid, mint, EDITION_SEED], pid, res)
  {
    hide NoneAbove, LargestBump, Encode, Address, IsProgramAddress, IsSearchResult, WithinLimits, Hash, Concat;
    ghost var seeds := [METADATA_SEED, pid, mint, EDITION_SEED];
    var arr := [METADATA_SEED, pid, mint, EDITION_SEED, []];
    res := new Pubkey();
    NoneAboveStart(seeds, pid);
    var i := 255;
    while i > 0
      invariant 0 <= i <= 255
      invariant res != null && fresh(res)
      invariant |arr| == 5 && arr[..4] == seeds
      invariant NoneAbove(seeds, pid, i)
    {
      arr := arr[|arr| - 1 := [i]];
      BumpTried(seeds, pid, i, arr);
      var found := res.CreateProgramAddressBytes(arr, pid);
      if found {
        Found(seeds, pid, i, res);
        return;
      }
      i := i - 1;
    }
    NotFound(seeds, pid);
    return null;
  }

  // Laws of the search

  /** The key that bump b stands for, b as a seed of one byte behind the others. */
  ghost function BumpKey(seeds: seq<seq<byte>>, programId: seq<byte>, b: byte): seq<byte> {
    Hash(Concat(seeds + [[b], programId, AsciiBytes("ProgramDerivedAddress")]))
  }

  /** A bump may be used: it leaves room for itself, and its key is off the curve. */
  ghost predicate BumpUsable(seeds: seq<seq<byte>>, programId: seq<byte>, b: byte) {
    && |seeds| <= 15 && (forall i :: 0 <= i < |seeds| ==> |seeds[i]| <= 32)
    && !IsYPointValid(BumpKey(seeds, programId, b))
  }

  lemma BumpMeans(seeds: seq<seq<byte>>, programId: seq<byte>, b: byte)
    ensures Address(seeds + [[b]], programId) == BumpKey(seeds, programId, b)
    ensures BumpWorks(seeds, programId, b) <==> BumpUsable(seeds, programId, b)
  {
    hide IsYPointValid, Hash, AddressInput, Concat, AsciiBytes;
    var all := seeds + [[b]];
    assert all + [programId, AsciiBytes("ProgramDerivedAddress")]
        == seeds + [[b], programId, AsciiBytes("ProgramDerivedAddress")];
    AddressHashes(all, programId);
    assert all[|seeds|] == [b] && forall i :: 0 <= i < |seeds| ==> all[i] == seeds[i];
  }

  /** The answer of every search: the key of the largest usable bump from 255 down
      to 1, and none exactly when no bump from 255 down to 1 is usable. */
  lemma SearchAnswer(seeds: seq<seq<byte>>, programId: seq<byte>, res: Pubkey?)
    requires IsSearchResult(seeds, programId, res)
    ensures res == null <==> forall b: byte :: 1 <= b ==> !BumpUsable(seeds, programId, b)
    ensures forall b: byte ::
              && 1 <= b && BumpUsable(seeds, programId, b)
              && (forall c: byte :: b < c ==> !BumpUsable(seeds, programId, c))
              ==> res != null && res.bytes == BumpKey(seeds, programId, b) && res.value == Encode(res.bytes)
  {
    hide BumpUsable, BumpWorks, BumpKey, Address, Encode;
    forall b: byte
      ensures Address(seeds + [[b]], programId) == BumpKey(seeds, programId, b)
      ensures BumpWorks(seeds, programId, b) <==> BumpUsable(seeds, programId, b)
    {
      BumpMeans(seeds, programId, b);
    }
  }

  /** The search has one answer: two keys it may return are the same key. */
  lemma SearchIsDeterministic(seeds: seq<seq<byte>>, programId: seq<byte>, res: Pubkey?, res': Pubkey?)
    requires IsSearchResult(seeds, programId, res) && IsSearchResult(seeds, programId, res')
    ensures res == null <==> res' == null
    ensures res != null && res' != null ==> res.bytes == res'.bytes && res.value == res'.value
  {
    hide BumpWorks;
    if res != null && res' != null {
      var b: byte :| LargestBump(seeds, programId, b) && res.bytes == Address(seeds + [[b]], programId);
      var b': byte :| LargestBump(seeds, programId, b') && res'.bytes == Address(seeds + [[b']], programId);
      assert b == b';
    }
  }

  /** A seed too many or too long leaves nothing to find. */
  lemma LimitsBroken(seeds: seq<seq<byte>>, programId: seq<byte>)
    requires |seeds| >= MAX_SEEDS || exists i :: 0 <= i < |seeds| && |seeds[i]| > MAX_SEED_LEN
    ensures NoneAbove(seeds, programId, 0)
  {
    hide IsYPointValid, Address;
    forall b: byte ensures !BumpWorks(seeds, programId, b) {
      if |seeds| < MAX_SEEDS {
        var i :| 0 <= i < |seeds| && |seeds[i]| > MAX_SEED_LEN;
        assert |(seeds + [[b]])[i]| > MAX_SEED_LEN;
      }
    }
  }

  predicate SeedsAllowed(seeds: seq<seq<byte>>) {
    |seeds| < MAX_SEEDS && forall i :: 0 <= i < |seeds| ==> |seeds[i]| <= MAX_SEED_LEN
  }

  /** Only the concatenation of the seeds reaches the hash: for two lists within
      the limits that concatenate to the same bytes the search has the same
      results, none included. */
  lemma SameConcatenation(seeds: seq<seq<byte>>, seeds': seq<seq<byte>>, programId: seq<byte>, res: Pubkey?)
    requires SeedsAllowed(seeds) && SeedsAllowed(seeds')
    requires Concat(seeds) == Concat(seeds')
    ensures forall b: byte :: LargestBump(seeds, programId, b) <==> LargestBump(seeds', programId, b)
    ensures IsSearchResult(seeds, programId, res) <==> IsSearchResult(seeds', programId, res)
  {
    hide Address, IsProgramAddress, Encode, SeedsAllowed, Concat;
    forall b: byte
      ensures Address(seeds + [[b]], programId) == Address(seeds' + [[b]], programId)
      ensures BumpWorks(seeds, programId, b) <==> BumpWorks(seeds', programId, b)
    {
      SameBump(seeds, seeds', programId, b);
    }
  }

  lemma SameBump(seeds: seq<seq<byte>>, seeds': seq<seq<byte>>, programId: seq<byte>, b: byte)
    requires SeedsAllowed(seeds) && SeedsAllowed(seeds') && Concat(seeds) == Concat(seeds')
    ensures Address(seeds + [[b]], programId) == Address(seeds' + [[b]], programId)
    ensures BumpWorks(seeds, programId, b) <==> BumpWorks(seeds', programId, b)
  {
    hide Hash, IsYPointValid;
    assert (seeds + [[b]])[..|seeds|] == seeds && (seeds' + [[b]])[..|seeds'|] == seeds';
    WithBump(seeds, b);
    WithBump(seeds', b);
  }

  lemma WithBump(seeds: seq<seq<byte>>, b: byte)
    requires SeedsAllowed(seeds)
    ensures WithinLimits(seeds + [[b]])
  {
  }
}
