/** The 32-byte decoder is exact: five limbs below 2^51 whose value is the
    little-endian integer modulo 2^255. */
module ByteDecoding {
  import opened Words
  import opened Powers
  import opened LittleEndian
  import opened FieldLimbs
  import opened FieldProofs

  lemma ShiftFits(x: byte, weight: nat)
    requires 256 * weight <= 0x1_0000_0000_0000_0000
    ensures Shifted(x, weight) == x * weight
  {
    MulLe(x, weight, 255, weight);
    FitsWord(x * weight);
  }

  /** A 64-bit sum cut at bit 51; the carry survives its cast to a byte. */
  lemma CutFits(x: u64)
    requires x < 0x800_0000_0000_0000
    ensures x == Low51(x) + 0x8_0000_0000_0000 * Wrap8(High51(x))
    ensures 0 <= Low51(x) < 0x8_0000_0000_0000
  {
  }

  lemma OneByte(x: byte)
    ensures FromLE([x]) == x
  {
    assert [x][1..] == [];
    assert FromLE([x]) == x + 256 * FromLE([x][1..]);
  }

  lemma ThreeBytes(s: seq<byte>)
    requires |s| >= 3
    ensures FromLE(s) == s[0] as int + s[1] as int * 0x100 + s[2] as int * 0x1_0000 + 0x100_0000 * FromLE(s[3..])
  {
    assert s[1..][1..] == s[2..] && s[2..][1..] == s[3..];
    assert FromLE(s[1..]) == s[1] + 256 * FromLE(s[2..]);
    assert FromLE(s[2..]) == s[2] + 256 * FromLE(s[3..]);
  }

  lemma SixBytes(s: seq<byte>)
    requires |s| == 6
    ensures FromLE(s) == s[0] as int + s[1] as int * 0x100 + s[2] as int * 0x1_0000 + s[3] as int * 0x100_0000
                         + s[4] as int * 0x1_0000_0000 + s[5] as int * 0x100_0000_0000
  {
    ThreeBytes(s);
    ThreeBytes(s[3..]);
    assert FromLE(s[3..][3..]) == 0;
  }

  lemma SevenBytes(s: seq<byte>)
    requires |s| == 7
    ensures FromLE(s) == s[0] as int + s[1] as int * 0x100 + s[2] as int * 0x1_0000 + s[3] as int * 0x100_0000
                         + s[4] as int * 0x1_0000_0000 + s[5] as int * 0x100_0000_0000
                         + s[6] as int * 0x1_0000_0000_0000
  {
    SixBytes(s[1..]);
  }

  lemma Word0Exact(b: seq<byte>)
    requires |b| == 32
    ensures Word0(b) == FromLE(b[..7])
    ensures Word0(b) < 0x100_0000_0000_0000
  {
    hide Wrap64, Shifted, FromLE;
    ShiftFits(b[1], 0x100);
    ShiftFits(b[2], 0x1_0000);
    ShiftFits(b[3], 0x100_0000);
    ShiftFits(b[4], 0x1_0000_0000);
    ShiftFits(b[5], 0x100_0000_0000);
    ShiftFits(b[6], 0x1_0000_0000_0000);
    SevenBytes(b[..7]);
    FitsWord(FromLE(b[..7]));
  }

  lemma Word1Exact(b: seq<byte>)
    requires |b| == 32
    ensures Word1(b) == Wrap8(High51(Word0(b))) + 0x20 * FromLE(b[7..13])
    ensures Word1(b) < 0x100_0000_0000_0000
  {
    hide Wrap64, Wrap8, Shifted, FromLE, Word0;
    ShiftFits(b[7], 0x20);
    ShiftFits(b[8], 0x2000);
    ShiftFits(b[9], 0x20_0000);
    ShiftFits(b[10], 0x2000_0000);
    ShiftFits(b[11], 0x20_0000_0000);
    ShiftFits(b[12], 0x2000_0000_0000);
    SixBytes(b[7..13]);
    FitsWord(Wrap8(High51(Word0(b))) + 0x20 * FromLE(b[7..13]));
  }

  lemma Word2Exact(b: seq<byte>)
    requires |b| == 32
    ensures Word2(b) == Wrap8(High51(Word1(b))) + 4 * FromLE(b[13..20])
    ensures Word2(b) < 0x800_0000_0000_0000
  {
    hide Wrap64, Wrap8, Shifted, FromLE, Word1;
    ShiftFits(b[13], 0x4);
    ShiftFits(b[14], 0x400);
    ShiftFits(b[15], 0x4_0000);
    ShiftFits(b[16], 0x400_0000);
    ShiftFits(b[17], 0x4_0000_0000);
    ShiftFits(b[18], 0x400_0000_0000);
    ShiftFits(b[19], 0x4_0000_0000_0000);
    SevenBytes(b[13..20]);
    FitsWord(Wrap8(High51(Word1(b))) + 4 * FromLE(b[13..20]));
  }

  lemma Word3Exact(b: seq<byte>)
    requires |b| == 32
    ensures Word3(b) == Wrap8(High51(Word2(b))) + 0x80 * FromLE(b[20..26])
    ensures Word3(b) < 0x100_0000_0000_0000
  {
    hide Wrap64, Wrap8, Shifted, FromLE, Word2;
    ShiftFits(b[20], 0x80);
    ShiftFits(b[21], 0x8000);
    ShiftFits(b[22], 0x80_0000);
    ShiftFits(b[23], 0x8000_0000);
    ShiftFits(b[24], 0x80_0000_0000);
    ShiftFits(b[25], 0x8000_0000_0000);
    SixBytes(b[20..26]);
    FitsWord(Wrap8(High51(Word2(b))) + 0x80 * FromLE(b[20..26]));
  }

  /** The bytes with the top bit cleared, as the decoder's `temp[31] &= 127`. */
  function Masked(b: seq<byte>): seq<byte>
    requires |b| == 32
  {
    b[31 := b[31] % 128]
  }

  lemma Word4Exact(b: seq<byte>)
    requires |b| == 32
    ensures Word4(b) == Wrap8(High51(Word3(b))) + 0x10 * FromLE(Masked(b)[26..32])
    ensures FromLE(Masked(b)[26..32]) < 0x8000_0000_0000
  {
    hide Wrap64, Wrap8, Shifted, FromLE, Word3;
    ShiftFits(b[26], 0x10);
    ShiftFits(b[27], 0x1000);
    ShiftFits(b[28], 0x10_0000);
    ShiftFits(b[29], 0x1000_0000);
    ShiftFits(b[30], 0x10_0000_0000);
    ShiftFits(b[31] % 128, 0x1000_0000_0000);
    SixBytes(Masked(b)[26..32]);
    FitsWord(Wrap8(High51(Word3(b))) + 0x10 * FromLE(Masked(b)[26..32]));
  }

  lemma Powers256()
    ensures Pow256(6) == 0x1_0000_0000_0000 && Pow256(7) == 0x100_0000_0000_0000
    ensures Pow256(1) == 0x100
    ensures Pow256(31) == 0x100_0000_0000_0000_0000_0000_0000_0000_0000_0000_0000_0000_0000_0000_0000_0000
  {
    hide Pow256;
    SmallPow256();
    Pow256Add(2, 4);
    Pow256Add(3, 4);
    Pow256Add(6, 6);
    Pow256Add(12, 12);
    Pow256Add(24, 7);
  }

  lemma TopBit(low: nat, top: byte)
    requires low < 0x100_0000_0000_0000_0000_0000_0000_0000_0000_0000_0000_0000_0000_0000_0000_0000
    ensures low + 0x100_0000_0000_0000_0000_0000_0000_0000_0000_0000_0000_0000_0000_0000_0000_0000 * (top % 128)
         == (low + 0x100_0000_0000_0000_0000_0000_0000_0000_0000_0000_0000_0000_0000_0000_0000_0000 * top)
            % 0x8000_0000_0000_0000_0000_0000_0000_0000_0000_0000_0000_0000_0000_0000_0000_0000
  {
  }

  /** Clearing the top bit is reduction modulo 2^255. */
  lemma MaskedValue(b: seq<byte>)
    requires |b| == 32
    ensures FromLE(Masked(b))
         == FromLE(b) % 0x8000_0000_0000_0000_0000_0000_0000_0000_0000_0000_0000_0000_0000_0000_0000_0000
  {
    hide Pow256, FromLE;
    Powers256();
    var m := Masked(b);
    FromLESplit(b, 31);
    FromLESplit(m, 31);
    FromLEBound(b[..31]);
    assert m[..31] == b[..31];
    assert b[31..] == [b[31]] && m[31..] == [m[31]];
    OneByte(b[31]);
    OneByte(m[31]);
    TopBit(FromLE(b[..31]), b[31]);
  }

  /** The pieces the decoder shifts into its words, put back together. */
  lemma MaskedPieces(b: seq<byte>)
    requires |b| == 32
    ensures FromLE(Masked(b))
         == FromLE(b[..7])
            + 0x100_0000_0000_0000 * (FromLE(b[7..13])
            + 0x1_0000_0000_0000 * (FromLE(b[13..20])
            + 0x100_0000_0000_0000 * (FromLE(b[20..26])
            + 0x1_0000_0000_0000 * FromLE(Masked(b)[26..32]))))
  {
    hide Pow256, FromLE;
    Powers256();
    var m := Masked(b);
    FromLESplit(m, 7);
    FromLESplit(m[7..], 6);
    FromLESplit(m[13..], 7);
    FromLESplit(m[20..], 6);
    assert m[..7] == b[..7] && m[7..][..6] == b[7..13] && m[13..][..7] == b[13..20] && m[20..][..6] == b[20..26];
    assert m[7..][6..] == m[13..] && m[13..][7..] == m[20..] && m[20..][6..] == m[26..32];
  }

  /** The decoder is exact on every 32 bytes, values from P up to 2^255 - 1 included. */
  lemma FromBytesExact(b: seq<byte>)
    requires |b| == 32
    ensures var l := FromBytes(b);
            && l.n0 < 0x8_0000_0000_0000 && l.n1 < 0x8_0000_0000_0000 && l.n2 < 0x8_0000_0000_0000
            && l.n3 < 0x8_0000_0000_0000 && l.n4 < 0x8_0000_0000_0000
            && Value(l) == FromLE(b) % 0x8000_0000_0000_0000_0000_0000_0000_0000_0000_0000_0000_0000_0000_0000_0000_0000
  {
    hide Word0, Word1, Word2, Word3, Word4, Wrap8, Low51, High51, FromLE;
    Word0Exact(b);
    Word1Exact(b);
    Word2Exact(b);
    Word3Exact(b);
    Word4Exact(b);
    CutFits(Word0(b));
    CutFits(Word1(b));
    CutFits(Word2(b));
    CutFits(Word3(b));
    MaskedPieces(b);
    MaskedValue(b);
  }
}
