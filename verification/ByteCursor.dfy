/** Reading and writing byte arrays at a moving cursor. */
module ByteCursor {
  import opened Words
  import opened LittleEndian
  import opened Text

  // Reading

  /** What stands in the array from the cursor on. */
  predicate At(bytes: seq<byte>, cursor: nat, tail: seq<byte>) {
    cursor <= |bytes| && bytes[cursor..] == tail
  }

  lemma ReadByte(bytes: seq<byte>, cursor: nat, b: byte, tail: seq<byte>)
    requires At(bytes, cursor, [b] + tail)
    ensures cursor < |bytes| && bytes[cursor] == b && At(bytes, cursor + 1, tail)
  {
    assert bytes[cursor..][0] == b;
    assert bytes[cursor + 1..] == bytes[cursor..][1..];
  }

  lemma ReadSlice(bytes: seq<byte>, cursor: nat, b: seq<byte>, tail: seq<byte>)
    requires At(bytes, cursor, b + tail)
    ensures Slice(bytes, cursor, cursor + |b|) == b && At(bytes, cursor + |b|, tail)
  {
    assert bytes[cursor + |b|..] == bytes[cursor..][|b|..];
    assert bytes[cursor..cursor + |b|] == bytes[cursor..][..|b|];
  }

  lemma ReadInt(bytes: seq<byte>, cursor: nat, n: int, width: nat, tail: seq<byte>)
    requires At(bytes, cursor, ToLE(n, width) + tail)
    ensures Pow256(width) > 0 && DecodeUnsigned(bytes, cursor, width) == n % Pow256(width)
    ensures At(bytes, cursor + width, tail)
  {
    hide Pow256, FromLE, ToLE;
    ReadSlice(bytes, cursor, ToLE(n, width), tail);
    FromToLE(n, width);
  }

  lemma ReadSmall(bytes: seq<byte>, cursor: nat, n: nat, width: nat, tail: seq<byte>)
    requires At(bytes, cursor, ToLE(n, width) + tail)
    requires || (width == 2 && n < 0x1_0000)
             || (width == 4 && n < 0x1_0000_0000)
             || (width == 8 && n < 0x1_0000_0000_0000_0000)
    ensures DecodeUnsigned(bytes, cursor, width) == n && At(bytes, cursor + width, tail)
  {
    hide Pow256, ToLE, DecodeUnsigned, At;
    ReadInt(bytes, cursor, n, width, tail);
    SmallPow256();
    ModUnique(n, Pow256(width), 0, n);
  }

  // Writing

  /** The buffer up to the cursor. */
  ghost predicate Filled(a: array<byte>, cursor: nat, done: seq<byte>)
    reads a
  {
    cursor <= a.Length && a[..cursor] == done
  }

  lemma NothingFilled(a: array<byte>)
    ensures Filled(a, 0, [])
  {
  }

  lemma AllFilled(a: array<byte>, done: seq<byte>)
    requires Filled(a, a.Length, done)
    ensures a[..] == done
  {
  }

  /** `encode_u8` .. `encode_s64`. */
  method EncodeAt(a: array<byte>, cursor: nat, n: int, width: nat, ghost done: seq<byte>)
    requires cursor + width <= a.Length && Filled(a, cursor, done)
    modifies a
    ensures Filled(a, cursor + width, done + ToLE(n, width))
  {
    hide Filled, ToLE;
    WriteBytes(a, cursor, ToLE(n, width), done);
  }

  /** The loops that copy a string or another array, one byte at a time. */
  method WriteBytes(a: array<byte>, cursor: nat, b: seq<byte>, ghost done: seq<byte>)
    requires cursor + |b| <= a.Length && Filled(a, cursor, done)
    modifies a
    ensures Filled(a, cursor + |b|, done + b)
  {
    for i := 0 to |b|
      invariant a[..cursor + i] == done + b[..i]
    {
      ghost var before := a[..];
      a[cursor + i] := b[i];
      assert a[..cursor + i] == before[..cursor + i];
    }
  }

  method PutByte(a: array<byte>, cursor: nat, b: byte, ghost done: seq<byte>)
    requires cursor < a.Length && Filled(a, cursor, done)
    modifies a
    ensures Filled(a, cursor + 1, done + [b])
  {
    a[cursor] := b;
  }
}
