/** The CompactSize encoding of a count: one byte, or a tag and two, four or eight. */
module CompactSize {
  import opened Bytes

  const U16_TAG: byte := 0xfd
  const U32_TAG: byte := 0xfe
  const U64_TAG: byte := 0xff
  const MAX_1 := 0xfc
  const MAX_2 := 0xffff
  const MAX_4 := 0xffff_ffff
  const U64_MAX := 0xffff_ffff_ffff_ffff

  datatype Decoded = Count(n: nat, len: nat) | Truncated | BadCompactSize

  lemma Pows()
    ensures Pow256(2) == MAX_2 + 1 && Pow256(4) == MAX_4 + 1 && Pow256(8) == U64_MAX + 1
  {
    assert Pow256(0) == 1 && Pow256(1) == 256 && Pow256(2) == 0x1_0000 && Pow256(3) == 0x100_0000;
    assert Pow256(4) == 0x1_0000_0000 && Pow256(5) == 0x100_0000_0000 && Pow256(6) == 0x1_0000_0000_0000;
    assert Pow256(7) == 0x100_0000_0000_0000;
  }

  function Encode(n: nat): seq<byte>
    requires n <= U64_MAX
  {
    if n <= MAX_1 then [n]
    else if n <= MAX_2 then [U16_TAG] + LeBytes(n, 2)
    else if n <= MAX_4 then [U32_TAG] + LeBytes(n, 4)
    else [U64_TAG] + LeBytes(n, 8)
  }

  /** A tagged count of `width` bytes, refused below the least that needs them. */
  function DecodeTagged(bytes: seq<byte>, width: nat, least: nat): Decoded
    requires bytes != []
  {
    if |bytes| < 1 + width then Truncated
    else
      var n := FromLe(bytes[1..1 + width]);
      if n < least then BadCompactSize else Count(n, 1 + width)
  }

  function Decode(bytes: seq<byte>): Decoded {
    if bytes == [] then Truncated
    else if bytes[0] == U16_TAG then DecodeTagged(bytes, 2, MAX_1 + 1)
    else if bytes[0] == U32_TAG then DecodeTagged(bytes, 4, MAX_2 + 1)
    else if bytes[0] == U64_TAG then DecodeTagged(bytes, 8, MAX_4 + 1)
    else Count(bytes[0], 1)
  }

  /** Decoding what was encoded, whatever follows it, gives the count and its length back. */
  lemma DecodeOfEncode(n: nat, rest: seq<byte>)
    requires n <= U64_MAX
    ensures Decode(Encode(n) + rest) == Count(n, |Encode(n)|)
  {
    Pows();
    var bytes := Encode(n) + rest;
    if n > MAX_1 {
      var width := if n <= MAX_2 then 2 else if n <= MAX_4 then 4 else 8;
      assert bytes[1..1 + width] == LeBytes(n, width);
      LeRoundTrip(n, width);
    }
  }

  /** And every count that decodes was encoded that way: no longer form of it is accepted. */
  lemma EncodeOfDecode(bytes: seq<byte>)
    requires Decode(bytes).Count?
    ensures var Count(n, len) := Decode(bytes);
      n <= U64_MAX && len <= |bytes| && bytes[..len] == Encode(n)
  {
    Pows();
    var Count(n, len) := Decode(bytes);
    if len > 1 {
      FromLeRoundTrip(bytes[1..len]);
      assert bytes[..len] == [bytes[0]] + bytes[1..len];
    }
  }
}
