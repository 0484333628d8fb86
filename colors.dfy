/** The `Color` struct: three 8-bit channels unpacked from a packed
    `0xRRGGBB` integer by masking and shifting. */
module Colors {
  import opened Bits

  datatype Color = Color(r: uint8, g: uint8, b: uint8)

  /** `Color(uint32 clr)`: each channel is masked out of `clr`, shifted down
      and stored in a `uint8` member (an implicit narrowing conversion). The
      channels are the three low base-256 digits of `clr`: red is bits
      16..23, green bits 8..15, blue bits 0..7.

      `And` recurses bit by bit, and the verifier unfolds it on a concrete
      input, so a fact about one particular colour value (such as
      FromPacked(0xFF0000) == Color(255, 0, 0)) costs more than the usual
      resource limit; the general ensures clauses below are the cheap way
      to reason about channels. */
  function FromPacked(clr: uint32): (c: Color)
    ensures c.r == clr / 0x1_0000 % 0x100
    ensures c.g == clr / 0x100 % 0x100
    ensures c.b == clr % 0x100
  {
    MasksSelectBytes(clr);
    Color(ToUint8(Shr(And(clr, 0x00ff0000), 16)),
          ToUint8(Shr(And(clr, 0x0000ff00), 8)),
          ToUint8(And(clr, 0x000000ff)))
  }

  /** The packed `0xRRGGBB` value of a colour: the inverse of `FromPacked`
      on the low 24 bits. */
  function Pack(c: Color): (clr: uint32)
    ensures clr < 0x100_0000
  {
    c.r * 0x1_0000 + c.g * 0x100 + c.b
  }

  /** Masking and shifting selects a byte of `clr` in place: bits 16..23
      for the mask 0x00ff0000, bits 8..15 for 0x0000ff00, bits 0..7 for
      0x000000ff. */
  lemma MasksSelectBytes(clr: uint32)
    ensures Shr(And(clr, 0x00ff0000), 16) == clr / 0x1_0000 % 0x100
    ensures Shr(And(clr, 0x0000ff00), 8) == clr / 0x100 % 0x100
    ensures And(clr, 0x000000ff) == clr % 0x100
  {
    assert Pow2(8) == 0x100 && Pow2(16) == 0x1_0000;
    ShrAndBlock(clr, 16, 8);
    ShrAndBlock(clr, 8, 8);
    AndLowMask(clr, 8);
  }

  /** Each masked and shifted value already lies in 0..255, so the narrowing
      into the `uint8` members loses nothing. */
  lemma NarrowingIsLossless(clr: uint32)
    ensures Shr(And(clr, 0x00ff0000), 16) < 0x100
    ensures Shr(And(clr, 0x0000ff00), 8) < 0x100
    ensures And(clr, 0x000000ff) < 0x100
  {
    MasksSelectBytes(clr);
  }

  /** Unpacking a packed colour gives the colour back. */
  lemma UnpackPack(c: Color)
    ensures FromPacked(Pack(c)) == c
  {
    var x := Pack(c);
    assert x == c.r * 0x1_0000 + c.g * 0x100 + c.b;
    assert x / 0x1_0000 % 0x100 == c.r;
    assert x / 0x100 % 0x100 == c.g by {
      assert x / 0x100 == c.r * 0x100 + c.g;
    }
    assert x % 0x100 == c.b;
  }

  /** Re-packing the channels gives back exactly the low 24 bits of `clr`:
      r * 65536 + g * 256 + b == clr mod 2^24. */
  lemma PackUnpack(clr: uint32)
    ensures Pack(FromPacked(clr)) == clr % 0x100_0000
  {
    DigitSplit(clr, 0x1_0000, 0x100);
    DigitSplit(clr, 0x100, 0x100);
  }

  /** Bits above bit 23 are ignored: masking them off first changes no
      channel. */
  lemma HighByteIgnored(clr: uint32)
    ensures FromPacked(clr) == FromPacked(And(clr, 0xff_ffff))
  {
    assert Pow2(8) == 0x100 && Pow2(16) == 0x1_0000 && Pow2(24) == 0x100_0000;
    AndLowMask(clr, 24);
    PackUnpack(clr);
    UnpackPack(FromPacked(clr));
  }
}
