/** What stands before the data (`src/encode/mod.rs`): the window size at the start of the stream, and the header of
    a compressed, a stored or the empty last metablock (sections 9.1 and 9.2 of RFC 7932). */
module MetablockHeaders {
  import opened Bytes
  import opened BitStream
  import opened BitPacking

  const MAX_META_BLOCK_SIZE: nat := 0x100_0000

  /** How much less than a power of two the window is. */
  const WINDOW_GAP: nat := 16

  /** The fewest nibbles that hold the length, at least four. */
  function NibblesFor(length: nat): nat
  {
    if length <= 0x1_0000 then 4 else if length <= 0x10_0000 then 5 else 6
  }

  function WindowHeader(windowBits: nat): seq<bool>
    requires 10 <= windowBits <= 24
  {
    if windowBits == 16 then Lsb(0, 1)
    else if windowBits >= 18 then Lsb(1, 1) + Lsb(windowBits - 17, 3)
    else if windowBits == 17 then Lsb(1, 1) + Lsb(0, 3) + Lsb(0, 3)
    else Lsb(1, 1) + Lsb(0, 3) + Lsb(windowBits - 8, 3)
  }

  function CompressedHeader(length: nat, isLast: bool): seq<bool>
    requires 0 < length <= MAX_META_BLOCK_SIZE
  {
    (if isLast then Lsb(1, 1) + Lsb(0, 1) else Lsb(0, 1)) + Lsb(NibblesFor(length) - 4, 2) +
      Lsb(length - 1, 4 * NibblesFor(length)) +
    if isLast then [] else Lsb(0, 1)
  }

  function StoredHeader(length: nat): seq<bool>
    requires 0 < length <= MAX_META_BLOCK_SIZE
  {
    Lsb(0, 1) + Lsb(NibblesFor(length) - 4, 2) + Lsb(length - 1, 4 * NibblesFor(length)) + Lsb(1, 1)
  }

  function FinalEmpty(): seq<bool>
  {
    Lsb(1, 1) + Lsb(1, 1)
  }

  /** A stored metablock behind what has been written: the header, zeros up to a byte, and the bytes. */
  function WithStored(written: seq<bool>, bytes: seq<Byte>): seq<bool>
    requires 0 < |bytes| <= MAX_META_BLOCK_SIZE
  {
    Aligned(written + StoredHeader(|bytes|)) + BitsOf(bytes)
  }

  function Aligned(bits: seq<bool>): (aligned: seq<bool>)
    ensures |aligned| % 8 == 0
  {
    bits + seq(Padding(|bits|), _ => false)
  }

  method WriteWindowBits(writer: BitWriter, windowBits: nat)
    requires writer.Valid() && 10 <= windowBits <= 24
    modifies writer
    ensures writer.Valid() && writer.Bits() == old(writer.Bits()) + WindowHeader(windowBits)
  {
    hide Lsb;
    if windowBits == 16 {
      writer.WriteBits(0, 1);
    } else if windowBits >= 18 {
      writer.WriteBits(1, 1);
      writer.WriteBits(windowBits - 17, 3);
    } else if windowBits == 17 {
      writer.WriteBits(1, 1);
      writer.WriteBits(0, 3);
      writer.WriteBits(0, 3);
    } else {
      writer.WriteBits(1, 1);
      writer.WriteBits(0, 3);
      writer.WriteBits(windowBits - 8, 3);
    }
  }

  method WriteUncompressedMetablock(writer: BitWriter, bytes: seq<Byte>)
    requires writer.Valid() && 0 < |bytes| <= MAX_META_BLOCK_SIZE
    modifies writer
    ensures writer.Valid() && writer.Bits() == WithStored(old(writer.Bits()), bytes)
  {
    hide Lsb, BitsOf, Padding;
    writer.WriteBits(0, 1);
    var nibbles := NibblesFor(|bytes|);
    writer.WriteBits(nibbles - 4, 2);
    writer.WriteBits(|bytes| - 1, 4 * nibbles);
    writer.WriteBits(1, 1);
    assert writer.Bits() == old(writer.Bits()) + StoredHeader(|bytes|);
    writer.AlignToByte();
    writer.WriteBytes(bytes);
  }

  method WriteFinalEmptyMetablock(writer: BitWriter)
    requires writer.Valid()
    modifies writer
    ensures writer.Valid() && writer.Bits() == old(writer.Bits()) + FinalEmpty()
  {
    hide Lsb;
    writer.WriteBits(1, 1);
    writer.WriteBits(1, 1);
  }

  method WriteCompressedMetablockHeader(writer: BitWriter, length: nat, isLast: bool)
    requires writer.Valid() && 0 < length <= MAX_META_BLOCK_SIZE
    modifies writer
    ensures writer.Valid() && writer.Bits() == old(writer.Bits()) + CompressedHeader(length, isLast)
  {
    hide Lsb;
    writer.WriteBits(if isLast then 1 else 0, 1);
    if isLast {
      writer.WriteBits(0, 1);
    }
    var nibbles := NibblesFor(length);
    writer.WriteBits(nibbles - 4, 2);
    writer.WriteBits(length - 1, 4 * nibbles);
    if !isLast {
      writer.WriteBits(0, 1);
    }
  }

  /** On a byte boundary, a stored metablock takes as many bits as it is said to take. */
  lemma StoredLength(written: seq<bool>, bytes: seq<Byte>)
    requires |written| % 8 == 0 && 0 < |bytes| <= MAX_META_BLOCK_SIZE
    ensures |WithStored(written, bytes)| == |written| + StoredBits(|bytes|)
  {
    assert |StoredHeader(|bytes|)| == 4 + 4 * NibblesFor(|bytes|);
    hide Lsb, BitsOf, StoredHeader;
  }

  /** The size of a stored metablock: header, padding and bytes. */
  function StoredBits(length: nat): nat
  {
    var header := 4 + 4 * NibblesFor(length);
    header + Padding(header) + 8 * length
  }
}
