/** Whole fragments at qualities 0 and 1 (`src/encode/fragment.rs`): their metablocks convey the fragment
    block by block, with the encoder's and the decoder's distances in step across all of them. */
module FragmentEncoder {
  import opened Arithmetic
  import opened Bytes
  import opened MetablockHeaders
  import opened Distances
  import opened FragmentParse
  import opened CommandEmission
  import opened MetablockStart
  import opened FragmentEmission

  const MIN_TABLE_BITS: nat := 8
  const MAX_TABLE_BITS_Q0: nat := 15
  const MAX_TABLE_BITS_Q1: nat := 17
  const FIRST_BLOCK_SIZE_Q0: nat := 0x1_8000
  const MERGE_BLOCK_SIZE_Q0: nat := 0x1_0000
  const MAX_MERGED_BLOCK_Q0: nat := 0x10_0000
  const TWO_PASS_BLOCK_SIZE: nat := 0x2_0000

  predicate Part(block: Chunk, start: nat)
  {
    start < block.end <= start + MAX_META_BLOCK_SIZE
  }

  /** Each block conveys its part of the fragment, from the ring at its start to the ring at its end. */
  ghost predicate ConveysParts(blocks: seq<Chunk>, fragment: seq<Byte>, rings: seq<Ring>)
  {
    && |rings| == |blocks| + 1
    && forall i :: 0 <= i < |blocks| ==>
         Part(blocks[i], ChunkStart(blocks, i)) && Conveys(blocks[i].form, fragment, ChunkStart(blocks, i),
                                                           blocks[i].end, rings[i], rings[i + 1])
  }

  lemma OneMorePart(blocks: seq<Chunk>, fragment: seq<Byte>, rings: seq<Ring>, block: Chunk, after: Ring)
    requires ConveysParts(blocks, fragment, rings) && Part(block, ChunkStart(blocks, |blocks|))
    requires Conveys(block.form, fragment, ChunkStart(blocks, |blocks|), block.end, rings[|blocks|], after)
    ensures ConveysParts(blocks + [block], fragment, rings + [after])
  {
    hide Conveys;
    var all := blocks + [block];
    forall i | 0 <= i < |all|
      ensures Part(all[i], ChunkStart(all, i)) && Conveys(all[i].form, fragment, ChunkStart(all, i), all[i].end,
                                                          (rings + [after])[i], (rings + [after])[i + 1])
    {
      if i < |blocks| {
        assert ChunkStart(all, i) == ChunkStart(blocks, i) && all[i] == blocks[i];
      }
    }
  }

  lemma NoPartYet(fragment: seq<Byte>, ring: Ring)
    ensures ConveysParts([], fragment, [ring])
  {
  }

  /** Table bits: doubled from the smallest table while below the cap and the input size. */
  method HashTableBits(maxBits: nat, inputSize: nat) returns (bits: nat)
    requires MIN_TABLE_BITS <= maxBits
    ensures MIN_TABLE_BITS <= bits <= maxBits && (bits == maxBits || inputSize <= Pow2(bits))
    ensures bits > MIN_TABLE_BITS ==> Pow2(bits - 1) < inputSize
  {
    bits := MIN_TABLE_BITS;
    while bits < maxBits && Pow2(bits) < inputSize
      invariant MIN_TABLE_BITS <= bits <= maxBits && (bits > MIN_TABLE_BITS ==> Pow2(bits - 1) < inputSize)
      decreases maxBits - bits
    {
      bits := bits + 1;
    }
  }

  /** Quality 0 keeps its tables at odd numbers of bits. */
  method OnePassTableBits(inputSize: nat) returns (bits: nat)
    ensures MIN_TABLE_BITS < bits <= MAX_TABLE_BITS_Q0 && bits % 2 == 1
    ensures bits < MAX_TABLE_BITS_Q0 ==> inputSize <= Pow2(bits)
  {
    hide Pow2;
    bits := HashTableBits(MAX_TABLE_BITS_Q0, inputSize);
    if bits % 2 == 0 {
      Pow2Monotone(bits, bits + 1);
      bits := bits + 1;
    }
  }

  /** An empty table points at the fragment's start. */
  method FreshTable(tableBits: nat) returns (table: array<nat>)
    ensures fresh(table) && table.Length == Pow2(tableBits) && Entries(table[..], 0)
  {
    table := new nat[Pow2(tableBits)](_ => 0);
  }

  /** Parses and emits one block. */
  method CompressBlock(fragment: seq<Byte>, start: nat, end: nat, minMatch: nat, table: array<nat>, tableBits: nat,
                       ring: RecentDistances, maxDistance: nat) returns (block: Chunk)
    requires start < end <= |fragment| && end - start <= MAX_META_BLOCK_SIZE && 4 <= minMatch <= 6 && tableBits <= 64
    requires table.Length == Pow2(tableBits) && Entries(table[..], start)
    modifies table, ring
    ensures block.end == end && Conveys(block.form, fragment, start, end, old(ring.ring), ring.ring) &&
            Entries(table[..], end)
    ensures exists commands :: Tiles(fragment, start, commands, end) &&
              BetterForm(block.form, fragment, start, end, NamedCommands(old(ring.ring), commands, maxDistance), 0, 0,
                         false)
  {
    hide Tiles, Entries, Conveys, StoredBits, BetterForm, NamedCommands, CompressedForm;
    var commands := ParseFragment(fragment, start, end, minMatch, table, tableBits);
    var form := EmitFragmentMetablock(fragment, start, end, commands, ring, maxDistance);
    block := Chunk(end, form);
  }

  /** Blocks of 96 KiB, each extended by 64 KiB as long as `merge` finds it profitable. */
  method OnePassFragment(fragment: seq<Byte>, merge: (seq<Byte>, seq<Byte>) -> bool, ring: RecentDistances,
                         maxDistance: nat)
    returns (blocks: seq<Chunk>, ghost rings: seq<Ring>)
    modifies ring
    ensures ConveysParts(blocks, fragment, rings) && ChunkStart(blocks, |blocks|) == |fragment|
    ensures rings[0] == old(ring.ring) && rings[|blocks|] == ring.ring
  {
    hide Entries, Conveys, ConveysParts;
    var tableBits := OnePassTableBits(|fragment|);
    var table := FreshTable(tableBits);
    var start: nat := 0;
    blocks, rings := [], [ring.ring];
    NoPartYet(fragment, ring.ring);
    while start < |fragment|
      invariant start == ChunkStart(blocks, |blocks|) <= |fragment| && Entries(table[..], start)
      invariant ConveysParts(blocks, fragment, rings) && |rings| == |blocks| + 1 && rings[0] == old(ring.ring) &&
                rings[|blocks|] == ring.ring
      decreases |fragment| - start
    {
      var first := fragment[start..Min(start + FIRST_BLOCK_SIZE_Q0, |fragment|)];
      var end := MergedEnd(fragment, start, first, merge);
      var block := CompressBlock(fragment, start, end, MIN_MATCH_LEN_Q0, table, tableBits, ring, maxDistance);
      OneMorePart(blocks, fragment, rings, block, ring.ring);
      blocks, rings, start := blocks + [block], rings + [ring.ring], end;
    }
  }

  /** Where a merged block ends: it takes in what follows as long as that pays and stays within a megabyte. */
  method MergedEnd(fragment: seq<Byte>, start: nat, first: seq<Byte>, merge: (seq<Byte>, seq<Byte>) -> bool)
    returns (end: nat)
    requires start < |fragment|
    ensures start < end <= |fragment| && end - start <= MAX_MERGED_BLOCK_Q0
  {
    end := Min(start + FIRST_BLOCK_SIZE_Q0, |fragment|);
    while true
      invariant start < end <= |fragment| && end - start <= MAX_MERGED_BLOCK_Q0
      decreases |fragment| - end
    {
      var candidate := Min(end + MERGE_BLOCK_SIZE_Q0, |fragment|);
      if candidate == end || candidate - start > MAX_MERGED_BLOCK_Q0 || !merge(fragment[end..candidate], first) {
        return;
      }
      end := candidate;
    }
  }

  const MIN_MATCH_LEN_Q1_LARGE: nat := 6

  /** Blocks of 128 KiB; larger tables hash six bytes instead of four. */
  method TwoPassFragment(fragment: seq<Byte>, ring: RecentDistances, maxDistance: nat)
    returns (blocks: seq<Chunk>, ghost rings: seq<Ring>)
    modifies ring
    ensures ConveysParts(blocks, fragment, rings) && ChunkStart(blocks, |blocks|) == |fragment|
    ensures rings[0] == old(ring.ring) && rings[|blocks|] == ring.ring
  {
    hide Entries, Conveys, ConveysParts;
    var tableBits := HashTableBits(MAX_TABLE_BITS_Q1, |fragment|);
    var minMatch := if tableBits <= 15 then MIN_MATCH_LEN_Q1_SMALL else MIN_MATCH_LEN_Q1_LARGE;
    var table := FreshTable(tableBits);
    var start: nat := 0;
    blocks, rings := [], [ring.ring];
    NoPartYet(fragment, ring.ring);
    while start < |fragment|
      invariant start == ChunkStart(blocks, |blocks|) <= |fragment| && Entries(table[..], start)
      invariant ConveysParts(blocks, fragment, rings) && |rings| == |blocks| + 1 && rings[0] == old(ring.ring) &&
                rings[|blocks|] == ring.ring
      decreases |fragment| - start
    {
      var end := Min(start + TWO_PASS_BLOCK_SIZE, |fragment|);
      var block := CompressBlock(fragment, start, end, minMatch, table, tableBits, ring, maxDistance);
      OneMorePart(blocks, fragment, rings, block, ring.ring);
      blocks, rings, start := blocks + [block], rings + [ring.ring], end;
    }
  }
}
