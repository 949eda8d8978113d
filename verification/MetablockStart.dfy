/** What stands between the header and the commands of a metablock with one block type and one tree of each kind
    (`src/encode/mod.rs` against `src/decode/compressed_header.rs` and `src/decode/compressed_trees.rs`): written by
    the encoder, read by the decoder's own readers. */
module MetablockStart {
  import opened Arithmetic
  import opened Bytes
  import opened BitStream
  import opened ComplexPrefixDecoder
  import opened Dictionary
  import opened Distances
  import opened BlockStates
  import B = BlockMachine
  import opened MetablockHeaders
  import opened PrefixEncodings
  import opened PrefixCodeReading
  import opened CommandStream
  import opened CommandEmission
  import opened Outcomes

  /** One block type each, the distance parameters, a context mode, one tree each. */
  function PlainHeader(direct: nat, postfix: nat): (bits: seq<bool>)
    ensures |bits| == 13
  {
    Lsb(0, 1) + Lsb(0, 1) + Lsb(0, 1) + Lsb(postfix, 2) + Lsb(Quotient(direct, Pow2(postfix)), 4) + Lsb(0, 2) +
      Lsb(0, 1) + Lsb(0, 1)
  }

  ghost predicate StartFrom(e: Encodings, f: Streams, trees: seq<seq<bool>>, codes: Codes, start: seq<bool>)
  {
    && |trees| == 3 && IsTree(e.literals, trees[0]) && IsTree(e.commands, trees[1]) && IsTree(e.distances, trees[2])
    && EncodesAll(e, f) && e.Lengths() == codes && DecodableCodes(codes)
    && start == PlainHeader(codes.direct, codes.postfix) + trees[0] + trees[1] + trees[2]
  }

  /** Header and trees for these codes. */
  ghost predicate IsStart(codes: Codes, start: seq<bool>)
  {
    exists e, f, trees :: StartFrom(e, f, trees, codes, start)
  }

  /** All of a compressed metablock. */
  function CompressedForm(start: seq<bool>, bits: seq<bool>, length: nat, isLast: bool): seq<bool>
    requires 0 < length <= MAX_META_BLOCK_SIZE
  {
    CompressedHeader(length, isLast) + start + bits
  }

  /** A compressed form with one tree of each kind: the codes made for the commands' streams, a header and trees for
      them, and the commands themselves. */
  ghost predicate SingleTreeForm(codes: Codes, start: seq<bool>, input: seq<Byte>, from: nat,
                                 commands: seq<StreamCommand>, direct: nat, postfix: nat)
  {
    exists e: Encodings :: e.Lengths() == codes && MadeForm(e, start, input, from, commands, direct, postfix)
  }

  ghost predicate MadeForm(e: Encodings, start: seq<bool>, input: seq<Byte>, from: nat, commands: seq<StreamCommand>,
                           direct: nat, postfix: nat)
  {
    && e.direct == direct && e.postfix == postfix
    && Placed(input, from, commands) && AllEmittable(commands, direct, postfix)
    && CodesMade(e, StreamsOf(input, from, commands, direct, postfix))
    && IsStart(e.Lengths(), start) && Writable(e.Lengths(), input, from, commands)
  }

  /** The better of two: such a form if it takes fewer bits than the stored one, the bytes themselves if not. */
  ghost predicate BetterForm(form: Emitted, input: seq<Byte>, from: nat, end: nat, commands: seq<StreamCommand>,
                             direct: nat, postfix: nat, isLast: bool)
    requires from < end <= |input| && end <= from + MAX_META_BLOCK_SIZE
  {
    exists codes: Codes, start: seq<bool> ::
      && SingleTreeForm(codes, start, input, from, commands, direct, postfix)
      && Writable(codes, input, from, commands)
      && Better(form, codes, start, BodyBits(codes, input, from, commands), input[from..end], isLast)
  }

  predicate Better(form: Emitted, codes: Codes, start: seq<bool>, bits: seq<bool>, bytes: seq<Byte>, isLast: bool)
    requires 0 < |bytes| <= MAX_META_BLOCK_SIZE
  {
    form == if |CompressedForm(start, bits, |bytes|, isLast)| < StoredBits(|bytes|) then Compressed(codes, start, bits)
            else Stored(bytes)
  }

  /** Which of the two is taken, for codes that have been made. */
  lemma SingleTreeIsBetter(e: Encodings, start: seq<bool>, input: seq<Byte>, from: nat, end: nat,
                           commands: seq<StreamCommand>, isLast: bool)
    requires from < end <= |input| && end <= from + MAX_META_BLOCK_SIZE
    requires MadeForm(e, start, input, from, commands, e.direct, e.postfix)
    ensures var bits, bytes := BodyBits(e.Lengths(), input, from, commands), input[from..end];
            BetterForm(if |CompressedForm(start, bits, end - from, isLast)| < StoredBits(end - from)
                       then Compressed(e.Lengths(), start, bits) else Stored(bytes), input, from, end, commands,
                       e.direct, e.postfix, isLast)
  {
    hide IsStart, Placed, AllEmittable, CodesMade, Writable, BodyBits, StoredBits, CompressedForm, Encodings.Lengths;
    var bits, bytes := BodyBits(e.Lengths(), input, from, commands), input[from..end];
    var form := if |CompressedForm(start, bits, end - from, isLast)| < StoredBits(end - from)
        then Compressed(e.Lengths(), start, bits) else Stored(bytes);
    assert SingleTreeForm(e.Lengths(), start, input, from, commands, e.direct, e.postfix);
    assert Better(form, e.Lengths(), start, bits, bytes, isLast);
  }

  method WriteStart(e: Encodings, ghost f: Streams) returns (start: seq<bool>)
    requires EncodesAll(e, f) && DecodableCodes(e.Lengths())
    ensures IsStart(e.Lengths(), start)
  {
    hide Encodes, DecodableCodes, IsTree, PlainHeader, Encodings.Lengths;
    TablesCount(e, f);
    var l := WriteTree(e.literals, f.literals);
    var c := WriteTree(e.commands, f.symbols);
    var d := WriteTree(e.distances, f.distances);
    LengthsKeep(e);
    start := PlainHeader(e.direct, e.postfix) + l + c + d;
    ghost var trees := [l, c, d];
    assert StartFrom(e, f, trees, e.Lengths(), start);
  }

  lemma LengthsKeep(e: Encodings)
    ensures e.Lengths().direct == e.direct && e.Lengths().postfix == e.postfix
  {
  }

  /** The tables are as long as the alphabets. */
  lemma TablesCount(e: Encodings, f: Streams)
    requires EncodesAll(e, f) && DecodableCodes(e.Lengths())
    ensures |f.literals| == LITERAL_ALPHABET_SIZE && |f.symbols| == COMMAND_ALPHABET_SIZE
    ensures 0 < |f.distances| == AlphabetSize(e.direct, e.postfix) <= MAX_ALPHABET
  {
    AlphabetFits(e.direct, e.postfix);
    hide LengthsOf, Decodable, WritesSymbol, AlphabetSize, HasFields;
  }

  lemma AlphabetFits(direct: nat, postfix: nat)
    requires HasFields(direct, postfix)
    ensures 0 < AlphabetSize(direct, postfix) <= MAX_ALPHABET && direct <= 120
  {
    assert Pow2(0) == 1 && Pow2(1) == 2 && Pow2(2) == 4 && Pow2(3) == 8;
    assert postfix == 0 || postfix == 1 || postfix == 2 || postfix == 3;
    assert Pow2(postfix) <= 8;
  }

  datatype PlainTrees = PlainTrees(direct: nat, postfix: nat, literals: PrefixCode, commands: PrefixCode,
                                   distances: PrefixCode)

  /** The trees are codes for the lengths. */
  ghost predicate TreesFor(t: PlainTrees, codes: Codes)
  {
    && t.direct == codes.direct && t.postfix == codes.postfix
    && CodeFor(t.literals, codes.literals) && CodeFor(t.commands, codes.commands)
    && CodeFor(t.distances, codes.distances)
  }

  /** The fields of the header; none if there is more than one block type or tree of some kind. */
  function Fields(bits: seq<bool>): Option<(nat, nat)>
    requires |bits| == 13
  {
    if bits[0] || bits[1] || bits[2] || bits[11] || bits[12] then None
    else
      var postfix := FromLsb(bits[3..5]);
      Some((FromLsb(bits[5..9]) * Pow2(postfix), postfix))
  }

  lemma FieldsRead(direct: nat, postfix: nat)
    requires HasFields(direct, postfix)
    ensures Fields(PlainHeader(direct, postfix)) == Some((direct, postfix))
  {
    var bits, n := PlainHeader(direct, postfix), Quotient(direct, Pow2(postfix));
    assert Pow2(2) == 4 && Pow2(4) == 16;
    ValueOfLsb(postfix, 2);
    ValueOfLsb(n, 4);
    assert Lsb(0, 1) == [false];
    hide Lsb, FromLsb, Pow2;
    assert bits[3..5] == Lsb(postfix, 2) && bits[5..9] == Lsb(n, 4);
    Recombine(direct, Pow2(postfix));
  }

  /** Header and trees, read from their first bit: whatever the encoder wrote for its codes gives the decoder
      trees for the same codes, and leaves the bits behind it. */
  method ReadStart(bits: seq<bool>, ghost codes: Codes, ghost start: seq<bool>, ghost rest: seq<bool>)
    returns (t: Option<PlainTrees>, left: seq<bool>)
    requires IsStart(codes, start) && bits == start + rest
    ensures t.Some? && TreesFor(t.value, codes) && left == rest
  {
    hide *;
    ghost var e, f, trees := StartParts(codes, start);
    Parts(PlainHeader(codes.direct, codes.postfix), trees[0], trees[1], trees[2], rest);
    var fields := Fields(bits[..13]);
    left := bits[13..];
    if fields.None? {
      return None, left;
    }
    var literals, commands, distances;
    literals, left := ReadTree(LITERAL_ALPHABET_SIZE, left, e.literals, f.literals, trees[0],
                               trees[1] + (trees[2] + rest));
    commands, left := ReadTree(COMMAND_ALPHABET_SIZE, left, e.commands, f.symbols, trees[1], trees[2] + rest);
    var size := AlphabetSize(fields.value.0, fields.value.1);
    distances, left := ReadTree(size, left, e.distances, f.distances, trees[2], rest);
    t := Some(PlainTrees(fields.value.0, fields.value.1, literals, commands, distances));
    TreesShown(t.value, codes, e);
  }

  lemma StartParts(codes: Codes, start: seq<bool>) returns (e: Encodings, f: Streams, trees: seq<seq<bool>>)
    requires IsStart(codes, start)
    ensures |trees| == 3 && IsTree(e.literals, trees[0]) && IsTree(e.commands, trees[1]) &&
            IsTree(e.distances, trees[2])
    ensures e.Lengths() == codes && start == PlainHeader(codes.direct, codes.postfix) + trees[0] + trees[1] + trees[2]
    ensures Encodes(e.literals, f.literals) && Encodes(e.commands, f.symbols) && Encodes(e.distances, f.distances)
    ensures 0 < |f.literals| == LITERAL_ALPHABET_SIZE <= MAX_ALPHABET &&
            0 < |f.symbols| == COMMAND_ALPHABET_SIZE <= MAX_ALPHABET
    ensures 0 < |f.distances| == AlphabetSize(codes.direct, codes.postfix) <= MAX_ALPHABET
    ensures |PlainHeader(codes.direct, codes.postfix)| == 13
    ensures Fields(PlainHeader(codes.direct, codes.postfix)) == Some((codes.direct, codes.postfix))
  {
    hide IsTree, Encodes, PlainHeader, Fields, DecodableCodes;
    e, f, trees :| StartFrom(e, f, trees, codes, start);
    TablesCount(e, f);
    assert HasFields(codes.direct, codes.postfix) by {
      FieldsFit(codes);
    }
    FieldsRead(codes.direct, codes.postfix);
  }

  lemma FieldsFit(codes: Codes)
    requires DecodableCodes(codes)
    ensures HasFields(codes.direct, codes.postfix)
  {
    hide Decodable, HasFields, AlphabetSize;
  }

  lemma Parts(header: seq<bool>, a: seq<bool>, b: seq<bool>, c: seq<bool>, rest: seq<bool>)
    ensures var bits := header + a + b + c + rest;
            bits[..|header|] == header && bits[|header|..] == a + (b + (c + rest)) && |header| <= |bits|
  {
    assert header + a + b + c + rest == header + (a + (b + (c + rest)));
  }

  lemma TreesShown(t: PlainTrees, codes: Codes, e: Encodings)
    requires e.Lengths() == codes && t.direct == codes.direct && t.postfix == codes.postfix
    requires CodeFor(t.literals, LengthsOf(e.literals)) && CodeFor(t.commands, LengthsOf(e.commands)) &&
             CodeFor(t.distances, LengthsOf(e.distances))
    ensures TreesFor(t, codes)
  {
    hide CodeFor, LengthsOf;
  }

  /** One block of one type that never ends. */
  function OneBlock(): BlockState
  {
    BlockState(0, (1, 0), 0, NoSearch(), NoSearch(), None, false)
  }

  /** The decoder's view of such a metablock. */
  function HeaderWith(t: PlainTrees, words: Words, windowSize: nat): B.Header
  {
    var single := Partition(1, Single(0), Single(0));
    B.Header(single, single, single, t.postfix, t.direct, windowSize, (_, _, _) => t.literals, _ => t.commands,
             (_, _) => t.distances, words)
  }

  lemma HeaderReads(t: PlainTrees, codes: Codes, words: Words, windowSize: nat)
    requires TreesFor(t, codes)
    ensures ReadsCodes(HeaderWith(t, words, windowSize), codes)
  {
    hide CodeFor;
  }

  predicate SoundFor(ring: Ring, reach: nat)
  {
    ring.Positive() && ring.UpTo(if reach < 16 then 16 else reach)
  }

  lemma StartIsSane(t: PlainTrees, codes: Codes, words: Words, windowSize: nat, s: B.State)
    requires TreesFor(t, codes) && HasFields(codes.direct, codes.postfix) && windowSize >= 1008
    requires s.phase.Command? && SoundFor(s.ring, Min(|s.flat|, windowSize))
    ensures B.Sane(HeaderWith(t, words, windowSize), s)
  {
    AlphabetFits(codes.direct, codes.postfix);
    hide CodeFor, AlphabetSize;
  }

  /** A compressed metablock behind its length, read from the first bit on with the trees that are found there:
      what comes out is the encoder's block, and what is left is what the encoder wrote behind it. */
  method ReadMetablock(words: Words, windowSize: nat, bits: seq<bool>, length: nat, ring: Ring, flat: seq<Byte>,
                       room: nat, ghost codes: Codes,
                       ghost start: seq<bool>, ghost body: seq<bool>, ghost rest: seq<bool>, ghost before: seq<Byte>,
                         ghost input: seq<Byte>,
                       ghost from: nat, ghost after: Ring) returns (stop: B.Stop)
    requires IsStart(codes, start) && bits == start + body + rest && windowSize >= 1008
    requires from + length <= |input| && flat == Upto(before, input, from) && length <= room &&
             SoundFor(ring, Min(|flat|, windowSize))
    requires DecodesTo(words, windowSize, before, codes, body, input, from, from + length, ring, after)
    ensures stop.status == B.Done && stop.rest == rest && stop.state.flat == Upto(before, input, from + length) &&
            stop.state.ring == after
  {
    hide IsStart, B.Run, B.Sane, ReadsCodes, TreesFor, SoundFor, HeaderWith;
    assert start + body + rest == start + (body + rest);
    var t, left := ReadStart(bits, codes, start, body + rest);
    var h := HeaderWith(t.value, words, windowSize);
    var s := B.State(OneBlock(), OneBlock(), OneBlock(), NoSearch(), NoSearch(), NoSearch(), length, B.Command, ring,
                     flat);
    HeaderReads(t.value, codes, words, windowSize);
    CodesFit(codes, start);
    StartIsSane(t.value, codes, words, windowSize, s);
    HeaderIs(t.value, words, windowSize);
    stop := B.Run(h, s, left, room);
  }

  lemma HeaderIs(t: PlainTrees, words: Words, windowSize: nat)
    ensures var h := HeaderWith(t, words, windowSize); h.words == words && h.windowSize == windowSize
  {
  }

  lemma CodesFit(codes: Codes, start: seq<bool>)
    requires IsStart(codes, start)
    ensures HasFields(codes.direct, codes.postfix)
  {
    hide IsTree, Encodes, PlainHeader, Decodable, HasFields, AlphabetSize;
  }
}
