/** A parser of compressed metablocks' headers and trees, as the decoder needs one: it takes one bit at a time, and
    knows from the bits alone when the last tree ends and what the trees are, for no two encoders' headers start the
    same bits. */
module HeaderParser {
  import opened CanonicalCode
  import opened CanonicalTables
  import opened ComplexPrefixDecoder
  import opened BitPacking
  import opened Dictionary
  import opened Distances
  import opened PrefixEncodings
  import opened PrefixCodeReading
  import opened CommandStream
  import opened CommandEmission
  import opened MetablockStart
  import opened DecoderMachine
  import opened MetablockReading
  import opened StreamRoundTrip
  import opened Outcomes

  lemma {:induction false} ListExists(lengths: seq<nat>, n: nat) returns (symbols: seq<nat>)
    requires n <= |lengths| && forall s :: 0 <= s < |lengths| ==> lengths[s] <= MAX_LENGTH
    ensures |symbols| == NonZero(lengths) && Listed(symbols, lengths, n)
  {
    hide NonZero, Position, Listed;
    if n == 0 {
      symbols := seq(NonZero(lengths), _ => 0);
      ListNone(symbols, lengths);
    } else {
      symbols := ListExists(lengths, n - 1);
      ListOne(symbols, lengths, n - 1);
      if lengths[n - 1] > 0 {
        PositionInList(lengths, n - 1);
        symbols := symbols[Position(lengths, n - 1) := n - 1];
      }
    }
  }

  /** Lengths that make a code have tables. */
  lemma CodeExists(lengths: seq<nat>) returns (code: PrefixCode)
    requires Decodable(lengths)
    ensures CodeFor(code, lengths)
  {
    hide CountOf, FirstCode, FirstSymbol, Listed;
    if NonZero(lengths) == 1 {
      var s := SomeUsed(lengths);
      code := Single(s);
    } else {
      var symbols := ListExists(lengths, |lengths|);
      var t := Tables(seq(MAX_LENGTH + 1, b requires 0 <= b => CountOf(lengths, b)),
                      seq(MAX_LENGTH + 1, b requires 0 <= b => FirstCode(lengths, b)),
                      seq(MAX_LENGTH + 1, b requires 0 <= b => FirstSymbol(lengths, b)), symbols, MAX_LENGTH);
      code := Canonical(t);
    }
  }

  lemma {:induction false} SomeUsed(lengths: seq<nat>) returns (s: nat)
    requires NonZero(lengths) > 0
    ensures s < |lengths| && lengths[s] > 0
  {
    if lengths[0] > 0 {
      s := 0;
    } else {
      var t := SomeUsed(lengths[1..]);
      s := t + 1;
    }
  }

  /** No bits start with the headers of two encoders' codes. */
  lemma OneStart(codes: Codes, start: seq<bool>, x: seq<bool>, others: Codes, front: seq<bool>, y: seq<bool>)
    requires IsStart(codes, start) && IsStart(others, front) && start + x == front + y
    ensures codes == others && start == front && x == y
  {
    hide *;
    var e, f, trees := StartParts(codes, start);
    var d, g, roots := StartParts(others, front);
    Parts(PlainHeader(codes.direct, codes.postfix), trees[0], trees[1], trees[2], x);
    Parts(PlainHeader(others.direct, others.postfix), roots[0], roots[1], roots[2], y);
    OneTree(e.literals, f.literals, trees[0], trees[1] + (trees[2] + x), d.literals, g.literals, roots[0],
            roots[1] + (roots[2] + y));
    OneTree(e.commands, f.symbols, trees[1], trees[2] + x, d.commands, g.symbols, roots[1], roots[2] + y);
    OneTree(e.distances, f.distances, trees[2], x, d.distances, g.distances, roots[2], y);
    SameCodes(e, d);
  }

  lemma SameCodes(e: Encodings, d: Encodings)
    requires e.Lengths().direct == d.Lengths().direct && e.Lengths().postfix == d.Lengths().postfix
    requires LengthsOf(e.literals) == LengthsOf(d.literals) && LengthsOf(e.commands) == LengthsOf(d.commands)
    requires LengthsOf(e.distances) == LengthsOf(d.distances)
    ensures e.Lengths() == d.Lengths()
  {
    hide LengthsOf;
  }

  /** Trees for some codes. */
  ghost predicate Serve(trees: Trees, codes: Codes)
  {
    ReadsCodes(trees.header, codes) && trees.header.directCodes <= 120
  }

  lemma TreesExist(codes: Codes, start: seq<bool>) returns (trees: Trees)
    requires IsStart(codes, start)
    ensures Serve(trees, codes)
  {
    hide IsTree, Encodes, PlainHeader, Decodable, HasFields, AlphabetSize, CodeFor, ReadsCodes, HeaderWith;
    var blank: Words := (length: nat, index: nat) => seq(length, _ => 0);
    assert DecodableCodes(codes);
    AlphabetFits(codes.direct, codes.postfix);
    var literals := CodeExists(codes.literals);
    var commands := CodeExists(codes.commands);
    var distances := CodeExists(codes.distances);
    var t := PlainTrees(codes.direct, codes.postfix, literals, commands, distances);
    HeaderReads(t, codes, blank, 0);
    DirectIs(t, blank);
    trees := Trees(HeaderWith(t, blank, 0), OneBlock(), OneBlock(), OneBlock());
  }

  lemma DirectIs(t: PlainTrees, words: Words)
    ensures HeaderWith(t, words, 0).directCodes == t.direct
  {
  }

  /** The trees, once the last of them is complete. */
  ghost function TreesSeen(seen: seq<bool>): Option<Trees>
  {
    if exists codes, trees :: IsStart(codes, seen) && Serve(trees, codes) then
      var codes, trees :| IsStart(codes, seen) && Serve(trees, codes);
      Some(trees)
    else None
  }

  /** The parser: one bit after another, until the trees are there. */
  ghost function BitByBit(): Parser
  {
    seen => match TreesSeen(seen) case Some(trees) => Parsed(trees) case None => More(1)
  }

  /** Where an encoder's header ends, its trees are known; before, more bits are asked for. */
  lemma SeenAt(codes: Codes, seen: seq<bool>, rest: seq<bool>)
    requires IsStart(codes, seen + rest)
    ensures rest == [] ==> TreesSeen(seen).Some? && Serve(TreesSeen(seen).value, codes)
    ensures rest != [] ==> TreesSeen(seen).None?
  {
    hide IsStart, Serve;
    var start := seen + rest;
    assert start + [] == start;
    if rest == [] {
      assert start == seen;
      var trees := TreesExist(codes, start);
      var others :| IsStart(others, seen) && Serve(TreesSeen(seen).value, others);
      OneStart(codes, start, [], others, seen, []);
    } else if TreesSeen(seen).Some? {
      var others :| IsStart(others, seen) && Serve(TreesSeen(seen).value, others);
      OneStart(codes, start, [], others, seen, rest);
      assert false;
    }
  }

  lemma {:induction false} ParsesOn(codes: Codes, seen: seq<bool>, rest: seq<bool>)
    requires IsStart(codes, seen + rest) && TreesSeen(seen + rest).Some?
    ensures Parses(BitByBit(), seen, rest, TreesSeen(seen + rest).value)
    decreases |rest|
  {
    hide IsStart, TreesSeen;
    SeenAt(codes, seen, rest);
    if rest == [] {
      assert seen + rest == seen;
    } else {
      assert seen + rest[..1] + rest[1..] == seen + rest;
      ParsesOn(codes, seen + rest[..1], rest[1..]);
    }
  }

  /** So there is a parser as the decoder needs it. */
  lemma ParserExists()
    ensures Admissible(BitByBit()) && Understands(BitByBit())
  {
    hide IsStart, Parses, ReadsCodes;
    forall seen
      ensures match BitByBit()(seen)
              case More(n) => 0 < n <= MAX_READ_BITS
              case Parsed(trees) => trees.header.directCodes <= 120
              case Rejected(_) => true
    {
    }
    forall codes, start | IsStart(codes, start)
      ensures Understood(BitByBit(), codes, start)
    {
      assert [] + start == start && start + [] == start;
      SeenAt(codes, start, []);
      ParsesOn(codes, [], start);
      assert Parses(BitByBit(), [], start, TreesSeen(start).value);
    }
  }
}
