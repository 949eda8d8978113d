/** Static-dictionary matches (`src/encode/static_dictionary.in`): whatever the encoder finds through words,
    cutoffs, affixes and cases, the decoder's address and transform turn back into the bytes it covers. */
module DictionaryMatches {
  import opened Arithmetic
  import opened Bytes
  import opened Dictionary
  import opened Distances
  import opened Outcomes

  const MAX_MATCH_LENGTH: nat := 37
  const U32_MAX: nat := 0xffff_ffff
  const CUTOFF_TRANSFORMS_COUNT: nat := 10
  const NO_AFFIX: nat := 49

  /** What the encoder emits for a match. */
  datatype DictionaryMatch = DictionaryMatch(length: nat, lengthCode: nat, distance: nat)

  /** The decoder makes the first `length` bytes of `data` out of a distance and a copy length. */
  predicate DecodesTo(words: Words, m: DictionaryMatch, maxBackward: nat, data: seq<Byte>)
  {
    m.length <= |data| && Transform(words, m.distance, m.lengthCode, maxBackward) == Ok(data[..m.length])
  }

  /** The same for an address within the transform space. */
  predicate Good(words: Words, data: seq<Byte>, len: nat, code: nat, lengthCode: nat)
  {
    && MIN_WORD_LENGTH <= lengthCode <= MAX_WORD_LENGTH && len <= |data|
    && Quotient(code, Pow2(SizeBits(lengthCode))) < TRANSFORM_COUNT
    && TransformWord(words(lengthCode, Remainder(code, Pow2(SizeBits(lengthCode)))),
                     Quotient(code, Pow2(SizeBits(lengthCode)))) == data[..len]
  }

  predicate IsWord(length: nat, index: nat)
  {
    MIN_WORD_LENGTH <= length <= MAX_WORD_LENGTH && index < Pow2(SizeBits(length))
  }

  /** Word number and transform number share the address. */
  function Code(length: nat, index: nat, id: nat): nat
  {
    index + Times(id, Pow2(SizeBits(length)))
  }

  lemma CodeIsGood(words: Words, data: seq<Byte>, len: nat, length: nat, index: nat, id: nat)
    requires IsWord(length, index) && id < TRANSFORM_COUNT && len <= |data| &&
             TransformWord(words(length, index), id) == data[..len]
    ensures Good(words, data, len, Code(length, index, id), length)
  {
    hide Pow2, TransformWord;
    QuotientOf(id, index, Pow2(SizeBits(length)));
  }

  /** A good address fits beside its length code in 32 bits. */
  lemma CodeFits(words: Words, data: seq<Byte>, len: nat, code: nat, lengthCode: nat)
    requires Good(words, data, len, code, lengthCode)
    ensures 32 * code + lengthCode < U32_MAX
  {
    hide TransformWord, Quotient, Remainder;
    WordCounts();
    assert Pow2(SizeBits(lengthCode)) <= 2048;
    hide Pow2, SizeBits;
    var p := Pow2(SizeBits(lengthCode));
    Recombine(code, p);
    SmallCode(Quotient(code, p), p, Remainder(code, p));
  }

  lemma SmallCode(q: nat, p: nat, r: nat)
    requires q < TRANSFORM_COUNT && r < p <= 2048
    ensures Times(q, p) + r < 121 * 2048
  {
    MulMonotone(p, q, 120);
    MulMonotone(120, p, 2048);
  }

  /** What a good address decodes to. */
  lemma GoodDecodes(words: Words, data: seq<Byte>, len: nat, code: nat, lengthCode: nat, maxBackward: nat)
    requires Good(words, data, len, code, lengthCode)
    ensures DecodesTo(words, DictionaryMatch(len, lengthCode, maxBackward + 1 + code), maxBackward, data)
  {
    hide TransformWord, Quotient, Remainder, Pow2;
    assert SizeBits(lengthCode) != 0;
  }

  /** A transform whose prefix, word part and suffix are what the data starts with. */
  predicate Spells(data: seq<Byte>, prefix: seq<Byte>, kept: seq<Byte>, suffix: seq<Byte>)
  {
    prefix + kept + suffix <= data
  }

  lemma SpelledIsGood(words: Words, data: seq<Byte>, len: nat, length: nat, index: nat, id: nat)
    requires IsWord(length, index) && id < TRANSFORM_COUNT
    requires Spells(data, Affix(Row(id).0), Kept(words(length, index), Row(id).1), Affix(Row(id).2))
    requires len == |Affix(Row(id).0)| + |Kept(words(length, index), Row(id).1)| + |Affix(Row(id).2)|
    ensures len <= |data| && Good(words, data, len, Code(length, index, id), length)
  {
    hide Affix, Row, Kept, Pow2, SizeBits, Good;
    CodeIsGood(words, data, len, length, index, id);
  }

  /** A rule: when these bytes follow, this transform applies and adds this much length. */
  datatype SuffixRule = SuffixRule(suffix: seq<Byte>, transformId: nat, extra: nat)

  /** The rule's transform puts exactly its suffix behind that prefix and that form of the word. */
  predicate RuleFor(rule: SuffixRule, prefix: nat, kind: nat)
  {
    && rule.transformId < TRANSFORM_COUNT && Row(rule.transformId).0 == prefix && Row(rule.transformId).1 == kind
    && Affix(Row(rule.transformId).2) == rule.suffix && rule.extra == |rule.suffix|
  }

  const IDENTITY_RULES: nat := 43

  function IdentityRulesA(i: nat): (rule: SuffixRule)
    ensures RuleFor(rule, NO_AFFIX, IDENTITY)
  {
    match i
    case 0 => SuffixRule([32], 1, 1)
    case 1 => SuffixRule([34], 19, 1)
    case 2 => SuffixRule([34, 62], 21, 2)
    case 3 => SuffixRule([46], 20, 1)
    case 4 => SuffixRule([46, 32], 31, 2)
    case 5 => SuffixRule([46, 32, 84, 104, 101, 32], 43, 6)
    case 6 => SuffixRule([46, 32, 84, 104, 105, 115, 32], 75, 7)
    case 7 => SuffixRule([44], 76, 1)
    case 8 => SuffixRule([44, 32], 14, 2)
    case 9 => SuffixRule([10], 22, 1)
    case _ => SuffixRule([10, 9], 50, 2)
  }

  function IdentityRulesB(i: nat): (rule: SuffixRule)
    ensures RuleFor(rule, NO_AFFIX, IDENTITY)
  {
    match i
    case 11 => SuffixRule([93], 24, 1)
    case 12 => SuffixRule([39], 36, 1)
    case 13 => SuffixRule([58], 51, 1)
    case 14 => SuffixRule([40], 57, 1)
    case 15 => SuffixRule([61, 34], 70, 2)
    case 16 => SuffixRule([61, 39], 86, 2)
    case 17 => SuffixRule([97, 108, 32], 84, 3)
    case 18 => SuffixRule([101, 100, 32], 53, 3)
    case 19 => SuffixRule([101, 114, 32], 82, 3)
    case 20 => SuffixRule([101, 115, 116, 32], 95, 4)
    case _ => SuffixRule([102, 117, 108, 32], 90, 4)
  }

  function IdentityRulesC(i: nat): (rule: SuffixRule)
    ensures RuleFor(rule, NO_AFFIX, IDENTITY)
  {
    match i
    case 22 => SuffixRule([105, 118, 101, 32], 92, 4)
    case 23 => SuffixRule([105, 122, 101, 32], 100, 4)
    case 24 => SuffixRule([108, 101, 115, 115, 32], 93, 5)
    case 25 => SuffixRule([108, 121, 32], 61, 3)
    case 26 => SuffixRule([111, 117, 115, 32], 106, 4)
    case 27 => SuffixRule([32, 97, 32], 28, 3)
    case 28 => SuffixRule([32, 97, 115, 32], 46, 4)
    case 29 => SuffixRule([32, 97, 116, 32], 60, 4)
    case 30 => SuffixRule([32, 97, 110, 100, 32], 10, 5)
    case 31 => SuffixRule([32, 98, 121, 32], 38, 4)
    case _ => SuffixRule([32, 105, 110, 32], 16, 4)
  }

  function IdentityRulesD(i: nat): (rule: SuffixRule)
    ensures RuleFor(rule, NO_AFFIX, IDENTITY)
  {
    match i
    case 33 => SuffixRule([32, 105, 115, 32], 47, 4)
    case 34 => SuffixRule([32, 102, 111, 114, 32], 25, 5)
    case 35 => SuffixRule([32, 102, 114, 111, 109, 32], 37, 6)
    case 36 => SuffixRule([32, 111, 102, 32], 8, 4)
    case 37 => SuffixRule([32, 111, 110, 32], 45, 4)
    case 38 => SuffixRule([32, 110, 111, 116, 32], 80, 5)
    case 39 => SuffixRule([32, 116, 104, 101, 32], 5, 5)
    case 40 => SuffixRule([32, 116, 104, 97, 116, 32], 29, 6)
    case 41 => SuffixRule([32, 116, 111, 32], 17, 4)
    case _ => SuffixRule([32, 119, 105, 116, 104, 32], 35, 6)
  }

  function IdentitySuffixRule(i: nat): (rule: SuffixRule)
    ensures RuleFor(rule, NO_AFFIX, IDENTITY)
  {
    if i < 11 then IdentityRulesA(i) else if i < 22 then IdentityRulesB(i) else if i < 33 then IdentityRulesC(i)
        else IdentityRulesD(i)
  }

  const UPPERCASE_RULES: nat := 11

  function UppercaseFirstSuffixRule(i: nat): (rule: SuffixRule)
    ensures RuleFor(rule, NO_AFFIX, UPPERCASE_FIRST)
  {
    match i
    case 0 => SuffixRule([32], 4, 1)
    case 1 => SuffixRule([34], 66, 1)
    case 2 => SuffixRule([34, 62], 69, 2)
    case 3 => SuffixRule([46], 79, 1)
    case 4 => SuffixRule([46, 32], 88, 2)
    case 5 => SuffixRule([44], 99, 1)
    case 6 => SuffixRule([44, 32], 58, 2)
    case 7 => SuffixRule([39], 74, 1)
    case 8 => SuffixRule([40], 78, 1)
    case 9 => SuffixRule([61, 34], 104, 2)
    case _ => SuffixRule([61, 39], 108, 2)
  }

  function UppercaseAllSuffixRule(i: nat): (rule: SuffixRule)
    ensures RuleFor(rule, NO_AFFIX, UPPERCASE_ALL)
  {
    match i
    case 0 => SuffixRule([32], 68, 1)
    case 1 => SuffixRule([34], 87, 1)
    case 2 => SuffixRule([34, 62], 97, 2)
    case 3 => SuffixRule([46], 101, 1)
    case 4 => SuffixRule([46, 32], 114, 2)
    case 5 => SuffixRule([44], 112, 1)
    case 6 => SuffixRule([44, 32], 107, 2)
    case 7 => SuffixRule([39], 94, 1)
    case 8 => SuffixRule([40], 113, 1)
    case 9 => SuffixRule([61, 34], 105, 2)
    case _ => SuffixRule([61, 39], 116, 2)
  }

  const SPACE_AFFIX: nat := 0
  const DOT_AFFIX: nat := 5
  const SPACE_PREFIX_RULES: nat := 8
  const DOT_PREFIX_RULES: nat := 2

  function SpacePrefixSuffixRule(i: nat): (rule: SuffixRule)
    ensures RuleFor(rule, SPACE_AFFIX, IDENTITY)
  {
    match i
    case 0 => SuffixRule([32], 2, 1)
    case 1 => SuffixRule([40], 89, 1)
    case 2 => SuffixRule([44], 103, 1)
    case 3 => SuffixRule([44, 32], 33, 2)
    case 4 => SuffixRule([46], 71, 1)
    case 5 => SuffixRule([46, 32], 52, 2)
    case 6 => SuffixRule([61, 34], 81, 2)
    case _ => SuffixRule([61, 39], 98, 2)
  }

  function DotPrefixSuffixRule(i: nat): (rule: SuffixRule)
    ensures RuleFor(rule, DOT_AFFIX, IDENTITY)
  {
    if i == 0 then SuffixRule([32], 77, 1) else SuffixRule([40], 67, 1)
  }

  const SPACE_UPPERCASE_FIRST_RULES: nat := 7
  const SPACE_UPPERCASE_ALL_RULES: nat := 6

  function SpacePrefixUppercaseFirstRule(i: nat): (rule: SuffixRule)
    ensures RuleFor(rule, SPACE_AFFIX, UPPERCASE_FIRST)
  {
    match i
    case 0 => SuffixRule([32], 15, 1)
    case 1 => SuffixRule([44], 109, 1)
    case 2 => SuffixRule([44, 32], 65, 2)
    case 3 => SuffixRule([46], 96, 1)
    case 4 => SuffixRule([46, 32], 91, 2)
    case 5 => SuffixRule([61, 34], 118, 2)
    case _ => SuffixRule([61, 39], 120, 2)
  }

  function SpacePrefixUppercaseAllRule(i: nat): (rule: SuffixRule)
    ensures RuleFor(rule, SPACE_AFFIX, UPPERCASE_ALL)
  {
    match i
    case 0 => SuffixRule([32], 83, 1)
    case 1 => SuffixRule([44, 32], 111, 2)
    case 2 => SuffixRule([46], 115, 1)
    case 3 => SuffixRule([46, 32], 117, 2)
    case 4 => SuffixRule([61, 34], 110, 2)
    case _ => SuffixRule([61, 39], 119, 2)
  }

  const CUTOFF_TRANSFORMS: nat := 0x071b_520a_da2d_3200

  /** The transform that drops the last `cut` bytes. */
  function CutoffTransform(cut: nat): nat
  {
    4 * cut + Quotient(CUTOFF_TRANSFORMS, Pow2(6 * cut)) % 64
  }

  lemma SixBits(n: nat)
    ensures Pow2(6 * (n + 1)) == 64 * Pow2(6 * n)
  {
    assert Pow2(6) == 64;
    Pow2Add(6 * n, 6);
    assert 6 * (n + 1) == 6 * n + 6;
  }

  lemma CutoffPowers()
    ensures Pow2(0) == 1 && Pow2(6) == 0x40 && Pow2(12) == 0x1000 && Pow2(18) == 0x4_0000 && Pow2(24) == 0x100_0000
    ensures Pow2(30) == 0x4000_0000 && Pow2(36) == 0x10_0000_0000 && Pow2(42) == 0x400_0000_0000 &&
            Pow2(48) == 0x1_0000_0000_0000
    ensures Pow2(54) == 0x40_0000_0000_0000
  {
    assert Pow2(0) == 1;
    hide Pow2;
    SixBits(0);
    SixBits(1);
    SixBits(2);
    SixBits(3);
    SixBits(4);
    SixBits(5);
    SixBits(6);
    SixBits(7);
    SixBits(8);
  }

  /** The packed constant lists the transforms that omit one to nine bytes. */
  lemma CutoffValues(cut: nat)
    requires cut < CUTOFF_TRANSFORMS_COUNT
    ensures CutoffTransform(cut) ==
            (match cut case 0 => 0 case 1 => 12 case 2 => 27 case 3 => 23 case 4 => 42 case 5 => 63
                                               case 6 => 56 case 7 => 48 case 8 => 59 case _ => 64)
  {
    CutoffPowers();
    hide Pow2, CutoffTransform;
    if cut < 5 {
      ShortCutoffs(cut, Pow2(6 * cut));
    } else {
      LongCutoffs(cut, Pow2(6 * cut));
    }
  }

  lemma ShortCutoffs(cut: nat, p: nat)
    requires cut < 5 && p == Pow2(6 * cut)
    requires p == match cut case 0 => 1 case 1 => 0x40 case 2 => 0x1000 case 3 => 0x4_0000 case _ => 0x100_0000
    ensures CutoffTransform(cut) == match cut case 0 => 0 case 1 => 12 case 2 => 27 case 3 => 23 case _ => 42
  {
    hide Pow2;
  }

  lemma LongCutoffs(cut: nat, p: nat)
    requires 5 <= cut < CUTOFF_TRANSFORMS_COUNT && p == Pow2(6 * cut)
    requires p == match cut case 5 => 0x4000_0000 case 6 => 0x10_0000_0000 case 7 => 0x400_0000_0000
                            case 8 => 0x1_0000_0000_0000 case _ => 0x40_0000_0000_0000
    ensures CutoffTransform(cut) == match cut case 5 => 63 case 6 => 56 case 7 => 48 case 8 => 59 case _ => 64
  {
    hide Pow2;
  }

  lemma CutoffRow(cut: nat)
    requires cut < CUTOFF_TRANSFORMS_COUNT
    ensures CutoffTransform(cut) < TRANSFORM_COUNT && Row(CutoffTransform(cut)) == (NO_AFFIX, cut, NO_AFFIX)
  {
    CutoffValues(cut);
    hide CutoffTransform;
  }

  /** How many bytes are the same from the start. */
  function CommonPrefix(word: seq<Byte>, data: seq<Byte>): (n: nat)
    ensures n <= |word| && n <= |data| && word[..n] == data[..n]
    ensures n < |word| && n < |data| ==> word[n] != data[n]
  {
    if word == [] || data == [] || word[0] != data[0] then 0
    else
      var n := CommonPrefix(word[1..], data[1..]);
      assert word[..n + 1] == [word[0]] + word[1..][..n] && data[..n + 1] == [data[0]] + data[1..][..n];
      1 + n
  }

  predicate IsLower(b: Byte)
  {
    97 <= b <= 122
  }

  function Upper(b: Byte): Byte
  {
    if IsLower(b) then b - 32 else b
  }

  /** The word at the head of the data in one of the upper-case forms. */
  predicate UppercaseWordMatch(word: seq<Byte>, data: seq<Byte>, isAllCaps: bool)
  {
    |word| <= |data| &&
    if isAllCaps then forall i :: 0 <= i < |word| ==> data[i] == Upper(word[i])
    else word != [] && IsLower(word[0]) && data[0] == word[0] - 32 && word[1..] == data[1..|word|]
  }

  lemma FirstUppercased(word: seq<Byte>, data: seq<Byte>)
    requires UppercaseWordMatch(word, data, false)
    ensures Kept(word, UPPERCASE_FIRST) == data[..|word|]
  {
    assert data[..|word|] == [data[0]] + data[1..|word|];
    assert UppercaseAt(word, 0) == word[0 := word[0] - 32] == [word[0] - 32] + word[1..];
  }

  /** Below the multi-byte characters the transform's walk changes every byte on its own. */
  lemma {:induction false} AllUppercasedFrom(word: seq<Byte>, offset: nat)
    requires offset <= |word| && forall i :: 0 <= i < |word| ==> word[i] < 128
    ensures forall i :: 0 <= i < |word| ==> UppercaseFrom(word, offset)[i] == if i < offset then word[i]
            else Upper(word[i])
    decreases |word| - offset
  {
    if offset < |word| {
      AllUppercasedFrom(UppercaseAt(word, offset), offset + 1);
    }
  }

  lemma AllUppercased(word: seq<Byte>, data: seq<Byte>)
    requires UppercaseWordMatch(word, data, true) && forall i :: 0 <= i < |word| ==> word[i] < 128
    ensures Kept(word, UPPERCASE_ALL) == data[..|word|]
  {
    AllUppercasedFrom(word, 0);
  }

  /** A word in one of three forms. */
  datatype LutWord = LutWord(length: nat, transform: nat, index: nat)

  /** What the table of words holds: upper-case forms only of words they suit. */
  predicate ValidEntry(words: Words, e: LutWord)
  {
    && IsWord(e.length, e.index)
    && (e.transform == IDENTITY || e.transform == UPPERCASE_FIRST || e.transform == UPPERCASE_ALL)
    && (e.transform == UPPERCASE_FIRST ==> IsLower(words(e.length, e.index)[0]))
    && (e.transform == UPPERCASE_ALL ==> forall i :: 0 <= i < e.length ==> words(e.length, e.index)[i] < 128)
  }

  /** The cheapest address per match length, packed with its length code. */
  class MatchTable {
    const packed: array<nat>

    constructor ()
      ensures fresh(packed) && packed.Length == MAX_MATCH_LENGTH + 1 && forall len :: 0 <= len <= MAX_MATCH_LENGTH ==>
              packed[len] == U32_MAX
    {
      packed := new nat[MAX_MATCH_LENGTH + 1](_ => U32_MAX);
    }

    /** Every entry decodes to the data's first bytes. */
    ghost predicate Holds(words: Words, data: seq<Byte>)
      reads packed
    {
      && packed.Length == MAX_MATCH_LENGTH + 1
      && forall len :: 0 <= len <= MAX_MATCH_LENGTH ==>
           packed[len] == U32_MAX || Good(words, data, len, packed[len] / 32, packed[len] % 32)
    }

    /** Keeps the cheaper of two addresses for a length. */
    method Add(len: nat, code: nat, lengthCode: nat, ghost words: Words, ghost data: seq<Byte>)
      requires Holds(words, data) && (0 < len <= MAX_MATCH_LENGTH ==> Good(words, data, len, code, lengthCode))
      modifies packed
      ensures Holds(words, data)
      ensures forall k :: 0 <= k <= MAX_MATCH_LENGTH ==>
                packed[k] == if k == len && k > 0 && 32 * code + lengthCode < old(packed[k]) then 32 * code + lengthCode
                  else old(packed[k])
    {
      if len == 0 || len > MAX_MATCH_LENGTH {
        return;
      }
      CodeFits(words, data, len, code, lengthCode);
      hide Good;
      var value := 32 * code + lengthCode;
      if value < packed[len] {
        LengthCodeFits(words, data, len, code, lengthCode);
        assert value / 32 == code && value % 32 == lengthCode;
        packed[len] := value;
      }
    }
  }

  lemma LengthCodeFits(words: Words, data: seq<Byte>, len: nat, code: nat, lengthCode: nat)
    requires Good(words, data, len, code, lengthCode)
    ensures lengthCode < 32
  {
  }

  /** Entries only ever become cheaper. */
  ghost predicate Cheaper(was: seq<nat>, now: seq<nat>)
  {
    |was| == |now| && forall k :: 0 <= k < |was| ==> now[k] <= was[k]
  }

  lemma CheaperTwice(a: seq<nat>, b: seq<nat>, c: seq<nat>)
    requires Cheaper(a, b) && Cheaper(b, c)
    ensures Cheaper(a, c)
  {
  }

  /** Adds a transform whose parts the data spells out. */
  method AddSpelled(t: MatchTable, ghost words: Words, ghost data: seq<Byte>, len: nat, length: nat, index: nat,
                    id: nat)
    requires t.Holds(words, data) && IsWord(length, index) && id < TRANSFORM_COUNT
    requires Spells(data, Affix(Row(id).0), Kept(words(length, index), Row(id).1), Affix(Row(id).2))
    requires len == |Affix(Row(id).0)| + |Kept(words(length, index), Row(id).1)| + |Affix(Row(id).2)|
    modifies t.packed
    ensures t.Holds(words, data) && Cheaper(old(t.packed[..]), t.packed[..])
    ensures 0 < len <= MAX_MATCH_LENGTH ==> t.packed[len] <= 32 * Code(length, index, id) + length
  {
    SpelledIsGood(words, data, len, length, index, id);
    hide Good, Affix, Row, Kept, Spells, IsWord;
    t.Add(len, Code(length, index, id), length, words, data);
  }

  /** Adds every rule whose suffix follows at `at`, where prefix and word end. */
  method AddRules(t: MatchTable, ghost words: Words, data: seq<Byte>, at: nat, rules: nat -> SuffixRule, count: nat,
                  ghost prefix: nat, ghost kind: nat, length: nat, index: nat)
    requires t.Holds(words, data) && IsWord(length, index) && at <= |data| && prefix < 50 && kind <= 20
    requires forall i :: RuleFor(rules(i), prefix, kind)
    requires data[..at] == Affix(prefix) + Kept(words(length, index), kind)
    modifies t.packed
    ensures t.Holds(words, data) && Cheaper(old(t.packed[..]), t.packed[..])
  {
    hide Good, Affix, Row, Kept, IsWord, RuleFor, Cheaper, MatchTable.Holds;
    CheaperSelf(t.packed[..]);
    for i := 0 to count
      invariant t.Holds(words, data) && Cheaper(old(t.packed[..]), t.packed[..])
    {
      var rule := rules(i);
      if rule.suffix <= data[at..] {
        ghost var was := t.packed[..];
        RuleSpells(words, data, at, rule, prefix, kind, length, index);
        AddSpelled(t, words, data, at + rule.extra, length, index, rule.transformId);
        CheaperTwice(old(t.packed[..]), was, t.packed[..]);
      }
    }
  }

  lemma CheaperSelf(a: seq<nat>)
    ensures Cheaper(a, a)
  {
  }

  lemma RuleSpells(words: Words, data: seq<Byte>, at: nat, rule: SuffixRule, prefix: nat, kind: nat, length: nat,
                   index: nat)
    requires at <= |data| && prefix < 50 && kind <= 20 && RuleFor(rule, prefix, kind) && rule.suffix <= data[at..]
    requires data[..at] == Affix(prefix) + Kept(words(length, index), kind)
    ensures rule.transformId < TRANSFORM_COUNT
    ensures var id := rule.transformId;
            && Spells(data, Affix(Row(id).0), Kept(words(length, index), Row(id).1), Affix(Row(id).2))
            && at + rule.extra == |Affix(Row(id).0)| + |Kept(words(length, index), Row(id).1)| + |Affix(Row(id).2)|
  {
    hide Affix, Row, Kept;
    var front := Affix(prefix) + Kept(words(length, index), kind);
    assert data == data[..at] + data[at..];
    assert front + rule.suffix <= data;
  }

  /** A transform without suffix spells what prefix and word spell. */
  lemma PlainSpells(data: seq<Byte>, word: seq<Byte>, at: nat, id: nat, prefix: nat, kind: nat)
    requires at <= |data| && id < TRANSFORM_COUNT && prefix < 50 && kind <= 20 && Row(id) == (prefix, kind, NO_AFFIX)
    requires data[..at] == Affix(prefix) + Kept(word, kind)
    ensures Spells(data, Affix(Row(id).0), Kept(word, Row(id).1), Affix(Row(id).2))
    ensures at == |Affix(Row(id).0)| + |Kept(word, Row(id).1)| + |Affix(Row(id).2)|
  {
    NoAffix();
    hide Affix, Row, Kept;
    assert Affix(prefix) + Kept(word, kind) + [] == data[..at];
  }

  lemma NoAffix()
    ensures Affix(NO_AFFIX) == []
  {
  }

  /** A cutoff spells the word's first bytes. */
  lemma CutoffSpells(words: Words, data: seq<Byte>, length: nat, index: nat, cut: nat)
    requires cut < CUTOFF_TRANSFORMS_COUNT && cut <= length && length - cut <= |data|
    requires data[..length - cut] == words(length, index)[..length - cut]
    ensures CutoffTransform(cut) < TRANSFORM_COUNT
    ensures var id := CutoffTransform(cut);
            && Spells(data, Affix(Row(id).0), Kept(words(length, index), Row(id).1), Affix(Row(id).2))
            && length - cut == |Affix(Row(id).0)| + |Kept(words(length, index), Row(id).1)| + |Affix(Row(id).2)|
  {
    CutoffRow(cut);
    NoAffix();
    var word := words(length, index);
    assert Kept(word, cut) == word[..length - cut];
    hide Affix, Row, Kept, CutoffTransform;
    assert [] + word[..length - cut] + [] == word[..length - cut];
  }

  const ING: nat := 49
  const ING_AFFIX: nat := 26

  /** The word without its last byte, and then "ing ". */
  lemma IngSpells(words: Words, data: seq<Byte>, length: nat, index: nat)
    requires 1 <= length && length + 2 < |data| && data[..length - 1] == words(length, index)[..length - 1]
    requires data[length - 1] == 105 && data[length] == 110 && data[length + 1] == 103 && data[length + 2] == 32
    ensures Spells(data, Affix(Row(ING).0), Kept(words(length, index), Row(ING).1), Affix(Row(ING).2))
    ensures length + 3 == |Affix(Row(ING).0)| + |Kept(words(length, index), Row(ING).1)| + |Affix(Row(ING).2)|
  {
    NoAffix();
    IngRow();
    var word := words(length, index);
    assert Kept(word, 1) == word[..length - 1];
    hide Affix, Row, Kept;
    assert [] + word[..length - 1] + [105, 110, 103, 32] == data[..length + 3];
  }

  lemma IngRow()
    ensures Row(ING) == (NO_AFFIX, 1, ING_AFFIX) && Affix(ING_AFFIX) == [105, 110, 103, 32]
  {
  }

  /** A word from the table that is a whole prefix of the data is entered at its plain address. */
  predicate Entered(packed: seq<nat>, words: Words, data: seq<Byte>, e: LutWord)
  {
    e.transform == IDENTITY && e.length < |packed| && words(e.length, e.index) <= data ==>
      packed[e.length] <= 32 * e.index + e.length
  }

  lemma StillEntered(was: seq<nat>, now: seq<nat>, words: Words, data: seq<Byte>, e: LutWord)
    requires Entered(was, words, data, e) && Cheaper(was, now)
    ensures Entered(now, words, data, e)
  {
  }

  lemma PlainCode(length: nat, index: nat)
    ensures Code(length, index, 0) == index && CutoffTransform(0) == 0 && CutoffTransform(1) == 12
  {
    CutoffValues(0);
    CutoffValues(1);
    assert Times(0, Pow2(SizeBits(length))) == 0;
  }

  /** The whole word and the word without its last bytes. */
  method AddCutoffs(t: MatchTable, words: Words, data: seq<Byte>, length: nat, index: nat, matchLen: nat,
                    minLength: nat)
    requires t.Holds(words, data) && IsWord(length, index) && matchLen == CommonPrefix(words(length, index), data)
    modifies t.packed
    ensures t.Holds(words, data) && Cheaper(old(t.packed[..]), t.packed[..])
    ensures Entered(t.packed[..], words, data, LutWord(length, IDENTITY, index))
  {
    hide MatchTable.Holds, Affix, Row, Kept, Spells, Good, CutoffTransform, Code;
    ghost var first := t.packed[..];
    ghost var e := LutWord(length, IDENTITY, index);
    CheaperSelf(first);
    PlainCode(length, index);
    WholeWord(words(length, index), data, matchLen);
    Lengths(words, length, index);
    if matchLen == length {
      CutoffSpells(words, data, length, index, 0);
      AddSpelled(t, words, data, length, length, index, 0);
    }
    assert Entered(t.packed[..], words, data, e);
    if matchLen + 1 >= length {
      ghost var was := t.packed[..];
      SamePrefix(words(length, index), data, matchLen, length - 1);
      CutoffSpells(words, data, length, index, 1);
      AddSpelled(t, words, data, length - 1, length, index, 12);
      StillEntered(was, t.packed[..], words, data, e);
      CheaperTwice(first, was, t.packed[..]);
      if length + 2 < |data| && data[length - 1] == 105 && data[length] == 110 && data[length + 1] == 103 &&
          data[length + 2] == 32 {
        was := t.packed[..];
        IngSpells(words, data, length, index);
        AddSpelled(t, words, data, length + 3, length, index, ING);
        StillEntered(was, t.packed[..], words, data, e);
        CheaperTwice(first, was, t.packed[..]);
      }
    }
    var len := if length > 9 && minLength < length - 9 then length - 9 else minLength;
    var maxLen := if matchLen < length - 2 then matchLen else length - 2;
    while len <= maxLen
      invariant t.Holds(words, data) && Cheaper(first, t.packed[..]) && Entered(t.packed[..], words, data, e) &&
                len + 9 >= length
      decreases maxLen + 1 - len
    {
      ghost var was := t.packed[..];
      SamePrefix(words(length, index), data, matchLen, len);
      CutoffSpells(words, data, length, index, length - len);
      AddSpelled(t, words, data, len, length, index, CutoffTransform(length - len));
      StillEntered(was, t.packed[..], words, data, e);
      CheaperTwice(first, was, t.packed[..]);
      len := len + 1;
    }
  }

  lemma Lengths(words: Words, length: nat, index: nat)
    requires IsWord(length, index)
    ensures 4 <= length <= 24 && |words(length, index)| == length
  {
  }

  lemma WholeWord(word: seq<Byte>, data: seq<Byte>, matchLen: nat)
    requires matchLen == CommonPrefix(word, data)
    ensures matchLen == |word| <==> word <= data
  {
    assert word <= data ==> forall i :: 0 <= i < |word| ==> word[i] == data[i];
    assert word[..|word|] == word;
  }

  lemma SamePrefix(word: seq<Byte>, data: seq<Byte>, matchLen: nat, len: nat)
    requires matchLen == CommonPrefix(word, data) && len <= matchLen
    ensures len <= |word| && len <= |data| && word[..len] == data[..len]
  {
    assert word[..len] == word[..matchLen][..len] && data[..len] == data[..matchLen][..len];
  }

  lemma IdentityKept(words: Words, data: seq<Byte>, length: nat, index: nat, matchLen: nat)
    requires IsWord(length, index) && matchLen == CommonPrefix(words(length, index), data) && matchLen >= length
    ensures length <= |data| && data[..length] == Affix(NO_AFFIX) + Kept(words(length, index), IDENTITY)
  {
    var word := words(length, index);
    SamePrefix(word, data, matchLen, length);
    NoAffix();
    assert Kept(word, IDENTITY) == word;
    hide Affix, Kept, CommonPrefix;
    assert word[..length] == word;
    assert [] + word == word;
  }

  /** An entry at the head of the data, as it is. */
  method IdentityEntry(t: MatchTable, words: Words, data: seq<Byte>, e: LutWord, minLength: nat)
    requires t.Holds(words, data) && ValidEntry(words, e) && e.transform == IDENTITY
    modifies t.packed
    ensures t.Holds(words, data) && Cheaper(old(t.packed[..]), t.packed[..]) && Entered(t.packed[..], words, data, e)
  {
    hide MatchTable.Holds, Affix, Row, Kept, Good, Code, RuleFor, Cheaper, Entered, CommonPrefix;
    var matchLen := CommonPrefix(words(e.length, e.index), data);
    AddCutoffs(t, words, data, e.length, e.index, matchLen, minLength);
    if matchLen >= e.length && e.length + 6 < |data| {
      ghost var was := t.packed[..];
      IdentityKept(words, data, e.length, e.index, matchLen);
      AddRules(t, words, data, e.length, IdentitySuffixRule, IDENTITY_RULES, NO_AFFIX, IDENTITY, e.length, e.index);
      StillEntered(was, t.packed[..], words, data, LutWord(e.length, IDENTITY, e.index));
      CheaperTwice(old(t.packed[..]), was, t.packed[..]);
    }
  }

  const FIRST_AT_HEAD: nat := 9
  const ALL_AT_HEAD: nat := 44
  const FIRST_BEHIND_SPACE: nat := 30
  const ALL_BEHIND_SPACE: nat := 85
  const BEHIND_SPACE: nat := 6
  const BEHIND_DOT: nat := 32

  lemma PlainRows()
    ensures Row(FIRST_AT_HEAD) == (NO_AFFIX, UPPERCASE_FIRST, NO_AFFIX) &&
            Row(ALL_AT_HEAD) == (NO_AFFIX, UPPERCASE_ALL, NO_AFFIX)
    ensures Row(FIRST_BEHIND_SPACE) == (SPACE_AFFIX, UPPERCASE_FIRST, NO_AFFIX) &&
            Row(ALL_BEHIND_SPACE) == (SPACE_AFFIX, UPPERCASE_ALL, NO_AFFIX)
    ensures Row(BEHIND_SPACE) == (SPACE_AFFIX, IDENTITY, NO_AFFIX) && Row(BEHIND_DOT) == (DOT_AFFIX, IDENTITY, NO_AFFIX)
    ensures Affix(SPACE_AFFIX) == [32] && Affix(DOT_AFFIX) == [46]
  {
  }

  /** The word's upper-case form is what stands at `at`. */
  lemma UppercaseKept(words: Words, data: seq<Byte>, at: nat, prefix: nat, e: LutWord)
    requires ValidEntry(words, e) && e.transform != IDENTITY && prefix < 50 && at <= |data| &&
             data[..at] == Affix(prefix)
    requires UppercaseWordMatch(words(e.length, e.index), data[at..], e.transform == UPPERCASE_ALL)
    ensures at + e.length <= |data| && data[..at + e.length] == Affix(prefix) +
            Kept(words(e.length, e.index), e.transform)
  {
    hide Affix, Kept;
    var word := words(e.length, e.index);
    if e.transform == UPPERCASE_ALL {
      AllUppercased(word, data[at..]);
    } else {
      FirstUppercased(word, data[at..]);
    }
    assert data[..at + e.length] == data[..at] + data[at..][..e.length];
  }

  /** An entry in an upper-case form behind a prefix, with a plain transform and rules of its own. */
  method UppercaseEntry(t: MatchTable, words: Words, data: seq<Byte>, e: LutWord, at: nat, ghost prefix: nat,
                        plain: nat,
                      rules: nat -> SuffixRule, count: nat)
    requires t.Holds(words, data) && ValidEntry(words, e) && e.transform != IDENTITY && prefix < 50 && at <= |data| &&
             data[..at] == Affix(prefix)
    requires UppercaseWordMatch(words(e.length, e.index), data[at..], e.transform == UPPERCASE_ALL)
    requires plain < TRANSFORM_COUNT && Row(plain) == (prefix, e.transform, NO_AFFIX)
    requires forall i :: RuleFor(rules(i), prefix, e.transform)
    modifies t.packed
    ensures t.Holds(words, data) && Cheaper(old(t.packed[..]), t.packed[..])
  {
    hide MatchTable.Holds, Affix, Row, Kept, Good, Code, RuleFor, Cheaper, UppercaseWordMatch, Spells;
    UppercaseKept(words, data, at, prefix, e);
    PlainSpells(data, words(e.length, e.index), at + e.length, plain, prefix, e.transform);
    AddSpelled(t, words, data, at + e.length, e.length, e.index, plain);
    if at + e.length + 1 < |data| {
      ghost var was := t.packed[..];
      AddRules(t, words, data, at + e.length, rules, count, prefix, e.transform, e.length, e.index);
      CheaperTwice(old(t.packed[..]), was, t.packed[..]);
    }
  }

  /** The bucket of the first four bytes: the word at the head in any form. */
  method HeadMatches(t: MatchTable, words: Words, data: seq<Byte>, bucket: seq<LutWord>, minLength: nat)
    requires t.Holds(words, data) && forall i :: 0 <= i < |bucket| ==> ValidEntry(words, bucket[i])
    modifies t.packed
    ensures t.Holds(words, data) && forall i :: 0 <= i < |bucket| ==> Entered(t.packed[..], words, data, bucket[i])
  {
    hide MatchTable.Holds, Affix, Row, Kept, Good, Code, RuleFor, Cheaper, Entered, UppercaseWordMatch, ValidEntry;
    PlainRows();
    for i := 0 to |bucket|
      invariant t.Holds(words, data) && forall j :: 0 <= j < i ==> Entered(t.packed[..], words, data, bucket[j])
    {
      var e := bucket[i];
      ghost var was := t.packed[..];
      CheaperSelf(was);
      EntryForms(words, e);
      assert data[0..] == data && data[..0] == [];
      NoAffix();
      if e.transform == IDENTITY {
        IdentityEntry(t, words, data, e, minLength);
      } else {
        NotPlain(t.packed[..], words, data, e);
        if UppercaseWordMatch(words(e.length, e.index), data, e.transform == UPPERCASE_ALL) {
          if e.transform == UPPERCASE_ALL {
            UppercaseEntry(t, words, data, e, 0, NO_AFFIX, ALL_AT_HEAD, UppercaseAllSuffixRule, UPPERCASE_RULES);
          } else {
            UppercaseEntry(t, words, data, e, 0, NO_AFFIX, FIRST_AT_HEAD, UppercaseFirstSuffixRule, UPPERCASE_RULES);
          }
          NotPlain(t.packed[..], words, data, e);
        }
      }
      forall j | 0 <= j < i
        ensures Entered(t.packed[..], words, data, bucket[j])
      {
        StillEntered(was, t.packed[..], words, data, bucket[j]);
      }
    }
  }

  lemma EntryForms(words: Words, e: LutWord)
    requires ValidEntry(words, e)
    ensures e.transform == IDENTITY || e.transform == UPPERCASE_FIRST || e.transform == UPPERCASE_ALL
    ensures IsWord(e.length, e.index)
  {
  }

  lemma NotPlain(packed: seq<nat>, words: Words, data: seq<Byte>, e: LutWord)
    requires e.transform != IDENTITY
    ensures Entered(packed, words, data, e)
  {
  }

  /** A word as it is, behind a prefix. */
  predicate WordFits(word: seq<Byte>, data: seq<Byte>, offset: nat)
  {
    |data| >= offset + |word| && word == data[offset..offset + |word|]
  }

  lemma FitsBehind(word: seq<Byte>, data: seq<Byte>, at: nat, prefix: nat)
    requires WordFits(word, data, at) && prefix < 50 && data[..at] == Affix(prefix)
    ensures data[..at + |word|] == Affix(prefix) + Kept(word, IDENTITY)
  {
    assert Kept(word, IDENTITY) == word;
    hide Affix, Kept;
    assert data[..at + |word|] == data[..at] + data[at..at + |word|];
  }

  /** Behind a space or a full stop. */
  method OneByteMatches(t: MatchTable, words: Words, data: seq<Byte>, bucket: seq<LutWord>)
    requires t.Holds(words, data) && forall i :: 0 <= i < |bucket| ==> ValidEntry(words, bucket[i])
    requires |data| >= 5 && (data[0] == 32 || data[0] == 46)
    modifies t.packed
    ensures t.Holds(words, data) && Cheaper(old(t.packed[..]), t.packed[..])
  {
    hide MatchTable.Holds, Affix, Row, Kept, Good, Code, RuleFor, Cheaper, UppercaseWordMatch, ValidEntry, Spells,
         WordFits;
    PlainRows();
    NoAffix();
    var isSpace := data[0] == 32;
    ghost var prefix := if isSpace then SPACE_AFFIX else DOT_AFFIX;
    assert data[..1] == Affix(prefix);
    CheaperSelf(t.packed[..]);
    for i := 0 to |bucket|
      invariant t.Holds(words, data) && Cheaper(old(t.packed[..]), t.packed[..])
    {
      var e := bucket[i];
      ghost var was := t.packed[..];
      EntryForms(words, e);
      Lengths(words, e.length, e.index);
      CheaperSelf(was);
      if e.transform == IDENTITY {
        if WordFits(words(e.length, e.index), data, 1) {
          BehindOneByte(t, words, data, e, isSpace, prefix);
        }
      } else if isSpace && |data| >= 1 + e.length && UppercaseWordMatch(words(e.length, e.index), data[1..],
                                                                        e.transform == UPPERCASE_ALL) {
        if e.transform == UPPERCASE_ALL {
          UppercaseEntry(t, words, data, e, 1, SPACE_AFFIX, ALL_BEHIND_SPACE, SpacePrefixUppercaseAllRule,
                         SPACE_UPPERCASE_ALL_RULES);
        } else {
          UppercaseEntry(t, words, data, e, 1, SPACE_AFFIX, FIRST_BEHIND_SPACE, SpacePrefixUppercaseFirstRule,
                         SPACE_UPPERCASE_FIRST_RULES);
        }
      }
      CheaperTwice(old(t.packed[..]), was, t.packed[..]);
    }
  }

  /** A plain word behind a space or a full stop. */
  method BehindOneByte(t: MatchTable, words: Words, data: seq<Byte>, e: LutWord, isSpace: bool, ghost prefix: nat)
    requires t.Holds(words, data) && IsWord(e.length, e.index) && WordFits(words(e.length, e.index), data, 1)
    requires prefix == (if isSpace then SPACE_AFFIX else DOT_AFFIX) && |data| > 0 && data[..1] == Affix(prefix)
    modifies t.packed
    ensures t.Holds(words, data) && Cheaper(old(t.packed[..]), t.packed[..])
  {
    hide MatchTable.Holds, Affix, Row, Kept, Good, Code, RuleFor, Cheaper, Spells, WordFits;
    PlainRows();
    Lengths(words, e.length, e.index);
    var at := e.length + 1;
    FitsBehind(words(e.length, e.index), data, 1, prefix);
    FitsLength(words(e.length, e.index), data, 1);
    PlainSpells(data, words(e.length, e.index), at, if isSpace then BEHIND_SPACE else BEHIND_DOT, prefix, IDENTITY);
    AddSpelled(t, words, data, at, e.length, e.index, if isSpace then BEHIND_SPACE else BEHIND_DOT);
    if e.length + 2 < |data| {
      ghost var was := t.packed[..];
      if isSpace {
        AddRules(t, words, data, at, SpacePrefixSuffixRule, SPACE_PREFIX_RULES, SPACE_AFFIX, IDENTITY, e.length,
                 e.index);
      } else {
        AddRules(t, words, data, at, DotPrefixSuffixRule, DOT_PREFIX_RULES, DOT_AFFIX, IDENTITY, e.length, e.index);
      }
      CheaperTwice(old(t.packed[..]), was, t.packed[..]);
    }
  }

  lemma FitsLength(word: seq<Byte>, data: seq<Byte>, offset: nat)
    requires WordFits(word, data, offset)
    ensures offset + |word| <= |data|
  {
  }

  const BEHIND_NBSP: nat := 102

  /** Prefix, transform without and with a space behind the word. */
  function TwoBytePrefix(first: Byte): (row: (nat, nat))
  {
    match first
    case 101 => (48, 18)
    case 115 => (4, 7)
    case 44 => (1, 13)
    case _ => (45, BEHIND_NBSP)
  }

  lemma TwoByteRows(first: Byte)
    requires first == 101 || first == 115 || first == 44 || first == 0xc2
    ensures TwoBytePrefix(first).0 < 50 && TwoBytePrefix(first).1 < TRANSFORM_COUNT
    ensures Affix(TwoBytePrefix(first).0) == if first == 0xc2 then [0xc2, 0xa0] else [first, 32]
    ensures Row(TwoBytePrefix(first).1) == (TwoBytePrefix(first).0, IDENTITY, if first == 0xc2 then NO_AFFIX
                                            else SPACE_AFFIX)
  {
  }

  predicate TwoByteStart(data: seq<Byte>)
  {
    |data| >= 6 && ((data[1] == 32 && (data[0] == 101 || data[0] == 115 || data[0] == 44)) ||
                    (data[0] == 0xc2 && data[1] == 0xa0))
  }

  /** A space behind prefix and word. */
  lemma SpacedSpells(data: seq<Byte>, word: seq<Byte>, at: nat, id: nat, prefix: nat)
    requires at < |data| && data[at] == 32 && id < TRANSFORM_COUNT && prefix < 50 &&
             Row(id) == (prefix, IDENTITY, SPACE_AFFIX)
    requires data[..at] == Affix(prefix) + Kept(word, IDENTITY)
    ensures Spells(data, Affix(Row(id).0), Kept(word, Row(id).1), Affix(Row(id).2))
    ensures at + 1 == |Affix(Row(id).0)| + |Kept(word, Row(id).1)| + |Affix(Row(id).2)|
  {
    PlainRows();
    hide Affix, Row, Kept;
    assert Affix(prefix) + Kept(word, IDENTITY) + [32] == data[..at + 1];
  }

  /** Behind "e ", "s ", ", " (with a space after the word) or a no-break space. */
  method TwoByteMatches(t: MatchTable, words: Words, data: seq<Byte>, bucket: seq<LutWord>)
    requires t.Holds(words, data) && forall i :: 0 <= i < |bucket| ==> ValidEntry(words, bucket[i])
    requires TwoByteStart(data)
    modifies t.packed
    ensures t.Holds(words, data) && Cheaper(old(t.packed[..]), t.packed[..])
  {
    hide MatchTable.Holds, Affix, Row, Kept, Good, Code, Cheaper, ValidEntry, Spells, WordFits;
    TwoByteRows(data[0]);
    var (prefix, id) := TwoBytePrefix(data[0]);
    assert data[..2] == Affix(prefix);
    CheaperSelf(t.packed[..]);
    for i := 0 to |bucket|
      invariant t.Holds(words, data) && Cheaper(old(t.packed[..]), t.packed[..])
    {
      var e := bucket[i];
      ghost var was := t.packed[..];
      EntryForms(words, e);
      Lengths(words, e.length, e.index);
      CheaperSelf(was);
      if e.transform == IDENTITY && WordFits(words(e.length, e.index), data, 2) {
        FitsBehind(words(e.length, e.index), data, 2, prefix);
        FitsLength(words(e.length, e.index), data, 2);
        if data[0] == 0xc2 {
          PlainSpells(data, words(e.length, e.index), e.length + 2, id, prefix, IDENTITY);
          AddSpelled(t, words, data, e.length + 2, e.length, e.index, id);
        } else if e.length + 2 < |data| && data[e.length + 2] == 32 {
          SpacedSpells(data, words(e.length, e.index), e.length + 2, id, prefix);
          AddSpelled(t, words, data, e.length + 3, e.length, e.index, id);
        }
      }
      CheaperTwice(old(t.packed[..]), was, t.packed[..]);
    }
  }

  const BEHIND_THE: nat := 41
  const BEHIND_COM: nat := 72
  const THE_AFFIX: nat := 47
  const COM_AFFIX: nat := 35
  const THE_RULES: nat := 2

  /** " the " plus a word plus " of " or " of the ". */
  function TheSuffixRule(i: nat): (rule: SuffixRule)
    ensures RuleFor(rule, THE_AFFIX, IDENTITY)
  {
    if i == 0 then SuffixRule([32, 111, 102, 32], 62, 4) else SuffixRule([32, 111, 102, 32, 116, 104, 101, 32], 73, 8)
  }

  predicate FiveByteStart(data: seq<Byte>)
  {
    |data| >= 9 && (data[..5] == [32, 116, 104, 101, 32] || data[..5] == [46, 99, 111, 109, 47])
  }

  lemma FiveByteRows()
    ensures Row(BEHIND_THE) == (THE_AFFIX, IDENTITY, NO_AFFIX) && Row(BEHIND_COM) == (COM_AFFIX, IDENTITY, NO_AFFIX)
    ensures Affix(THE_AFFIX) == [32, 116, 104, 101, 32] && Affix(COM_AFFIX) == [46, 99, 111, 109, 47]
  {
  }

  /** Behind " the " or ".com/". */
  method FiveByteMatches(t: MatchTable, words: Words, data: seq<Byte>, bucket: seq<LutWord>)
    requires t.Holds(words, data) && forall i :: 0 <= i < |bucket| ==> ValidEntry(words, bucket[i])
    requires FiveByteStart(data)
    modifies t.packed
    ensures t.Holds(words, data) && Cheaper(old(t.packed[..]), t.packed[..])
  {
    hide MatchTable.Holds, Affix, Row, Kept, Good, Code, Cheaper, ValidEntry, Spells, WordFits, RuleFor;
    FiveByteRows();
    var isThe := data[0] == 32;
    ghost var prefix := if isThe then THE_AFFIX else COM_AFFIX;
    assert data[..5][0] == data[0];
    var id := if isThe then BEHIND_THE else BEHIND_COM;
    CheaperSelf(t.packed[..]);
    for i := 0 to |bucket|
      invariant t.Holds(words, data) && Cheaper(old(t.packed[..]), t.packed[..])
    {
      var e := bucket[i];
      ghost var was := t.packed[..];
      EntryForms(words, e);
      Lengths(words, e.length, e.index);
      CheaperSelf(was);
      if e.transform == IDENTITY && WordFits(words(e.length, e.index), data, 5) {
        FitsBehind(words(e.length, e.index), data, 5, prefix);
        FitsLength(words(e.length, e.index), data, 5);
        PlainSpells(data, words(e.length, e.index), e.length + 5, id, prefix, IDENTITY);
        AddSpelled(t, words, data, e.length + 5, e.length, e.index, id);
        if isThe && e.length + 5 < |data| {
          ghost var between := t.packed[..];
          AddRules(t, words, data, e.length + 5, TheSuffixRule, THE_RULES, THE_AFFIX, IDENTITY, e.length, e.index);
          CheaperTwice(was, between, t.packed[..]);
        }
      }
      CheaperTwice(old(t.packed[..]), was, t.packed[..]);
    }
  }

  /** The table has an address for this length that is not too far. */
  predicate Offers(packed: seq<nat>, len: nat, maxBackward: nat, maxDistance: nat)
    requires len < |packed|
  {
    packed[len] != U32_MAX && maxBackward + 1 + packed[len] / 32 <= maxDistance
  }

  function MatchAt(packed: seq<nat>, len: nat, maxBackward: nat): DictionaryMatch
    requires len < |packed|
  {
    DictionaryMatch(len, packed[len] % 32, maxBackward + 1 + packed[len] / 32)
  }

  /** What a table offers for the lengths below `n`, one match each. */
  function Collected(packed: seq<nat>, n: nat, maxBackward: nat, maxDistance: nat): seq<DictionaryMatch>
    requires n <= |packed|
  {
    if n == 0 then []
    else
      Collected(packed, n - 1, maxBackward, maxDistance) +
      if Offers(packed, n - 1, maxBackward, maxDistance) then [MatchAt(packed, n - 1, maxBackward)] else []
  }

  /** The addresses within the distance limit, by ascending length. */
  method Collect(t: MatchTable, ghost words: Words, ghost data: seq<Byte>, maxBackward: nat, maxDistance: nat)
    returns (found: seq<DictionaryMatch>)
    requires t.Holds(words, data)
    ensures forall i :: 0 <= i < |found| ==>
              DecodesTo(words, found[i], maxBackward, data) && maxBackward < found[i].distance <= maxDistance &&
                found[i].length <= MAX_MATCH_LENGTH
    ensures forall i, j :: 0 <= i < j < |found| ==> found[i].length < found[j].length
    ensures found == Collected(t.packed[..], MAX_MATCH_LENGTH + 1, maxBackward, maxDistance)
    ensures forall len :: 0 <= len <= MAX_MATCH_LENGTH && t.packed[len] != U32_MAX &&
                          maxBackward + 1 + t.packed[len] / 32 <= maxDistance ==>
              DictionaryMatch(len, t.packed[len] % 32, maxBackward + 1 + t.packed[len] / 32) in found
  {
    hide DecodesTo, Good, Collected;
    found := [];
    NoneCollected(t.packed[..], maxBackward, maxDistance);
    for len := 0 to MAX_MATCH_LENGTH + 1
      invariant found == Collected(t.packed[..], len, maxBackward, maxDistance)
    {
      var value := t.packed[len];
      OneCollected(t.packed[..], len, maxBackward, maxDistance);
      if value != U32_MAX {
        var code, lengthCode := value / 32, value % 32;
        var distance := maxBackward + 1 + code;
        if distance <= maxDistance {
          found := found + [DictionaryMatch(len, lengthCode, distance)];
        }
      }
    }
    CollectedAre(t.packed[..], MAX_MATCH_LENGTH + 1, words, data, maxBackward, maxDistance);
  }

  lemma NoneCollected(packed: seq<nat>, maxBackward: nat, maxDistance: nat)
    ensures Collected(packed, 0, maxBackward, maxDistance) == []
  {
  }

  lemma OneCollected(packed: seq<nat>, n: nat, maxBackward: nat, maxDistance: nat)
    requires n < |packed|
    ensures Collected(packed, n + 1, maxBackward, maxDistance) ==
            Collected(packed, n, maxBackward, maxDistance) +
              if packed[n] != U32_MAX && maxBackward + 1 + packed[n] / 32 <= maxDistance
              then [DictionaryMatch(n, packed[n] % 32, maxBackward + 1 + packed[n] / 32)] else []
  {
  }

  /** What a table of true entries offers decodes to the bytes, in ascending lengths, and leaves out nothing. */
  lemma {:induction false} CollectedAre(packed: seq<nat>, n: nat, words: Words, data: seq<Byte>, maxBackward: nat,
                                        maxDistance: nat)
    requires n <= |packed| && forall len :: 0 <= len < n && packed[len] != U32_MAX ==>
             Good(words, data, len, packed[len] / 32, packed[len] % 32)
    ensures var found := Collected(packed, n, maxBackward, maxDistance);
            && (forall i :: 0 <= i < |found| ==>
                  && DecodesTo(words, found[i], maxBackward, data) && maxBackward < found[i].distance <= maxDistance
                  && found[i].length < n)
            && (forall i, j :: 0 <= i < j < |found| ==> found[i].length < found[j].length)
            && forall len :: 0 <= len < n && packed[len] != U32_MAX &&
                             maxBackward + 1 + packed[len] / 32 <= maxDistance ==>
              DictionaryMatch(len, packed[len] % 32, maxBackward + 1 + packed[len] / 32) in found
  {
    hide DecodesTo, Good;
    if n > 0 {
      CollectedAre(packed, n - 1, words, data, maxBackward, maxDistance);
      OneCollected(packed, n - 1, maxBackward, maxDistance);
      hide Collected;
      if packed[n - 1] != U32_MAX {
        GoodDecodes(words, data, n - 1, packed[n - 1] / 32, packed[n - 1] % 32, maxBackward);
      }
    }
  }

  /** The bucket of four bytes. */
  function Hash15(data: seq<Byte>): (key: nat)
    requires |data| >= 4
    ensures key < 0x8000
  {
    LoadLe(data[..4]) * 0x1e35_a7bd % 0x1_0000_0000 / 0x2_0000
  }

  /** The table of words, by bucket: any one whose entries suit their words. */
  ghost predicate ValidLut(words: Words, lut: nat -> seq<LutWord>)
  {
    forall key, i :: 0 <= i < |lut(key)| ==> ValidEntry(words, lut(key)[i])
  }

  /** The entry's word, as it is, is what the data starts with. */
  predicate StandsWhole(words: Words, data: seq<Byte>, e: LutWord)
  {
    e.transform == IDENTITY && words(e.length, e.index) <= data
  }

  /** A match of the word's length, no farther than the word itself, unless that is too far. */
  predicate OffersWord(found: seq<DictionaryMatch>, e: LutWord, maxBackward: nat, maxDistance: nat)
  {
    maxBackward + 1 + e.index <= maxDistance ==>
      exists m :: m in found && m.length == e.length && m.distance <= maxBackward + 1 + e.index
  }

  /** Every word of the bucket that stands whole at the position. */
  ghost predicate OffersWords(words: Words, lut: nat -> seq<LutWord>, input: seq<Byte>, position: nat, maxLength: nat,
                              maxBackward: nat, maxDistance: nat, found: seq<DictionaryMatch>)
    requires position <= |input|
  {
    |input| - position >= 4 && maxLength >= 4 ==>
      forall e :: e in lut(Hash15(input[position..])) && StandsWhole(words, input[position..], e) &&
                  e.length <= maxLength ==>
                    OffersWord(found, e, maxBackward, maxDistance)
  }

  /** One address per length at most, and what is within the limit of them. */
  predicate FromTable(found: seq<DictionaryMatch>, table: seq<nat>, maxBackward: nat, maxDistance: nat)
  {
    |table| == MAX_MATCH_LENGTH + 1 && found == Collected(table, MAX_MATCH_LENGTH + 1, maxBackward, maxDistance)
  }

  lemma {:induction false} NothingCollected(packed: seq<nat>, n: nat, maxBackward: nat, maxDistance: nat)
    requires n <= |packed| && forall len :: 0 <= len < n ==> packed[len] == U32_MAX
    ensures Collected(packed, n, maxBackward, maxDistance) == []
  {
    if n > 0 {
      NothingCollected(packed, n - 1, maxBackward, maxDistance);
    }
  }

  /** Every match decodes, through the decoder's address split and transform, to exactly the bytes it
      covers; and a word of the table that stands whole at the position is found at its plain distance
      or a shorter one. */
  method FindAll(words: Words, lut: nat -> seq<LutWord>, input: seq<Byte>, position: nat, minLength: nat,
                 maxLength: nat, maxBackward: nat, maxDistance: nat)
    returns (found: seq<DictionaryMatch>, ghost table: seq<nat>)
    requires position <= |input| && ValidLut(words, lut)
    ensures FromTable(found, table, maxBackward, maxDistance)
    ensures forall i :: 0 <= i < |found| ==>
              && DecodesTo(words, found[i], maxBackward, input[position..]) && found[i].length <= maxLength
              && maxBackward < found[i].distance <= maxDistance
    ensures forall i, j :: 0 <= i < j < |found| ==> found[i].length < found[j].length
    ensures OffersWords(words, lut, input, position, maxLength, maxBackward, maxDistance, found)
  {
    hide Collected, MatchTable.Holds, DecodesTo, ValidEntry, Entered, Cheaper, Good, Hash15, TwoByteStart,
         FiveByteStart;
    var tail := input[position..];
    table := seq(MAX_MATCH_LENGTH + 1, _ => U32_MAX);
    NothingCollected(table, MAX_MATCH_LENGTH + 1, maxBackward, maxDistance);
    if |tail| < MIN_WORD_LENGTH {
      return [], table;
    }
    var data := tail[..if |tail| < maxLength then |tail| else maxLength];
    if |data| < MIN_WORD_LENGTH {
      return [], table;
    }
    var t := new MatchTable();
    NothingYet(t, words, data);
    SameBucket(tail, data);
    var bucket := lut(Hash15(data));
    HeadMatches(t, words, data, bucket, minLength);
    ghost var entered := t.packed[..];
    CheaperSelf(entered);
    if |data| >= 5 && (data[0] == 32 || data[0] == 46) {
      OneByteMatches(t, words, data, lut(Hash15(data[1..])));
    }
    ghost var one := t.packed[..];
    if TwoByteStart(data) {
      LongEnough(data);
      TwoByteMatches(t, words, data, lut(Hash15(data[2..])));
      CheaperTwice(entered, one, t.packed[..]);
    }
    ghost var two := t.packed[..];
    if FiveByteStart(data) {
      LongEnough(data);
      FiveByteMatches(t, words, data, lut(Hash15(data[5..])));
      CheaperTwice(entered, two, t.packed[..]);
    }
    found := Collect(t, words, data, maxBackward, maxDistance);
    table := t.packed[..];
    forall i | 0 <= i < |found|
      ensures DecodesTo(words, found[i], maxBackward, tail) && found[i].length <= maxLength
    {
      LongerData(words, found[i], maxBackward, data, tail);
    }
    forall e | e in bucket && StandsWhole(words, tail, e) && e.length <= maxLength
      ensures OffersWord(found, e, maxBackward, maxDistance)
    {
      assert ValidEntry(words, e);
      StillEntered(entered, t.packed[..], words, data, e);
      WholeFound(t.packed[..], words, tail, data, e, maxBackward, maxDistance, found);
    }
  }

  lemma LongEnough(data: seq<Byte>)
    requires TwoByteStart(data) || FiveByteStart(data)
    ensures TwoByteStart(data) ==> |data| >= 6
    ensures FiveByteStart(data) ==> |data| >= 9
  {
  }

  lemma NothingYet(t: MatchTable, words: Words, data: seq<Byte>)
    requires t.packed.Length == MAX_MATCH_LENGTH + 1 && forall len :: 0 <= len <= MAX_MATCH_LENGTH ==>
             t.packed[len] == U32_MAX
    ensures t.Holds(words, data)
  {
  }

  lemma SameBucket(tail: seq<Byte>, data: seq<Byte>)
    requires |data| >= 4 && data <= tail
    ensures |tail| >= 4 && Hash15(tail) == Hash15(data)
  {
    assert tail[..4] == data[..4];
  }

  lemma LongerData(words: Words, m: DictionaryMatch, maxBackward: nat, data: seq<Byte>, tail: seq<Byte>)
    requires DecodesTo(words, m, maxBackward, data) && data <= tail
    ensures DecodesTo(words, m, maxBackward, tail) && m.length <= |data|
  {
    hide Transform;
    assert tail[..m.length] == data[..m.length];
  }

  lemma WholeFound(packed: seq<nat>, words: Words, tail: seq<Byte>, data: seq<Byte>, e: LutWord, maxBackward: nat,
                   maxDistance: nat,
                   found: seq<DictionaryMatch>)
    requires |packed| == MAX_MATCH_LENGTH + 1 && Entered(packed, words, data, e) && StandsWhole(words, tail, e) &&
             ValidEntry(words, e)
    requires data <= tail && e.length <= |data|
    requires forall len :: 0 <= len <= MAX_MATCH_LENGTH && packed[len] != U32_MAX &&
                           maxBackward + 1 + packed[len] / 32 <= maxDistance ==>
               DictionaryMatch(len, packed[len] % 32, maxBackward + 1 + packed[len] / 32) in found
    ensures OffersWord(found, e, maxBackward, maxDistance)
  {
    WordCounts();
    hide Pow2;
    Lengths(words, e.length, e.index);
    assert words(e.length, e.index) <= data;
    assert packed[e.length] <= 32 * e.index + e.length < 32 * e.index + 32;
    assert e.index < 2048;
    if maxBackward + 1 + e.index <= maxDistance {
      var m := DictionaryMatch(e.length, packed[e.length] % 32, maxBackward + 1 + packed[e.length] / 32);
      assert m in found;
    }
  }

  const LITERAL_BYTE_SCORE: int := 135
  const DISTANCE_BIT_PENALTY: int := 30
  const SCORE_BASE: int := 1920
  const MIN_SCORE: int := SCORE_BASE + 100

  function BackwardReferenceScore(length: nat, distance: nat): int
    requires distance > 0
  {
    SCORE_BASE + LITERAL_BYTE_SCORE * length - DISTANCE_BIT_PENALTY * Log2Floor(distance)
  }

  datatype DictionaryHit = DictionaryHit(found: DictionaryMatch, score: int)

  /** One word of the small table at a position: how much of it stands there, as a cutoff. */
  function TestItem(words: Words, tail: seq<Byte>, maxLength: nat, maxBackward: nat, maxDistance: nat, minScore: int,
                    wordLength: nat, wordIndex: nat): Option<DictionaryHit>
  {
    if wordLength > maxLength || !IsWord(wordLength, wordIndex) then None
    else
      var matchLength := CommonPrefix(words(wordLength, wordIndex), tail);
      if matchLength == 0 || matchLength + CUTOFF_TRANSFORMS_COUNT <= wordLength then None
      else
        var distance := maxBackward + 1 + Code(wordLength, wordIndex, CutoffTransform(wordLength - matchLength));
        if distance > maxDistance then None
        else
          var score := BackwardReferenceScore(matchLength, distance);
          if score >= minScore then Some(DictionaryHit(DictionaryMatch(matchLength, wordLength, distance), score))
              else None
  }

  /** What a hit is good for. */
  predicate TrueHit(words: Words, tail: seq<Byte>, maxLength: nat, maxBackward: nat, maxDistance: nat, minScore: int,
                    hit: DictionaryHit)
  {
    && DecodesTo(words, hit.found, maxBackward, tail) && 0 < hit.found.length <= maxLength
    && maxBackward < hit.found.distance <= maxDistance && hit.score >= minScore
  }

  lemma TestItemIsTrue(words: Words, tail: seq<Byte>, maxLength: nat, maxBackward: nat, maxDistance: nat, minScore: int,
                       wordLength: nat, wordIndex: nat)
    requires TestItem(words, tail, maxLength, maxBackward, maxDistance, minScore, wordLength, wordIndex).Some?
    ensures TrueHit(words, tail, maxLength, maxBackward, maxDistance, minScore,
                    TestItem(words, tail, maxLength, maxBackward, maxDistance, minScore, wordLength, wordIndex).value)
  {
    hide Code, CutoffTransform, Good, DecodesTo, Affix, Row, Kept, Spells;
    Lengths(words, wordLength, wordIndex);
    var matchLength := CommonPrefix(words(wordLength, wordIndex), tail);
    var cut := wordLength - matchLength;
    SamePrefix(words(wordLength, wordIndex), tail, matchLength, matchLength);
    CutoffSpells(words, tail, wordLength, wordIndex, cut);
    SpelledIsGood(words, tail, matchLength, wordLength, wordIndex, CutoffTransform(cut));
    GoodDecodes(words, tail, matchLength, Code(wordLength, wordIndex, CutoffTransform(cut)), wordLength, maxBackward);
  }

  /** Short cutoffs are far away: none scores enough. */
  lemma HitsAreLong(words: Words, tail: seq<Byte>, maxLength: nat, maxBackward: nat, maxDistance: nat, minScore: int,
                    wordLength: nat, wordIndex: nat)
    requires TestItem(words, tail, maxLength, maxBackward, maxDistance, minScore, wordLength, wordIndex).Some? &&
             minScore >= MIN_SCORE
    ensures TestItem(words, tail, maxLength, maxBackward, maxDistance, minScore, wordLength,
                     wordIndex).value.found.length >= 4
  {
    hide Log2Floor, Pow2, CommonPrefix;
    var matchLength := CommonPrefix(words(wordLength, wordIndex), tail);
    var cut := wordLength - matchLength;
    if matchLength < 4 {
      CutoffValues(cut);
      WordCounts();
      assert SizeBits(wordLength) == 10 || SizeBits(wordLength) == 11;
      hide SizeBits, CutoffTransform;
      MulMonotone(Pow2(SizeBits(wordLength)), 12, CutoffTransform(cut));
      FarScore(maxBackward + 1 + Code(wordLength, wordIndex, CutoffTransform(cut)));
    }
  }

  lemma FarScore(distance: nat)
    requires distance >= 12 * 1024
    ensures Log2Floor(distance) >= 13
  {
    assert Pow2(10) == 1024;
    assert Pow2(13) == 8192;
    if Log2Floor(distance) < 13 {
      Pow2Monotone(Log2Floor(distance) + 1, 13);
    }
  }

  /** The search counts how often it looks and how often that pays, and gives up if it rarely does. */
  datatype SearchState = SearchState(lookups: nat, matches: nat)

  /** One of the two table slots: the better hit, the later one if they are equal. */
  function Probe(words: Words, table: nat -> (nat, nat), key: nat, tail: seq<Byte>, maxLength: nat, maxBackward: nat,
                 maxDistance: nat,
                 minScore: int, st: SearchState, best: Option<DictionaryHit>): (SearchState, Option<DictionaryHit>)
  {
    var (length, index) := table(key);
    var looked := st.(lookups := st.lookups + 1);
    if length == 0 then (looked, best)
    else
      match TestItem(words, tail, maxLength, maxBackward, maxDistance, minScore, length, index)
      case None => (looked, best)
      case Some(hit) =>
        (looked.(matches := looked.matches + 1), if best.None? || hit.score >= best.value.score then Some(hit)
         else best)
  }

  function Hash14(data: seq<Byte>): nat
    requires |data| >= 4
  {
    LoadLe(data[..4]) * 0x1e35_a7bd % 0x1_0000_0000 / 0x4_0000
  }

  /** The quick search of the greedy match finder: a word and its cutoffs. */
  function FindWord(words: Words, table: nat -> (nat, nat), st: SearchState, tail: seq<Byte>, maxLength: nat,
                    maxBackward: nat, maxDistance: nat,
                    minScore: int): (SearchState, Option<DictionaryHit>)
    requires |tail| >= 4
  {
    if st.matches < st.lookups / 128 || maxLength < MIN_WORD_LENGTH then (st, None)
    else
      var key := 2 * Hash14(tail);
      var (first, best) := Probe(words, table, key, tail, maxLength, maxBackward, maxDistance, minScore, st, None);
      Probe(words, table, key + 1, tail, maxLength, maxBackward, maxDistance, minScore, first, best)
  }

  /** Whatever the table holds, a hit decodes to the bytes it covers, is at least four bytes long and
      scores enough. */
  lemma FindWordIsTrue(words: Words, table: nat -> (nat, nat), st: SearchState, tail: seq<Byte>, maxLength: nat,
                       maxBackward: nat, maxDistance: nat,
                       minScore: int)
    requires |tail| >= 4 && minScore >= MIN_SCORE
    ensures match FindWord(words, table, st, tail, maxLength, maxBackward, maxDistance, minScore).1
            case None => true
            case Some(hit) =>
                TrueHit(words, tail, maxLength, maxBackward, maxDistance, minScore, hit) && hit.found.length >= 4
  {
    if !(st.matches < st.lookups / 128 || maxLength < MIN_WORD_LENGTH) {
      hide TestItem, TrueHit, Probe;
      var key := 2 * Hash14(tail);
      var (first, best) := Probe(words, table, key, tail, maxLength, maxBackward, maxDistance, minScore, st, None);
      ProbeIsTrue(words, table, key, tail, maxLength, maxBackward, maxDistance, minScore, st, None);
      ProbeIsTrue(words, table, key + 1, tail, maxLength, maxBackward, maxDistance, minScore, first, best);
    }
  }

  lemma ProbeIsTrue(words: Words, table: nat -> (nat, nat), key: nat, tail: seq<Byte>, maxLength: nat, maxBackward: nat,
                    maxDistance: nat,
                    minScore: int, st: SearchState, best: Option<DictionaryHit>)
    requires minScore >= MIN_SCORE
    requires best.Some? ==>
             TrueHit(words, tail, maxLength, maxBackward, maxDistance, minScore, best.value) &&
             best.value.found.length >= 4
    ensures var r := Probe(words, table, key, tail, maxLength, maxBackward, maxDistance, minScore, st, best).1;
            r.Some? ==>
              TrueHit(words, tail, maxLength, maxBackward, maxDistance, minScore, r.value) && r.value.found.length >= 4
  {
    hide TestItem, TrueHit;
    var (length, index) := table(key);
    if length != 0 && TestItem(words, tail, maxLength, maxBackward, maxDistance, minScore, length, index).Some? {
      TestItemIsTrue(words, tail, maxLength, maxBackward, maxDistance, minScore, length, index);
      HitsAreLong(words, tail, maxLength, maxBackward, maxDistance, minScore, length, index);
    }
  }

  const LUT_BUCKETS: nat := 0x8000

  /** The bytes an entry stands for. */
  function EffectiveWord(words: Words, e: LutWord): seq<Byte>
  {
    var word := words(e.length, e.index);
    if e.transform == UPPERCASE_FIRST && word != [] && word[0] >= 32 then word[0 := word[0] - 32]
    else if e.transform == UPPERCASE_ALL then AllCaps(word)
    else word
  }

  function AllCaps(word: seq<Byte>): (r: seq<Byte>)
    ensures |r| == |word|
  {
    seq(|word|, i requires 0 <= i < |word| => Upper(word[i]))
  }

  /** All buckets hold valid entries, each in the bucket of its bytes. */
  ghost predicate LutSound(words: Words, buckets: seq<seq<LutWord>>)
  {
    |buckets| == LUT_BUCKETS && forall key, i :: 0 <= key < |buckets| && 0 <= i < |buckets[key]| ==>
      ValidEntry(words, buckets[key][i])
  }

  /** All plain words below a length, and of it below an index, are in their buckets. */
  ghost predicate LutComplete(words: Words, buckets: seq<seq<LutWord>>, length: nat, index: nat)
  {
    |buckets| == LUT_BUCKETS &&
    forall l: nat, i: nat :: IsWord(l, i) && (l < length || (l == length && i < index)) ==>
      LutWord(l, IDENTITY, i) in buckets[Hash15(words(l, i))]
  }

  lemma PushSound(words: Words, buckets: seq<seq<LutWord>>, key: nat, e: LutWord, length: nat, index: nat)
    requires LutSound(words, buckets) && LutComplete(words, buckets, length, index) && key < LUT_BUCKETS &&
             ValidEntry(words, e)
    ensures var more := buckets[key := buckets[key] + [e]];
            LutSound(words, more) && LutComplete(words, more, length, index)
  {
    hide ValidEntry, Hash15, Pow2, SizeBits;
    var more := buckets[key := buckets[key] + [e]];
    forall l: nat, i: nat | IsWord(l, i) && (l < length || (l == length && i < index))
      ensures LutWord(l, IDENTITY, i) in more[Hash15(words(l, i))]
    {
      assert LutWord(l, IDENTITY, i) in buckets[Hash15(words(l, i))];
    }
  }

  /** Every plain word, and the upper-case forms that no entry has yet, of the words they suit. */
  method BuildLut(words: Words) returns (buckets: seq<seq<LutWord>>)
    ensures LutSound(words, buckets) && LutComplete(words, buckets, MAX_WORD_LENGTH + 1, 0)
  {
    hide LutSound, LutComplete, ValidEntry, Hash15, IsWord, Pow2, SizeBits;
    buckets := seq(LUT_BUCKETS, _ => []);
    EmptyLut(words, buckets);
    for length := MIN_WORD_LENGTH to MAX_WORD_LENGTH + 1
      invariant LutSound(words, buckets) && LutComplete(words, buckets, length, 0)
    {
      buckets := PushIdentity(words, buckets, length);
      buckets := PushUppercase(words, buckets, length, UPPERCASE_FIRST);
      buckets := PushUppercase(words, buckets, length, UPPERCASE_ALL);
    }
  }

  lemma EmptyLut(words: Words, buckets: seq<seq<LutWord>>)
    requires |buckets| == LUT_BUCKETS && forall key :: 0 <= key < LUT_BUCKETS ==> buckets[key] == []
    ensures LutSound(words, buckets) && LutComplete(words, buckets, MIN_WORD_LENGTH, 0)
  {
  }

  lemma NextLength(words: Words, buckets: seq<seq<LutWord>>, length: nat)
    requires LutComplete(words, buckets, length, Pow2(SizeBits(length)))
    ensures LutComplete(words, buckets, length + 1, 0)
  {
    hide Pow2, SizeBits, Hash15;
  }

  lemma NextWord(words: Words, buckets: seq<seq<LutWord>>, length: nat, index: nat)
    requires LutComplete(words, buckets, length, index) && IsWord(length, index)
    ensures LutComplete(words, buckets[Hash15(words(length, index)) := buckets[Hash15(words(length, index))] +
                                       [LutWord(length, IDENTITY, index)]],
                        length, index + 1)
  {
    hide Pow2, SizeBits, Hash15;
    var key, e := Hash15(words(length, index)), LutWord(length, IDENTITY, index);
    var more := buckets[key := buckets[key] + [e]];
    forall l: nat, i: nat | IsWord(l, i) && (l < length || (l == length && i < index + 1))
      ensures LutWord(l, IDENTITY, i) in more[Hash15(words(l, i))]
    {
      if l == length && i == index {
        assert more[key][|buckets[key]|] == e;
      } else {
        assert LutWord(l, IDENTITY, i) in buckets[Hash15(words(l, i))];
      }
    }
  }

  method PushIdentity(words: Words, buckets: seq<seq<LutWord>>, length: nat) returns (more: seq<seq<LutWord>>)
    requires LutSound(words, buckets) && LutComplete(words, buckets, length, 0) &&
             MIN_WORD_LENGTH <= length <= MAX_WORD_LENGTH
    ensures LutSound(words, more) && LutComplete(words, more, length + 1, 0)
  {
    hide LutComplete, ValidEntry, Hash15, Pow2, SizeBits;
    more := buckets;
    var count := Pow2(SizeBits(length));
    for index := 0 to count
      invariant LutSound(words, more) && LutComplete(words, more, length, index)
    {
      var e := LutWord(length, IDENTITY, index);
      var key := Hash15(words(length, index));
      assert ValidEntry(words, e) by {
        PlainIsValid(words, length, index);
      }
      PushSound(words, more, key, e, length, index);
      NextWord(words, more, length, index);
      more := more[key := more[key] + [e]];
    }
    NextLength(words, more, length);
  }

  lemma PlainIsValid(words: Words, length: nat, index: nat)
    requires IsWord(length, index)
    ensures ValidEntry(words, LutWord(length, IDENTITY, index))
  {
  }

  /** Whether a form may stand for a word. */
  predicate Suits(word: seq<Byte>, form: nat)
  {
    if form == UPPERCASE_FIRST then word != [] && IsLower(word[0])
    else (forall i :: 0 <= i < |word| ==> word[i] < 128) && exists i :: 1 <= i < |word| && IsLower(word[i])
  }

  method PushUppercase(words: Words, buckets: seq<seq<LutWord>>, length: nat, form: nat)
    returns (more: seq<seq<LutWord>>)
    requires LutSound(words, buckets) && LutComplete(words, buckets, length + 1, 0) &&
             MIN_WORD_LENGTH <= length <= MAX_WORD_LENGTH
    requires form == UPPERCASE_FIRST || form == UPPERCASE_ALL
    ensures LutSound(words, more) && LutComplete(words, more, length + 1, 0)
  {
    hide LutComplete, ValidEntry, Hash15, Pow2, SizeBits, EffectiveWord;
    more := buckets;
    var count := Pow2(SizeBits(length));
    for index := 0 to count
      invariant LutSound(words, more) && LutComplete(words, more, length + 1, 0)
    {
      if Suits(words(length, index), form) {
        var e := LutWord(length, form, index);
        assert ValidEntry(words, e) by {
          FormIsValid(words, length, index, form);
        }
        EffectiveLength(words, e);
        var transformed := EffectiveWord(words, e);
        var key := Hash15(transformed);
        var bucket := more[key];
        if !(exists i :: 0 <= i < |bucket| && bucket[i].length == length &&
                         Covers(words, bucket[i], form, transformed)) {
          PushSound(words, more, key, e, length + 1, 0);
          more := more[key := more[key] + [e]];
        }
      }
    }
  }

  /** An entry that already stands for the bytes: a word itself, or for capitals any form. */
  predicate Covers(words: Words, e: LutWord, form: nat, transformed: seq<Byte>)
  {
    if form == UPPERCASE_FIRST then words(e.length, e.index) == transformed else EffectiveWord(words, e) == transformed
  }

  lemma FormIsValid(words: Words, length: nat, index: nat, form: nat)
    requires IsWord(length, index) && Suits(words(length, index), form) &&
             (form == UPPERCASE_FIRST || form == UPPERCASE_ALL)
    ensures ValidEntry(words, LutWord(length, form, index))
  {
  }

  lemma EffectiveLength(words: Words, e: LutWord)
    ensures |EffectiveWord(words, e)| == e.length
  {
  }
}
