/** The static dictionary's address arithmetic and word transforms (`src/dictionary.rs`; appendices A
    and B of RFC 7932). The words themselves are a parameter of known lengths. */
module Dictionary {
  import opened Arithmetic
  import opened Bytes
  import opened Outcomes

  const MIN_WORD_LENGTH: nat := 4
  const MAX_WORD_LENGTH: nat := 24
  const TRANSFORM_COUNT: nat := 121
  const IDENTITY: nat := 0
  const UPPERCASE_FIRST: nat := 10
  const UPPERCASE_ALL: nat := 11

  /** The logarithm of the number of words of a length; zero when there are none. */
  function SizeBits(length: nat): nat
  {
    match length
    case 4 => 10 case 5 => 10 case 6 => 11 case 7 => 11 case 8 => 10 case 9 => 10 case 10 => 10 case 11 => 10
    case 12 => 10 case 13 => 9 case 14 => 9 case 15 => 8 case 16 => 7 case 17 => 7 case 18 => 8 case 19 => 7
    case 20 => 7 case 21 => 6 case 22 => 6 case 23 => 5 case 24 => 5
    case _ => 0
  }

  /** Affixes that exist, and a type that means something. */
  predicate GoodRow(row: (nat, nat, nat))
  {
    row.0 < 50 && row.1 <= 20 && row.1 != 19 && row.2 < 50
  }

  function FirstRows(index: nat): (row: (nat, nat, nat))
    ensures GoodRow(row)
  {
    match index
    case 0 => (49, 0, 49) case 1 => (49, 0, 0) case 2 => (0, 0, 0) case 3 => (49, 12, 49) case 4 => (49, 10, 0)
    case 5 => (49, 0, 47) case 6 => (0, 0, 49) case 7 => (4, 0, 0) case 8 => (49, 0, 3) case 9 => (49, 10, 49)
    case 10 => (49, 0, 6) case 11 => (49, 13, 49) case 12 => (49, 1, 49) case 13 => (1, 0, 0) case 14 => (49, 0, 1)
    case 15 => (0, 10, 0) case 16 => (49, 0, 7) case 17 => (49, 0, 9) case 18 => (48, 0, 0) case 19 => (49, 0, 8)
    case 20 => (49, 0, 5) case 21 => (49, 0, 10) case 22 => (49, 0, 11) case 23 => (49, 3, 49) case 24 => (49, 0, 13)
    case 25 => (49, 0, 14) case 26 => (49, 14, 49) case 27 => (49, 2, 49) case 28 => (49, 0, 15)
    case 29 => (49, 0, 16) case 30 => (0, 10, 49) case 31 => (49, 0, 12) case 32 => (5, 0, 49) case 33 => (0, 0, 1)
    case 34 => (49, 15, 49) case 35 => (49, 0, 18) case 36 => (49, 0, 17) case 37 => (49, 0, 19)
    case 38 => (49, 0, 20) case _ => (49, 16, 49)
  }

  function MiddleRows(index: nat): (row: (nat, nat, nat))
    ensures GoodRow(row)
  {
    match index
    case 40 => (49, 17, 49) case 41 => (47, 0, 49) case 42 => (49, 4, 49) case 43 => (49, 0, 22)
    case 44 => (49, 11, 49) case 45 => (49, 0, 23) case 46 => (49, 0, 24) case 47 => (49, 0, 25)
    case 48 => (49, 7, 49) case 49 => (49, 1, 26) case 50 => (49, 0, 27) case 51 => (49, 0, 28) case 52 => (0, 0, 12)
    case 53 => (49, 0, 29) case 54 => (49, 20, 49) case 55 => (49, 18, 49) case 56 => (49, 6, 49)
    case 57 => (49, 0, 21) case 58 => (49, 10, 1) case 59 => (49, 8, 49) case 60 => (49, 0, 31)
    case 61 => (49, 0, 32) case 62 => (47, 0, 3) case 63 => (49, 5, 49) case 64 => (49, 9, 49) case 65 => (0, 10, 1)
    case 66 => (49, 10, 8) case 67 => (5, 0, 21) case 68 => (49, 11, 0) case 69 => (49, 10, 10)
    case 70 => (49, 0, 30) case 71 => (0, 0, 5) case 72 => (35, 0, 49) case 73 => (47, 0, 2) case 74 => (49, 10, 17)
    case 75 => (49, 0, 36) case 76 => (49, 0, 33) case 77 => (5, 0, 0) case 78 => (49, 10, 21) case _ => (49, 10, 5)
  }

  function LastRows(index: nat): (row: (nat, nat, nat))
    ensures GoodRow(row)
  {
    match index
    case 80 => (49, 0, 37) case 81 => (0, 0, 30) case 82 => (49, 0, 38) case 83 => (0, 11, 0) case 84 => (49, 0, 39)
    case 85 => (0, 11, 49) case 86 => (49, 0, 34) case 87 => (49, 11, 8) case 88 => (49, 10, 12)
    case 89 => (0, 0, 21) case 90 => (49, 0, 40) case 91 => (0, 10, 12) case 92 => (49, 0, 41) case 93 => (49, 0, 42)
    case 94 => (49, 11, 17) case 95 => (49, 0, 43) case 96 => (0, 10, 5) case 97 => (49, 11, 10)
    case 98 => (0, 0, 34) case 99 => (49, 10, 33) case 100 => (49, 0, 44) case 101 => (49, 11, 5)
    case 102 => (45, 0, 49) case 103 => (0, 0, 33) case 104 => (49, 10, 30) case 105 => (49, 11, 30)
    case 106 => (49, 0, 46) case 107 => (49, 11, 1) case 108 => (49, 10, 34) case 109 => (0, 10, 33)
    case 110 => (0, 11, 30) case 111 => (0, 11, 1) case 112 => (49, 11, 33) case 113 => (49, 11, 21)
    case 114 => (49, 11, 12) case 115 => (0, 11, 5) case 116 => (49, 11, 34) case 117 => (0, 11, 12)
    case 118 => (0, 10, 30) case 119 => (0, 11, 34) case _ => (0, 10, 34)
  }

  /** Prefix, type and suffix of each transform. */
  function Row(index: nat): (row: (nat, nat, nat))
    requires index < TRANSFORM_COUNT
    ensures GoodRow(row)
  {
    if index < 40 then FirstRows(index) else if index < 80 then MiddleRows(index) else LastRows(index)
  }

  /** The bytes of each prefix or suffix. */
  function Affix(id: nat): seq<Byte>
    requires id < 50
  {
    match id
    case 0 => [32] case 1 => [44, 32] case 2 => [32, 111, 102, 32, 116, 104, 101, 32] case 3 => [32, 111, 102, 32]
    case 4 => [115, 32] case 5 => [46] case 6 => [32, 97, 110, 100, 32] case 7 => [32, 105, 110, 32] case 8 => [34]
    case 9 => [32, 116, 111, 32] case 10 => [34, 62] case 11 => [10] case 12 => [46, 32] case 13 => [93]
    case 14 => [32, 102, 111, 114, 32] case 15 => [32, 97, 32] case 16 => [32, 116, 104, 97, 116, 32] case 17 => [39]
    case 18 => [32, 119, 105, 116, 104, 32] case 19 => [32, 102, 114, 111, 109, 32] case 20 => [32, 98, 121, 32]
    case 21 => [40] case 22 => [46, 32, 84, 104, 101, 32] case 23 => [32, 111, 110, 32] case 24 => [32, 97, 115, 32]
    case 25 => [32, 105, 115, 32] case 26 => [105, 110, 103, 32] case 27 => [10, 9] case 28 => [58]
    case 29 => [101, 100, 32] case 30 => [61, 34] case 31 => [32, 97, 116, 32] case 32 => [108, 121, 32]
    case 33 => [44] case 34 => [61, 39] case 35 => [46, 99, 111, 109, 47] case 36 => [46, 32, 84, 104, 105, 115, 32]
    case 37 => [32, 110, 111, 116, 32] case 38 => [101, 114, 32] case 39 => [97, 108, 32]
    case 40 => [102, 117, 108, 32] case 41 => [105, 118, 101, 32] case 42 => [108, 101, 115, 115, 32]
    case 43 => [101, 115, 116, 32] case 44 => [105, 122, 101, 32] case 45 => [194, 160]
    case 46 => [111, 117, 115, 32] case 47 => [32, 116, 104, 101, 32] case 48 => [101, 32] case _ => []
  }

  /** Where in the packed dictionary the words of a length begin. */
  function WordsOffset(length: nat): nat
  {
    match length
    case 4 => 0 case 5 => 4096 case 6 => 9216 case 7 => 21504 case 8 => 35840 case 9 => 44032 case 10 => 53248
    case 11 => 63488 case 12 => 74752 case 13 => 87040 case 14 => 93696 case 15 => 100864 case 16 => 104704
    case 17 => 106752 case 18 => 108928 case 19 => 113536 case 20 => 115968 case 21 => 118528 case 22 => 119872
    case 23 => 121280 case 24 => 122016 case _ => if length < 4 then 0 else 122784
  }

  const DICTIONARY_SIZE: nat := 122784

  lemma WordCounts()
    ensures Pow2(5) == 32 && Pow2(6) == 64 && Pow2(7) == 128 && Pow2(8) == 256 && Pow2(9) == 512 && Pow2(10) == 1024 &&
            Pow2(11) == 2048
  {
    assert Pow2(4) == 16;
    assert Pow2(8) == 256;
  }

  /** The words of each length fill the dictionary up to those of the next. */
  lemma WordsMeet(length: nat)
    requires MIN_WORD_LENGTH <= length <= MAX_WORD_LENGTH
    ensures WordsOffset(length) + Pow2(SizeBits(length)) * length == WordsOffset(length + 1) <= DICTIONARY_SIZE
  {
    WordCounts();
    hide Pow2;
  }

  /** So every word of a length lies inside the dictionary. */
  lemma WordInside(length: nat, index: nat)
    requires MIN_WORD_LENGTH <= length <= MAX_WORD_LENGTH && index < Pow2(SizeBits(length))
    ensures WordsOffset(length) + index * length + length <= DICTIONARY_SIZE
  {
    WordsMeet(length);
    hide Pow2, WordsOffset, SizeBits;
    MulMonotone(length, index + 1, Pow2(SizeBits(length)));
    assert (index + 1) * length == index * length + length;
  }

  /** The words, by length and number. */
  type Words = f: (nat, nat) -> seq<Byte> | forall length: nat, index: nat :: |f(length, index)| == length
    witness (length: nat, index: nat) => seq(length, _ => 0)

  function FlipCase(b: Byte): Byte
  {
    if b / 32 % 2 == 1 then b - 32 else b + 32
  }

  /** Exclusive or with five. */
  function FlipFive(b: Byte): Byte
  {
    var c := if b % 2 == 1 then b - 1 else b + 1;
    if c / 4 % 2 == 1 then c - 4 else c + 4
  }

  /** How many bytes the character at `offset` takes, by its first byte, as far as there are any. */
  function CharLength(word: seq<Byte>, offset: nat): (n: nat)
    requires offset < |word|
    ensures 0 < n <= |word| - offset
  {
    if word[offset] < 0xc0 then 1
    else if word[offset] < 0xe0 then (if offset + 1 < |word| then 2 else 1)
    else if offset + 2 < |word| then 3
    else |word| - offset
  }

  /** One character in upper case. */
  function UppercaseAt(word: seq<Byte>, offset: nat): (r: seq<Byte>)
    requires offset < |word|
    ensures |r| == |word|
  {
    var first := word[offset];
    if first < 0xc0 then (if 97 <= first <= 122 then word[offset := first - 32] else word)
    else if first < 0xe0 then (if offset + 1 < |word| then word[offset + 1 := FlipCase(word[offset + 1])] else word)
    else if offset + 2 < |word| then word[offset + 2 := FlipFive(word[offset + 2])]
    else word
  }

  function UppercaseFrom(word: seq<Byte>, offset: nat): (r: seq<Byte>)
    requires offset <= |word|
    ensures |r| == |word|
    decreases |word| - offset
  {
    if offset == |word| then word
    else UppercaseFrom(UppercaseAt(word, offset), offset + CharLength(word, offset))
  }

  /** The part of the word a transform type keeps, in its case. */
  function Kept(word: seq<Byte>, kind: nat): seq<Byte>
    requires kind <= 20
  {
    if 1 <= kind <= 9 then word[..if kind < |word| then |word| - kind else 0]
    else if kind >= 12 then word[if kind - 11 < |word| then kind - 11 else |word|..]
    else if kind == UPPERCASE_FIRST && word != [] then UppercaseAt(word, 0)
    else if kind == UPPERCASE_ALL then UppercaseFrom(word, 0)
    else word
  }

  function TransformWord(word: seq<Byte>, index: nat): seq<Byte>
    requires index < TRANSFORM_COUNT
  {
    Affix(Row(index).0) + Kept(word, Row(index).1) + Affix(Row(index).2)
  }

  datatype DictionaryError = CopyLength | DistanceTooShort | NoTransform

  /** Which word and which transform a distance beyond the window stands for, and the result. */
  function Transform(words: Words, distance: nat, copyLength: nat, maxBackward: nat): Result<seq<Byte>, DictionaryError>
  {
    var shift := SizeBits(copyLength);
    if shift == 0 then Err(CopyLength)
    else if distance < maxBackward + 1 then Err(DistanceTooShort)
    else
      var address := distance - maxBackward - 1;
      var index := Quotient(address, Pow2(shift));
      if index >= TRANSFORM_COUNT then Err(NoTransform)
      else Ok(TransformWord(words(copyLength, Remainder(address, Pow2(shift))), index))
  }

  /** A transform drops at most nine bytes, and the first one none. */
  lemma KeptLength(word: seq<Byte>, index: nat)
    requires index < TRANSFORM_COUNT
    ensures |TransformWord(word, index)| + 9 >= |word|
    ensures index == 0 ==> |TransformWord(word, index)| >= |word|
  {
    hide Affix, MiddleRows, LastRows, FirstRows;
    if index == 0 {
      FirstIsIdentity();
    }
  }

  lemma FirstIsIdentity()
    ensures Row(0) == (49, 0, 49)
  {
  }

  /** Words that can vanish entirely are short, and there are so many short words that transforms
      other than the identity need an address of at least 1024. */
  lemma EmptyMeansFar(words: Words, distance: nat, copyLength: nat, maxBackward: nat)
    requires Transform(words, distance, copyLength, maxBackward) == Ok([])
    ensures distance > maxBackward + 1024
  {
    hide TransformWord, Pow2, Remainder, Quotient;
    var shift := SizeBits(copyLength);
    var address := distance - maxBackward - 1;
    var index := Quotient(address, Pow2(shift));
    var word := words(copyLength, Remainder(address, Pow2(shift)));
    KeptLength(word, index);
    WordCounts();
    assert copyLength <= 9 && shift >= 10 && index > 0;
    FarAddress(address, shift);
  }

  lemma FarAddress(address: nat, shift: nat)
    requires Quotient(address, Pow2(shift)) > 0 && shift >= 10
    ensures address >= 1024
  {
    Pow2Monotone(10, shift);
    WordCounts();
    if address < 1024 {
      DivUnique(address, Pow2(shift), 0, address);
    }
  }
}
