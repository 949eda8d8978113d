/** Insert and copy lengths and their joint symbol (section 5 of RFC 7932): the encoder's choice
    (`src/encode/command.rs`) and the decoder's reading (`src/decode/command.rs`). */
module Commands {
  import opened Arithmetic

  const INSERT_BASE: seq<nat> := [0, 1, 2, 3, 4, 5, 6, 8, 10, 14, 18, 26, 34, 50, 66, 98, 130, 194, 322, 578, 1090,
                                  2114, 6210, 22594]
  const INSERT_EXTRA_BITS: seq<nat> := [0, 0, 0, 0, 0, 0, 1, 1, 2, 2, 3, 3, 4, 4, 5, 5, 6, 7, 8, 9, 10, 12, 14, 24]
  const COPY_BASE: seq<nat> := [2, 3, 4, 5, 6, 7, 8, 9, 10, 12, 14, 18, 22, 30, 38, 54, 70, 102, 134, 198, 326, 582,
                                1094, 2118]
  const COPY_EXTRA_BITS: seq<nat> := [0, 0, 0, 0, 0, 0, 0, 0, 1, 1, 2, 2, 3, 3, 4, 4, 5, 5, 6, 7, 8, 9, 10, 24]
  const LENGTH_CODES: nat := 24
  const COMMAND_SYMBOL_COUNT: nat := 704

  /** Bases and extra bits of one of the two kinds of length. */
  datatype Lengths = Insert | Copy {
    function Base(code: nat): nat
      requires code < LENGTH_CODES
    {
      if Insert? then INSERT_BASE[code] else COPY_BASE[code]
    }

    function Bits(code: nat): nat
      requires code < LENGTH_CODES
    {
      if Insert? then INSERT_EXTRA_BITS[code] else COPY_EXTRA_BITS[code]
    }

    predicate Covers(code: nat, length: nat)
      requires code < LENGTH_CODES
    {
      Base(code) <= length < Base(code) + Pow2(Bits(code))
    }

    /** One past the longest length that has a code. */
    function Limit(): nat {
      Base(LENGTH_CODES - 1) + Pow2(24)
    }
  }

  lemma SmallPowers()
    ensures Pow2(0) == 1 && Pow2(1) == 2 && Pow2(2) == 4 && Pow2(3) == 8 && Pow2(4) == 16 && Pow2(5) == 32 &&
            Pow2(6) == 64
    ensures Pow2(7) == 128 && Pow2(8) == 256 && Pow2(9) == 512 && Pow2(10) == 1024 && Pow2(12) == 4096 &&
            Pow2(14) == 16384
  {
    assert Pow2(4) == 16;
    assert Pow2(7) == 128;
    assert Pow2(10) == 1024;
    assert Pow2(12) == 4096;
  }

  /** The ranges of successive codes meet: no length falls between two of them. */
  lemma RangesMeet(kind: Lengths, code: nat)
    requires code < LENGTH_CODES - 1
    ensures kind.Base(code) + Pow2(kind.Bits(code)) == kind.Base(code + 1)
  {
    SmallPowers();
    hide Pow2;
  }

  /** The first code from `code` on that covers a length. */
  function CodeFrom(kind: Lengths, length: nat, code: nat): (c: nat)
    requires code < LENGTH_CODES && kind.Base(code) <= length < kind.Limit()
    ensures code <= c < LENGTH_CODES && kind.Covers(c, length)
    decreases LENGTH_CODES - code
  {
    if length < kind.Base(code) + Pow2(kind.Bits(code)) then code
    else
      LaterCode(kind, length, code);
      CodeFrom(kind, length, code + 1)
  }

  lemma LaterCode(kind: Lengths, length: nat, code: nat)
    requires code < LENGTH_CODES && kind.Base(code) + Pow2(kind.Bits(code)) <= length < kind.Limit()
    ensures code < LENGTH_CODES - 1 && kind.Base(code + 1) <= length
  {
    hide Pow2;
    if code < LENGTH_CODES - 1 {
      RangesMeet(kind, code);
    }
  }

  datatype LengthCode = LengthCode(code: nat, extra: nat, extraBits: nat)

  /** Every length up to the limit has a code; its extra bits say where in the code's range it lies. */
  function CodeOf(kind: Lengths, length: nat): (c: LengthCode)
    requires kind.Base(0) <= length < kind.Limit()
    ensures c.code < LENGTH_CODES && c.extraBits == kind.Bits(c.code)
    ensures kind.Base(c.code) + c.extra == length && c.extra < Pow2(c.extraBits)
  {
    var code := CodeFrom(kind, length, 0);
    LengthCode(code, length - kind.Base(code), kind.Bits(code))
  }

  /** Which of the eleven cells of 64 symbols an insert and a copy group share. */
  function Cell(insertGroup: nat, copyGroup: nat): nat
  {
    var offset := 2 * (copyGroup + 3 * insertGroup);
    offset / 2 + 1 + Quotient(0x520d40, Pow2(offset)) / 64 % 4
  }

  /** The joint symbol; the cells of small codes have a form that reuses the last distance. */
  function Combine(insertCode: nat, copyCode: nat, useLastDistance: bool): nat
  {
    var low := copyCode % 8 + 8 * (insertCode % 8);
    if useLastDistance && insertCode < 8 && copyCode < 16 then
      if copyCode < 8 then low else low + 64
    else
      64 * Cell(insertCode / 8, copyCode / 8) + low
  }

  datatype CommandSpec = CommandSpec(insertCode: nat, copyCode: nat, implicitDistanceZero: bool)

  /** First insert code and first copy code of each cell. */
  function Groups(cell: nat): (nat, nat)
  {
    match cell
    case 0 => (0, 0) case 1 => (0, 8) case 2 => (0, 0) case 3 => (0, 8) case 4 => (8, 0) case 5 => (8, 8)
    case 6 => (0, 16) case 7 => (16, 0) case 8 => (8, 16) case 9 => (16, 8) case _ => (16, 16)
  }

  function FromSymbol(symbol: nat): (spec: CommandSpec)
    requires symbol < COMMAND_SYMBOL_COUNT
    ensures spec.insertCode < LENGTH_CODES && spec.copyCode < LENGTH_CODES
  {
    var cell := symbol / 64;
    CommandSpec(Groups(cell).0 + symbol / 8 % 8, Groups(cell).1 + symbol % 8, cell < 2)
  }

  lemma CellAt(insertGroup: nat, copyGroup: nat, offset: nat, power: nat)
    requires offset == 2 * (copyGroup + 3 * insertGroup) && power == Pow2(offset)
    ensures Cell(insertGroup, copyGroup) == offset / 2 + 1 + Quotient(0x520d40, power) / 64 % 4
  {
  }

  lemma FourTimes(offset: nat)
    ensures Pow2(offset + 2) == 4 * Pow2(offset)
  {
  }

  lemma Cells()
    ensures Cell(0, 0) == 2 && Cell(0, 1) == 3 && Cell(0, 2) == 6 && Cell(1, 0) == 4 && Cell(1, 1) == 5
    ensures Cell(1, 2) == 8 && Cell(2, 0) == 7 && Cell(2, 1) == 9 && Cell(2, 2) == 10
  {
    SmallPowers();
    FourTimes(12);
    FourTimes(14);
    hide Pow2, Cell;
    CellAt(0, 0, 0, 1);
    CellAt(0, 1, 2, 4);
    CellAt(0, 2, 4, 16);
    CellAt(1, 0, 6, 64);
    CellAt(1, 1, 8, 256);
    CellAt(1, 2, 10, 1024);
    CellAt(2, 0, 12, 4096);
    CellAt(2, 1, 14, 16384);
    CellAt(2, 2, 16, 65536);
  }

  /** The decoder takes the symbol apart into its cell and the low parts of the codes. */
  lemma TakenApart(cell: nat, insertLow: nat, copyLow: nat)
    requires insertLow < 8 && copyLow < 8 && cell <= 10
    ensures var symbol := 64 * cell + (copyLow + 8 * insertLow);
            && symbol < COMMAND_SYMBOL_COUNT
            && FromSymbol(symbol) == CommandSpec(Groups(cell).0 + insertLow, Groups(cell).1 + copyLow, cell < 2)
  {
    hide Groups;
    var symbol := 64 * cell + (copyLow + 8 * insertLow);
    assert symbol / 64 == cell && symbol / 8 % 8 == insertLow && symbol % 8 == copyLow;
  }

  /** The decoder recovers both codes from the symbol, and the implicit distance exactly when the
      encoder could leave it out. */
  lemma SymbolRoundTrip(insertCode: nat, copyCode: nat, useLastDistance: bool)
    requires insertCode < LENGTH_CODES && copyCode < LENGTH_CODES
    ensures Combine(insertCode, copyCode, useLastDistance) < COMMAND_SYMBOL_COUNT
    ensures FromSymbol(Combine(insertCode, copyCode, useLastDistance)) ==
            CommandSpec(insertCode, copyCode, useLastDistance && insertCode < 8 && copyCode < 16)
  {
    var implicit := useLastDistance && insertCode < 8 && copyCode < 16;
    var cell := if implicit then copyCode / 8 else Cell(insertCode / 8, copyCode / 8);
    CellGroups(insertCode / 8, copyCode / 8);
    CombineIs(insertCode, copyCode, useLastDistance, cell);
    hide Cell, Groups, Combine, FromSymbol;
    TakenApart(cell, insertCode % 8, copyCode % 8);
  }

  lemma CombineIs(insertCode: nat, copyCode: nat, useLastDistance: bool, cell: nat)
    requires cell == if useLastDistance && insertCode < 8 && copyCode < 16 then copyCode / 8
             else Cell(insertCode / 8, copyCode / 8)
    ensures Combine(insertCode, copyCode, useLastDistance) == 64 * cell + (copyCode % 8 + 8 * (insertCode % 8))
  {
    hide Cell;
  }

  lemma CellGroups(i: nat, c: nat)
    requires i < 3 && c < 3
    ensures 2 <= Cell(i, c) <= 10 && Groups(Cell(i, c)) == (8 * i, 8 * c)
    ensures c < 2 ==> Groups(c) == (0, 8 * c)
  {
    Cells();
    hide Cell;
  }

  /** An explicit distance is left out exactly for the symbols below 128. */
  lemma ImplicitBelow128(insertCode: nat, copyCode: nat, useLastDistance: bool)
    requires insertCode < LENGTH_CODES && copyCode < LENGTH_CODES
    ensures Combine(insertCode, copyCode, useLastDistance) < 128 <==> useLastDistance && insertCode < 8 && copyCode < 16
  {
    Cells();
    hide Cell;
    assert insertCode / 8 <= 2 && copyCode / 8 <= 2;
  }
}
