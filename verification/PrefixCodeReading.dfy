/** The resumable reader of prefix codes (`src/decode/prefix_code_decoder.rs`): two bits tell whether symbols are listed
    or lengths follow, and the reader of that form takes over. It reads back what the encoder writes wherever the bits
    are cut, and no two codes are written alike. */
module PrefixCodeReading {
  import opened Arithmetic
  import opened CanonicalCode
  import opened CanonicalTables
  import opened CodeLengthTokens
  import opened ComplexPrefixFormat
  import opened ComplexPrefixDecoder
  import opened ComplexPrefixMachine
  import Complex = ComplexPrefixRoundTrip
  import ComplexReader = ComplexPrefixCodeReading
  import opened BitStream
  import opened SimplePrefixCode
  import opened PrefixEncodings
  import opened Outcomes

  /** What the encoder wrote for a code and what follows it; the tokens still to come of lengths that are read. */
  datatype TreePlan = TreePlan(e: PrefixEncoding, frequencies: seq<nat>, written: seq<bool>, rest: seq<bool>,
                               tokens: Option<Plan>)

  /** The code that is written, and the bits behind it. */
  ghost predicate Towards(plan: TreePlan, next: TreePlan)
  {
    next.e == plan.e && next.frequencies == plan.frequencies && next.rest == plan.rest
  }

  /** The lengths the tokens lead to are the code's. */
  ghost predicate TokensLead(plan: TreePlan, size: nat)
  {
    && plan.tokens.Some? && plan.tokens.value.rest == plan.rest && |plan.tokens.value.read.lengths| <= size
    && plan.tokens.value.read.lengths + Copies(0, size - |plan.tokens.value.read.lengths|) == LengthsOf(plan.e)
  }

  datatype TreeError = BadList(list: SimpleError) | BadLengths(lengths: ComplexPrefixCodeError)

  datatype TreeResult = MoreInput | Tree(code: PrefixCode) | Invalid(error: TreeError)

  datatype Form =
    Unknown | ByList(list: SimplePrefixCodeDecoder) | ByLengths(lengths: ComplexReader.ComplexPrefixCodeDecoder) | Read

  class PrefixCodeDecoder {
    const alphabetSize: nat
    var form: Form

    ghost function Repr(): set<object>
      reads this
    {
      match form
      case ByList(d) => {this, d}
      case ByLengths(d) => {this, d, d.fixedDecoder, d.codeLengthSymbol}
      case _ => {this}
    }

    ghost predicate Valid()
      reads this, Repr()
    {
      match form
      case ByList(d) => d.alphabetSize == alphabetSize && SaneSimple(d.Abs(), alphabetSize)
      case ByLengths(d) => d.alphabetSize == alphabetSize && d.Valid()
      case _ => true
    }

    /** If there is a plan, the stream from here on follows it. */
    ghost predicate Expects(plan: Option<TreePlan>, stream: seq<bool>)
      requires Valid()
      reads this, Repr()
    {
      plan.Some? ==>
        var p := plan.value;
        && Encodes(p.e, p.frequencies) && |p.frequencies| == alphabetSize <= MAX_ALPHABET
        && match form
           case Unknown => IsTree(p.e, p.written) && stream == p.written + p.rest
           case ByList(d) =>
             p.e.simple != [] && Reads(alphabetSize, d.Abs(), stream) == Listed(p.e.simple, false, p.rest)
           case ByLengths(d) => TokensLead(p, alphabetSize) && d.Expects(p.tokens, stream)
           case Read => true
    }

    constructor (size: nat)
      requires size > 0
      ensures Valid() && fresh(Repr()) && alphabetSize == size && form == Unknown
    {
      alphabetSize, form := size, Unknown;
    }

    /** Decodes as far as the bits go. What the encoder wrote comes to a code for the same lengths, with exactly its
        bits taken, in however many calls. */
    method Decode(bits: seq<bool>, ghost plan: Option<TreePlan>, ghost later: seq<bool>)
      returns (r: TreeResult, left: seq<bool>, ghost next: Option<TreePlan>)
      requires Valid() && alphabetSize > 0 && !form.Read? && Expects(plan, bits + later)
      modifies Repr()
      ensures fresh(Repr() - old(Repr())) && |left| <= |bits| && (!r.Invalid? ==> Valid())
      ensures plan.Some? == next.Some? && (plan.Some? ==> Towards(plan.value, next.value))
      ensures r.MoreInput? ==> !form.Read? && Expects(next, left + later) && (plan.Some? ==> later != [])
      ensures r.Tree? ==> form.Read? && Makes(r.code, alphabetSize)
      ensures r.Tree? && plan.Some? ==>
                CodeFor(r.code, LengthsOf(plan.value.e)) && left + later == plan.value.rest
      ensures r.Invalid? ==> plan.None?
    {
      hide Encodes, IsTree, Reads, CodeFor, LengthsOf, Makes, SaneSimple, TokensLead, Valid, Expects,
           SimplePrefixCodeDecoder.Abs;
      left, next := bits, plan;
      if form.Unknown? {
        if |left| < 2 {
          WantsSelector(this, plan, left, later);
          return MoreInput, left, next;
        }
        next := Choose(left, plan, later);
        left := left[2..];
      }
      if form.ByList? {
        r, left := DecodeList(left, next, later);
      } else {
        r, left, next := DecodeLengths(left, next, later);
      }
    }

    /** The first two bits: a one for a list, and otherwise how many of the first lengths are left out. */
    method Choose(bits: seq<bool>, ghost plan: Option<TreePlan>, ghost later: seq<bool>)
      returns (ghost next: Option<TreePlan>)
      requires Valid() && alphabetSize > 0 && form.Unknown? && |bits| >= 2 && Expects(plan, bits + later)
      modifies this
      ensures Valid() && fresh(Repr() - {this}) && (form.ByList? || form.ByLengths?) && Expects(next, bits[2..] + later)
      ensures plan.Some? == next.Some? && (plan.Some? ==> Towards(plan.value, next.value))
    {
      hide *;
      next := plan;
      var selector := FromLsb(bits[..2]);
      SelectorWithin(bits);
      if plan.Some? {
        PlanAtStart(this, plan.value, bits + later);
        SameTarget(plan.value);
      }
      if selector == 1 {
        var list := new SimplePrefixCodeDecoder(alphabetSize);
        if plan.Some? {
          StartsList(plan.value, bits, later, alphabetSize);
        }
        form := ByList(list);
        ListReady(this, list, next, bits[2..] + later);
      } else {
        var lengths := new ComplexReader.ComplexPrefixCodeDecoder(alphabetSize, selector);
        if plan.Some? {
          ghost var tokens := StartsLengths(plan.value, bits, later, alphabetSize);
          next := Some(plan.value.(tokens := Some(tokens)));
        }
        form := ByLengths(lengths);
        LengthsReady(this, lengths, next, bits[2..] + later);
      }
    }

    method DecodeList(bits: seq<bool>, ghost plan: Option<TreePlan>, ghost later: seq<bool>)
      returns (r: TreeResult, left: seq<bool>)
      requires Valid() && form.ByList? && Expects(plan, bits + later)
      modifies this, form.list
      ensures |left| <= |bits| && (form == old(form) || form.Read?) && (!r.Invalid? ==> Valid())
      ensures r.MoreInput? ==> form == old(form) && Expects(plan, left + later) && (plan.Some? ==> later != [])
      ensures r.Tree? ==> form.Read? && Makes(r.code, alphabetSize)
      ensures r.Tree? && plan.Some? ==>
                CodeFor(r.code, LengthsOf(plan.value.e)) && left + later == plan.value.rest
      ensures r.Invalid? ==> plan.None?
    {
      hide Encodes, IsTree, Reads, CodeFor, SimpleLengths, LengthsOf, Decodable, SaneSimple, Makes;
      var list := form.list;
      ghost var st := list.Abs();
      ReadsOn(alphabetSize, st, bits, later);
      if plan.Some? {
        ListedLengths(plan.value);
      }
      var got;
      got, left := list.Decode(bits);
      match got {
        case Ok(None) =>
          assert later == [] ==> bits + later == bits;
          r := MoreInput;
        case Ok(Some(code)) =>
          form := Read;
          r := Tree(code);
          ListMakes(alphabetSize, Reads(alphabetSize, st, bits), code);
        case Err(e) => r := Invalid(BadList(e));
      }
    }

    method DecodeLengths(bits: seq<bool>, ghost plan: Option<TreePlan>, ghost later: seq<bool>)
      returns (r: TreeResult, left: seq<bool>, ghost next: Option<TreePlan>)
      requires Valid() && form.ByLengths? && Expects(plan, bits + later)
      modifies this, form.lengths, form.lengths.fixedDecoder, form.lengths.codeLengthSymbol
      ensures |left| <= |bits| && (form == old(form) || form.Read?) && (!r.Invalid? ==> Valid())
      ensures plan.Some? == next.Some? && (plan.Some? ==> Towards(plan.value, next.value))
      ensures r.MoreInput? ==> form == old(form) && Expects(next, left + later) && (plan.Some? ==> later != [])
      ensures r.Tree? ==> form.Read? && Makes(r.code, alphabetSize)
      ensures r.Tree? && plan.Some? ==>
                CodeFor(r.code, LengthsOf(plan.value.e)) && left + later == plan.value.rest
      ensures r.Invalid? ==> plan.None?
    {
      hide *;
      var lengths := form.lengths;
      ghost var stream := bits + later;
      ghost var tokens := if plan.Some? then plan.value.tokens else None;
      AtLengths(this, lengths, plan, stream);
      var step, used;
      ghost var after;
      step, used, after := lengths.Decode(bits, tokens, stream);
      left := bits[used..];
      next := if plan.Some? then Some(plan.value.(tokens := after)) else None;
      if plan.Some? {
        SameTarget(plan.value);
      }
      assert stream[used..] == left + later;
      match step {
        case NeedInput =>
          r := MoreInput;
          assert later == [] ==> bits + later == bits;
          if plan.Some? {
            StillLeads(plan.value, after, alphabetSize);
          }
          LengthsGoOn(this, lengths, next, left + later);
        case Finished(code) =>
          LengthsMake(lengths.lengths, code);
          if plan.Some? {
            TheLengths(plan.value, lengths.lengths, alphabetSize);
          }
          form := Read;
          ReadIsValid(this);
          r := Tree(code);
        case Failed(e) => r := Invalid(BadLengths(e));
        case _ =>
      }
    }
  }

  lemma ReadIsValid(decoder: PrefixCodeDecoder)
    requires decoder.form.Read?
    ensures decoder.Valid()
  {
  }

  lemma AtLengths(decoder: PrefixCodeDecoder, lengths: ComplexReader.ComplexPrefixCodeDecoder,
                  plan: Option<TreePlan>, stream: seq<bool>)
    requires decoder.form == ByLengths(lengths) && decoder.Valid() && decoder.Expects(plan, stream)
    ensures lengths.Valid() && lengths.alphabetSize == decoder.alphabetSize
    ensures lengths.Expects(if plan.Some? then plan.value.tokens else None, stream)
    ensures plan.Some? ==>
              && TokensLead(plan.value, decoder.alphabetSize) && plan.value.tokens.Some?
              && Encodes(plan.value.e, plan.value.frequencies)
              && |plan.value.frequencies| == decoder.alphabetSize <= MAX_ALPHABET
  {
    hide Encodes, LengthsOf, Copies, ComplexReader.ComplexPrefixCodeDecoder.Valid,
         ComplexReader.ComplexPrefixCodeDecoder.Expects;
    NoTokens(lengths, stream);
  }

  lemma StillLeads(p: TreePlan, after: Option<Plan>, size: nat)
    requires TokensLead(p, size) && ComplexReader.SamePlan(p.tokens, after)
    ensures TokensLead(p.(tokens := after), size)
  {
    hide LengthsOf, Copies;
  }

  lemma TheLengths(p: TreePlan, lengths: seq<nat>, size: nat)
    requires TokensLead(p, size)
    requires |p.tokens.value.read.lengths| <= size &&
             lengths == p.tokens.value.read.lengths + Copies(0, size - |p.tokens.value.read.lengths|)
    ensures lengths == LengthsOf(p.e) && p.tokens.value.rest == p.rest
  {
    hide LengthsOf, Copies;
  }

  lemma LengthsGoOn(decoder: PrefixCodeDecoder, lengths: ComplexReader.ComplexPrefixCodeDecoder,
                    plan: Option<TreePlan>, stream: seq<bool>)
    requires decoder.form == ByLengths(lengths) && lengths.alphabetSize == decoder.alphabetSize && lengths.Valid()
    requires plan.Some? ==>
               && Encodes(plan.value.e, plan.value.frequencies) && TokensLead(plan.value, decoder.alphabetSize)
               && |plan.value.frequencies| == decoder.alphabetSize <= MAX_ALPHABET
               && lengths.Expects(plan.value.tokens, stream)
    ensures decoder.Valid() && decoder.Expects(plan, stream)
  {
    hide Encodes, LengthsOf, Copies, ComplexReader.ComplexPrefixCodeDecoder.Valid,
         ComplexReader.ComplexPrefixCodeDecoder.Expects;
  }

  /** A code for some lengths of the alphabet that make one. */
  ghost predicate Makes(code: PrefixCode, size: nat)
  {
    exists lengths :: |lengths| == size && Decodable(lengths) && CodeFor(code, lengths)
  }

  lemma LengthsMake(lengths: seq<nat>, code: PrefixCode)
    requires Complete(lengths) && CodeFor(code, lengths)
    ensures Makes(code, |lengths|)
  {
    hide Complete, CodeFor;
  }

  lemma ListMakes(size: nat, stop: SimpleStop, code: PrefixCode)
    requires stop.Listed? && 1 <= |stop.symbols| <= 4 && Listable(stop.symbols, size)
    requires CodeFor(code, SimpleLengths(stop.symbols, stop.treeSelect, size))
    ensures Makes(code, size)
  {
    hide Complete, CodeFor, SimpleLengths, Listable;
    SimpleIsCode(stop.symbols, stop.treeSelect, size);
  }

  lemma NoTokens(lengths: ComplexReader.ComplexPrefixCodeDecoder, stream: seq<bool>)
    ensures lengths.Expects(None, stream)
  {
  }

  lemma ListedLengths(p: TreePlan)
    requires Encodes(p.e, p.frequencies) && p.e.simple != []
    ensures LengthsOf(p.e) == SimpleLengths(p.e.simple, false, |p.frequencies|)
  {
    EncodesFacts(p.e, p.frequencies);
    hide Encodes, SimpleLengths;
  }

  lemma SelectorWithin(bits: seq<bool>)
    requires |bits| >= 2
    ensures FromLsb(bits[..2]) < 4
  {
    assert Pow2(2) == 4;
  }

  lemma SameTarget(p: TreePlan)
    ensures Towards(p, p) && forall tokens :: Towards(p, p.(tokens := tokens))
  {
  }

  lemma PlanAtStart(decoder: PrefixCodeDecoder, p: TreePlan, stream: seq<bool>)
    requires decoder.Valid() && decoder.form.Unknown? && decoder.Expects(Some(p), stream)
    ensures Encodes(p.e, p.frequencies) && |p.frequencies| == decoder.alphabetSize <= MAX_ALPHABET
    ensures IsTree(p.e, p.written) && stream == p.written + p.rest
  {
    hide Encodes, IsTree;
  }

  /** A one says that the code's symbols follow. */
  lemma StartsList(p: TreePlan, bits: seq<bool>, later: seq<bool>, size: nat)
    requires Encodes(p.e, p.frequencies) && |p.frequencies| == size && IsTree(p.e, p.written)
    requires |bits| >= 2 && bits + later == p.written + p.rest && FromLsb(bits[..2]) == 1
    ensures p.e.simple != [] && Reads(size, SymbolCount, bits[2..] + later) == Listed(p.e.simple, false, p.rest)
  {
    EncodesFacts(p.e, p.frequencies);
    TreeSelector(p.e, p.written, p.rest);
    hide *;
    FrontOf(bits, later);
    SimpleRoundTrip(size, p.e.simple, p.rest);
  }

  lemma FrontOf(bits: seq<bool>, later: seq<bool>)
    requires |bits| >= 2
    ensures (bits + later)[..2] == bits[..2] && (bits + later)[2..] == bits[2..] + later
  {
  }

  lemma ListReady(decoder: PrefixCodeDecoder, list: SimplePrefixCodeDecoder, plan: Option<TreePlan>, stream: seq<bool>)
    requires decoder.form == ByList(list) && list.alphabetSize == decoder.alphabetSize && list.Abs() == SymbolCount
    requires plan.Some? ==>
               var p := plan.value;
               && Encodes(p.e, p.frequencies) && |p.frequencies| == decoder.alphabetSize <= MAX_ALPHABET
               && p.e.simple != [] && Reads(decoder.alphabetSize, SymbolCount, stream) ==
                                      Listed(p.e.simple, false, p.rest)
    ensures decoder.Valid() && decoder.Expects(plan, stream) && decoder.Repr() == {decoder, list}
  {
    hide Encodes, Reads;
  }

  /** Anything else says how many of the first lengths are left out. */
  lemma StartsLengths(p: TreePlan, bits: seq<bool>, later: seq<bool>, size: nat) returns (tokens: Plan)
    requires Encodes(p.e, p.frequencies) && |p.frequencies| == size && IsTree(p.e, p.written)
    requires |bits| >= 2 && bits + later == p.written + p.rest && FromLsb(bits[..2]) != 1
    ensures TokensLead(p.(tokens := Some(tokens)), size)
    ensures InHeader(tokens, [] + (bits[2..] + later), FromLsb(bits[..2]), seq(CODE_LENGTH_CODES, _ => 0), size)
  {
    EncodesFacts(p.e, p.frequencies);
    TreeSelector(p.e, p.written, p.rest);
    WrittenLengths(p.e, p.written);
    hide *;
    FrontOf(bits, later);
    var cl, ts, read := Complex.FormTaken(p.e.lengths, p.written);
    Complex.CodeSize(cl);
    tokens := Plan(cl, ts, read, p.rest);
    Complex.SkipFromBits(Skip(cl), Body(cl, ts) + p.rest);
    Complex.Associates(Lsb(Skip(cl), 2), Body(cl, ts), p.rest);
    Complex.FreshPlan(cl, ts, read, p.rest, size);
    LeadsTo(p, tokens, size);
  }

  lemma WrittenLengths(e: PrefixEncoding, written: seq<bool>)
    requires IsTree(e, written) && e.simple == []
    ensures Complex.IsForm(e.lengths, written)
  {
  }

  lemma LeadsTo(p: TreePlan, tokens: Plan, size: nat)
    requires tokens.rest == p.rest && |tokens.read.lengths| <= size
    requires tokens.read.lengths + Copies(0, size - |tokens.read.lengths|) == LengthsOf(p.e)
    ensures TokensLead(p.(tokens := Some(tokens)), size)
  {
    hide LengthsOf, Copies;
  }

  lemma LengthsReady(decoder: PrefixCodeDecoder, lengths: ComplexReader.ComplexPrefixCodeDecoder,
                     plan: Option<TreePlan>, stream: seq<bool>)
    requires decoder.form == ByLengths(lengths) && lengths.alphabetSize == decoder.alphabetSize && lengths.Valid()
    requires lengths.state == ComplexReader.CodeLengthAlphabet && lengths.fixedDecoder.Pending() == []
    requires plan.Some? ==>
               var p := plan.value;
               && Encodes(p.e, p.frequencies) && |p.frequencies| == decoder.alphabetSize <= MAX_ALPHABET
               && TokensLead(p, decoder.alphabetSize)
               && InHeader(p.tokens.value, [] + stream, lengths.codeLengthIndex, lengths.codeLengthLengths,
                           decoder.alphabetSize)
    ensures decoder.Valid() && decoder.Expects(plan, stream)
    ensures decoder.Repr() == {decoder, lengths, lengths.fixedDecoder, lengths.codeLengthSymbol}
  {
    hide Encodes, InHeader, ComplexReader.ComplexPrefixCodeDecoder.Valid, LengthsOf;
  }

  lemma WantsSelector(decoder: PrefixCodeDecoder, plan: Option<TreePlan>, bits: seq<bool>, later: seq<bool>)
    requires decoder.Valid() && decoder.form.Unknown? && decoder.Expects(plan, bits + later) && |bits| < 2
    ensures plan.Some? ==> later != []
  {
    if plan.Some? {
      TreeSelector(plan.value.e, plan.value.written, plan.value.rest);
    }
  }

  /** Reads the code for an alphabet in one call. */
  method ReadTree(size: nat, bits: seq<bool>, ghost e: PrefixEncoding, ghost frequencies: seq<nat>,
                  ghost written: seq<bool>, ghost rest: seq<bool>)
    returns (code: PrefixCode, left: seq<bool>)
    requires Encodes(e, frequencies) && 0 < |frequencies| == size <= MAX_ALPHABET && IsTree(e, written) &&
             bits == written + rest
    ensures CodeFor(code, LengthsOf(e)) && left == rest
  {
    hide *;
    var decoder := new PrefixCodeDecoder(size);
    ghost var plan := TreePlan(e, frequencies, written, rest, None);
    assert bits + [] == bits;
    ExpectsTree(decoder, plan, bits);
    var r;
    ghost var next;
    r, left, next := decoder.Decode(bits, Some(plan), []);
    assert left + [] == left;
    match r {
      case Tree(c) => code := c;
      case _ =>
    }
  }

  lemma ExpectsTree(decoder: PrefixCodeDecoder, plan: TreePlan, stream: seq<bool>)
    requires decoder.form == Unknown && decoder.Valid()
    requires Encodes(plan.e, plan.frequencies) && |plan.frequencies| == decoder.alphabetSize <= MAX_ALPHABET
    requires IsTree(plan.e, plan.written) && stream == plan.written + plan.rest
    ensures decoder.Expects(Some(plan), stream)
  {
    hide Encodes, IsTree;
  }

  /** Writes a code and reads it back: what is written is a form of the code, the decoder's code is one for the same
      lengths, and the bits behind it are left. */
  method WriteThenRead(e: PrefixEncoding, ghost frequencies: seq<nat>, rest: seq<bool>)
    returns (written: seq<bool>, code: PrefixCode, left: seq<bool>)
    requires Encodes(e, frequencies) && 0 < |frequencies| <= MAX_ALPHABET
    ensures IsTree(e, written) && CodeFor(code, LengthsOf(e)) && left == rest
  {
    hide Encodes, CodeFor, IsTree, LengthsOf;
    written := WriteTree(e, frequencies);
    EncodedSize(e, frequencies);
    code, left := ReadTree(|e.codes|, written + rest, e, frequencies, written, rest);
  }

  /** No bits start with the forms of two codes for an alphabet. */
  lemma OneTree(e: PrefixEncoding, f: seq<nat>, a: seq<bool>, x: seq<bool>, d: PrefixEncoding, g: seq<nat>,
                b: seq<bool>, y: seq<bool>)
    requires Encodes(e, f) && Encodes(d, g) && |f| == |g| && IsTree(e, a) && IsTree(d, b) && a + x == b + y
    ensures LengthsOf(e) == LengthsOf(d) && a == b && x == y
  {
    EncodesFacts(e, f);
    EncodesFacts(d, g);
    TreeSelector(e, a, x);
    TreeSelector(d, b, y);
    if e.simple != [] {
      hide *;
      SimpleRoundTrip(|f|, e.simple, x);
      SimpleRoundTrip(|f|, d.simple, y);
      Complex.SameFront(a, b, x);
    } else {
      WrittenLengths(e, a);
      WrittenLengths(d, b);
      hide *;
      Complex.SameLengths(e.lengths, a, x, d.lengths, b, y);
    }
  }
}
