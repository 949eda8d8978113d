/** The public decoder (`src/lib.rs`): a limit on the output, an explicit end of input, errors that stay; and
    decompression of a whole stream in one call. */
module Decompression {
  import opened Arithmetic
  import opened Bytes
  import opened BitPacking
  import opened DecoderMachine
  import opened DecoderRuns
  import opened StreamDecoder
  import opened Outcomes

  datatype PublicError =
    | Invalid(error: DecodeError) | UnexpectedEof | OutputLimitExceeded(limit: nat) | TrailingData(remaining: nat)

  datatype Progress = Progress(consumed: nat, output: seq<Byte>, status: DecoderStatus)

  const BUFFER_SIZE: nat := 8192

  /** A decoder that writes at most so many bytes in all. */
  class LimitedDecoder {
    const core: Decoder
    const limit: nat
    var total: nat
    var error: Option<PublicError>

    ghost predicate Valid()
      reads this, core, core.Repr
    {
      && this !in core.Repr && core.Shape() && total <= limit
      && (error.None? ==> core.Valid() && total == |core.View().flat|)
    }

    ghost function Repr(): set<object>
      reads this, core
    {
      core.Repr + {this, core}
    }

    constructor (given: Given, limit: nat)
      requires Admissible(given.parser)
      ensures Valid() && fresh(Repr()) && this.limit == limit && core.given == given && error.None?
      ensures core.View() == Initial() && core.reader.Ahead([], 0) == []
    {
      core := new Decoder(given);
      this.limit, total, error := limit, 0, None;
      new;
      StartsEmpty(core.reader);
    }

    /** What a call decodes with the room it has and what is left of the limit; an error stays, and then a
        call does nothing. */
    method Advance(input: seq<Byte>, room: nat, endOfInput: bool) returns (r: Result<Progress, PublicError>)
      requires Valid()
      modifies Repr()
      ensures Valid() && fresh(Repr() - old(Repr())) && (r.Err? <==> error.Some?) && (r.Err? ==> error == Some(r.error))
      ensures old(error).Some? ==> error == old(error) && total == old(total)
      ensures old(error).None? ==>
                && Sound(old(core.View()))
                && var stop := Decode(core.given, old(core.View()), old(core.reader.Ahead(input, 0)),
                                      Min(room, limit - old(total)));
                && (r.Ok? ==>
                      && r.value.consumed <= |input| && core.View().flat == old(core.View()).flat + r.value.output
                      && |r.value.output| <= Min(room, limit - old(total))
                      && stop == DecoderStop(core.View(), core.reader.Ahead(input, r.value.consumed), r.value.status)
                      && (stop.status.NeedInput? ==> r.value.consumed == |input|)
                      && (stop.status.Done? ==> stop.rest == BitsOf(input[r.value.consumed..])))
                && r.Err? == (stop.status.Failed? || (stop.status.NeedInput? && endOfInput) ||
                              (stop.status.NeedOutput? && |stop.state.flat| >= limit))
                && (r.Err? ==> r.error == (if stop.status.Failed? then Invalid(stop.status.error)
                                           else if stop.status.NeedInput? then UnexpectedEof
                                               else OutputLimitExceeded(limit)))
    {
      hide Sound, Decode, Admissible, BitsOf, BitReader.Ahead;
      if error.Some? {
        return Err(error.value);
      }
      var allowed := Min(room, limit - total);
      var status, consumed, output := core.Process(input, allowed);
      if status.Failed? {
        error := Some(Invalid(status.error));
        return Err(Invalid(status.error));
      }
      total := total + |output|;
      if status.NeedInput? && endOfInput {
        error := Some(UnexpectedEof);
        return Err(UnexpectedEof);
      }
      if status.NeedOutput? && total >= limit {
        error := Some(OutputLimitExceeded(limit));
        return Err(OutputLimitExceeded(limit));
      }
      r := Ok(Progress(consumed, output, status));
    }
  }

  /** What a stream comes to under a limit: the one run of the machine over all of its bits decides. */
  function Outcome(g: Given, bytes: seq<Byte>, limit: nat): Result<seq<Byte>, PublicError>
    requires Admissible(g.parser)
  {
    InitialIsSound();
    var stop := Decode(g, Initial(), BitsOf(bytes), limit);
    match stop.status
    case Failed(e) => Err(Invalid(e))
    case NeedInput => Err(UnexpectedEof)
    case NeedOutput => Err(OutputLimitExceeded(limit))
    case Done => if |stop.rest| >= 8 then Err(TrailingData(|stop.rest| / 8)) else Ok(stop.state.flat)
  }

  /** A call with less room takes the run part of the way; if it does not stop for want of room, it stops
      where the run does. */
  lemma PartOfTheWay(g: Given, d: DecoderState, bits: seq<bool>, room: nat, more: nat)
    requires Admissible(g.parser) && Sound(d) && OnBoundary(d, |bits|) && room <= more
    ensures var stop, whole := Decode(g, d, bits, room), Decode(g, d, bits, more);
            && |d.flat| <= |stop.state.flat| <= |d.flat| + room
            && (stop.status.NeedOutput? ==> |stop.state.flat| == |d.flat| + room && !stop.state.phase.Finished?)
            && (!stop.status.NeedOutput? ==> whole == stop)
            && whole == Decode(g, stop.state, stop.rest, more - (|stop.state.flat| - |d.flat|))
  {
    hide *;
    var stop, whole := Decode(g, d, bits, room), Decode(g, d, bits, more);
    OutputIs(d);
    OutputIs(stop.state);
    NoBytes();
    assert bits + [] == bits && stop.rest + [] == stop.rest;
    DecodeContinues(g, d, bits, room, [], more);
    DecodeStops(g, d, bits, room);
    DecodeSettles(g, d, bits, room);
    var left := more - (|stop.state.flat| - |d.flat|);
    if stop.status.Done? || stop.status.Failed? {
      StaysSettled(g, stop, left);
    } else {
      WaitsFor(g, stop, room - (|stop.state.flat| - |d.flat|), left);
    }
  }

  lemma OutputIs(d: DecoderState)
    ensures Output(d) == d.flat
  {
  }

  /** The remaining run of the decoder has the outcome of the whole stream. */
  ghost predicate Underway(g: Given, bytes: seq<Byte>, limit: nat, d: DecoderState, rest: seq<bool>)
  {
    && Admissible(g.parser) && Sound(d) && Sound(Initial()) && |d.flat| <= limit && OnBoundary(d, |rest|)
    && Decode(g, Initial(), BitsOf(bytes), limit) == Decode(g, d, rest, limit - |d.flat|)
  }

  lemma UnderwayStart(g: Given, bytes: seq<Byte>, limit: nat)
    requires Admissible(g.parser)
    ensures Underway(g, bytes, limit, Initial(), BitsOf(bytes))
  {
    hide Decode, Admissible, BitsOf;
    InitialIsSound();
  }

  /** A call goes on with the run, and decides the outcome unless it stopped at the end of its buffer. */
  lemma CallDecides(g: Given, bytes: seq<Byte>, limit: nat, d: DecoderState, rest: seq<bool>, room: nat)
    requires Underway(g, bytes, limit, d, rest) && room <= limit - |d.flat|
    ensures Sound(d)
    ensures var stop := Decode(g, d, rest, room);
            && Underway(g, bytes, limit, stop.state, stop.rest) && |d.flat| <= |stop.state.flat|
            && (!stop.status.NeedOutput? ==> Decode(g, Initial(), BitsOf(bytes), limit) == stop)
            && (stop.status.NeedOutput? ==> |stop.state.flat| == |d.flat| + room)
            && (stop.status.NeedOutput? && |stop.state.flat| >= limit ==>
                Decode(g, Initial(), BitsOf(bytes), limit).status.NeedOutput?)
  {
    hide Decode, Admissible, Sound, BitsOf, OnBoundary;
    PartOfTheWay(g, d, rest, room, limit - |d.flat|);
    OutputIs(d);
    DecodeStops(g, d, rest, room);
  }

  /** Decompresses one stream. The result is that of the single run, whatever the buffer. */
  method Decompress(given: Given, bytes: seq<Byte>, limit: nat) returns (r: Result<seq<Byte>, PublicError>)
    requires Admissible(given.parser)
    ensures r == Outcome(given, bytes, limit)
  {
    hide Decode, Admissible, Sound, BitsOf, BitReader.Ahead, Underway, Decoder.Valid, OnBoundary;
    var decoder := new LimitedDecoder(given, limit);
    var offset: nat, output, finishing := 0, [], false;
    UnderwayStart(given, bytes, limit);
    AheadStart(decoder.core.reader, bytes);
    while true
      invariant decoder.Valid() && fresh(decoder.Repr()) && decoder.core.given == given && decoder.limit == limit &&
                decoder.error.None?
      invariant offset <= |bytes| && (finishing ==> offset == |bytes|)
      invariant output == decoder.core.View().flat && |output| <= limit
      invariant Underway(given, bytes, limit, decoder.core.View(), decoder.core.reader.Ahead(bytes, offset))
      decreases limit - |output|, if finishing then 0 else 1
    {
      ghost var d, rest := decoder.core.View(), decoder.core.reader.Ahead(bytes, offset);
      var input := if finishing then [] else bytes[offset..];
      AheadOf(decoder.core.reader, bytes, offset);
      CallDecides(given, bytes, limit, d, rest, Min(BUFFER_SIZE, limit - |d.flat|));
      var progress := decoder.Advance(input, BUFFER_SIZE, finishing);
      if progress.Err? {
        return Err(progress.error);
      }
      var consumed := progress.value.consumed;
      output := output + progress.value.output;
      AheadAfter(decoder.core.reader, bytes, offset, input, consumed);
      offset := offset + consumed;
      if progress.value.status.NeedInput? {
        finishing := true;
      } else if progress.value.status.Done? {
        var remaining := |bytes| - offset;
        if remaining != 0 {
          return Err(TrailingData(remaining));
        }
        return Ok(output);
      }
    }
  }

  lemma AheadStart(reader: BitReader, bytes: seq<Byte>)
    requires reader.Valid() && reader.Ahead([], 0) == []
    ensures reader.Ahead(bytes, 0) == BitsOf(bytes)
  {
    hide BitsOf;
    NoBytes();
    assert bytes[0..] == bytes;
  }

  /** The bytes from an offset on are as good as the offset. */
  lemma AheadOf(reader: BitReader, bytes: seq<Byte>, offset: nat)
    requires reader.Valid() && offset <= |bytes|
    ensures reader.Ahead(bytes[offset..], 0) == reader.Ahead(bytes, offset)
    ensures offset == |bytes| ==> reader.Ahead([], 0) == reader.Ahead(bytes, offset)
  {
    hide BitsOf;
    assert bytes[offset..][0..] == bytes[offset..];
  }

  lemma AheadAfter(reader: BitReader, bytes: seq<Byte>, offset: nat, input: seq<Byte>, consumed: nat)
    requires reader.Valid() && offset <= |bytes| && consumed <= |input|
    requires input == bytes[offset..] || (input == [] && offset == |bytes|)
    ensures offset + consumed <= |bytes| && reader.Ahead(input, consumed) == reader.Ahead(bytes, offset + consumed)
    ensures input[consumed..] == bytes[offset + consumed..]
  {
    hide BitsOf;
    assert bytes[|bytes|..] == [];
  }
}
