/** Streams at qualities 0 and 1 (`src/encode/fragment.rs`, `src/encode/stream.rs`): a fragment a window, each
    compressed by itself with the distances going on from one to the next, and the incremental encoder, whose output
    is the same however its input arrives and its output is taken. What a fragment is compressed to is a given
    function of its bytes, the distances before it and the place in the byte where it starts. */
module FragmentStream {
  import opened Arithmetic
  import opened Bytes
  import opened Distances
  import opened BitPacking
  import opened MetablockHeaders
  import G = GreedyStream

  /** What a fragment is compressed to, and the distances behind it. */
  type FragmentEmission = (seq<Byte>, Ring, nat) -> (seq<bool>, Ring)

  datatype Written = Written(bits: seq<bool>, ring: Ring)

  function WithFragment(emission: FragmentEmission, w: Written, fragment: seq<Byte>): Written
  {
    if fragment == [] then w
    else
      var (bits, ring) := emission(fragment, w.ring, |w.bits| % 8);
      Written(w.bits + bits, ring)
  }

  /** All of an input behind what has been written: full fragments and a last one. */
  function WithInput(emission: FragmentEmission, size: nat, w: Written, input: seq<Byte>): Written
    requires size > 0
    decreases |input|
  {
    if |input| <= size then WithFragment(emission, w, input)
    else WithInput(emission, size, WithFragment(emission, w, input[..size]), input[size..])
  }

  /** The whole stream: its fragments, an empty last metablock, and zeros up to a byte. */
  function StreamBits(emission: FragmentEmission, size: nat, header: seq<bool>, input: seq<Byte>): (r: seq<bool>)
    requires size > 0
    ensures |r| % 8 == 0
  {
    Aligned(WithInput(emission, size, Written(header, InitialRing()), input).bits + FinalEmpty())
  }

  /** Compresses one fragment. */
  method EmitFragment(writer: BitWriter, emission: FragmentEmission, ring: Ring, fragment: seq<Byte>)
    returns (after: Ring)
    requires writer.Valid()
    modifies writer
    ensures writer.Valid()
    ensures Written(writer.Bits(), after) == WithFragment(emission, Written(old(writer.Bits()), ring), fragment)
  {
    hide BitWriter.Bits, BitWriter.Valid;
    if fragment == [] {
      return ring;
    }
    OffsetIs(writer);
    var (bits, next) := emission(fragment, ring, writer.used % 8);
    var scratch := WriterOf(bits);
    writer.AppendWriter(scratch);
    after := next;
  }

  lemma OffsetIs(writer: BitWriter)
    ensures |writer.Bits()| % 8 == writer.used % 8
  {
    hide BitsOf;
  }

  /** The stream of an input in one call. */
  method CompressAtOnce(windowBits: nat, emission: FragmentEmission, input: seq<Byte>) returns (stream: seq<Byte>)
    requires 10 <= windowBits <= 24
    ensures BitsOf(stream) == StreamBits(emission, Pow2(windowBits), WindowHeader(windowBits), input)
  {
    hide WindowHeader, BitsOf, FinalEmpty, WithFragment, Padding, BitWriter.Bits, BitWriter.Valid, Pow2;
    var writer := new BitWriter();
    WriteWindowBits(writer, windowBits);
    NothingBefore(WindowHeader(windowBits));
    var size, start, ring := Pow2(windowBits), 0, InitialRing();
    assert input[0..] == input;
    ghost var whole := WithInput(emission, size, Written(WindowHeader(windowBits), InitialRing()), input);
    while start < |input|
      invariant fresh(writer) && writer.Valid() && start <= |input|
      invariant WithInput(emission, size, Written(writer.Bits(), ring), input[start..]) == whole
      decreases |input| - start
    {
      var end := Min(start + size, |input|);
      ghost var rest := input[start..];
      assert rest[..end - start] == input[start..end] && rest[end - start..] == input[end..];
      OneFragment(emission, size, Written(writer.Bits(), ring), rest);
      ring := EmitFragment(writer, emission, ring, input[start..end]);
      start := end;
    }
    assert input[|input|..] == [];
    NoFragment(emission, size, Written(writer.Bits(), ring));
    WriteFinalEmptyMetablock(writer);
    stream := Closed(writer);
  }

  lemma NothingBefore(header: seq<bool>)
    ensures [] + header == header
  {
  }

  lemma OneFragment(emission: FragmentEmission, size: nat, w: Written, input: seq<Byte>)
    requires size > 0
    ensures var n := Min(size, |input|);
            WithInput(emission, size, w, input) ==
            WithInput(emission, size, WithFragment(emission, w, input[..n]), input[n..])
  {
    if |input| <= size {
      assert input[..|input|] == input && input[|input|..] == [];
    }
  }

  lemma NoFragment(emission: FragmentEmission, size: nat, w: Written)
    requires size > 0
    ensures WithInput(emission, size, w, []) == w
  {
  }

  /** The bytes of a writer that is done. */
  method Closed(writer: BitWriter) returns (stream: seq<Byte>)
    requires writer.Valid()
    modifies writer
    ensures BitsOf(stream) == Aligned(old(writer.Bits()))
  {
    hide BitsOf, Padding;
    writer.AlignToByte();
    stream := writer.bytes;
    BitPacking.NoWord(writer.pending);
    assert writer.Bits() == BitsOf(stream);
  }

  /** Whatever is still to come, the bytes left of what has been fed complete the stream behind what has been
      written. */
  ghost predicate Continues(emission: FragmentEmission, size: nat, header: seq<bool>, fed: seq<Byte>, w: Written,
                            window: seq<Byte>)
    requires size > 0
  {
    forall more :: WithInput(emission, size, w, window + more) ==
                   WithInput(emission, size, Written(header, InitialRing()), fed + more)
  }

  lemma ContinuesAtStart(emission: FragmentEmission, size: nat, header: seq<bool>)
    requires size > 0
    ensures Continues(emission, size, header, [], Written(header, InitialRing()), [])
  {
    hide WithInput;
  }

  lemma InputArrives(emission: FragmentEmission, size: nat, header: seq<bool>, fed: seq<Byte>, w: Written,
                     window: seq<Byte>, x: seq<Byte>)
    requires size > 0 && Continues(emission, size, header, fed, w, window)
    ensures Continues(emission, size, header, fed + x, w, window + x)
  {
    hide WithInput;
    forall more
      ensures WithInput(emission, size, w, window + x + more) ==
              WithInput(emission, size, Written(header, InitialRing()), fed + x + more)
    {
      assert window + x + more == window + (x + more) && fed + x + more == fed + (x + more);
    }
  }

  /** A window that holds more than a fragment loses its first fragment, whatever comes later. */
  lemma FragmentLeaves(emission: FragmentEmission, size: nat, header: seq<bool>, fed: seq<Byte>, w: Written,
                       window: seq<Byte>)
    requires 0 < size < |window| && Continues(emission, size, header, fed, w, window)
    ensures Continues(emission, size, header, fed, WithFragment(emission, w, window[..size]), window[size..])
  {
    hide WithFragment;
    forall more
      ensures WithInput(emission, size, WithFragment(emission, w, window[..size]), window[size..] + more) ==
              WithInput(emission, size, Written(header, InitialRing()), fed + more)
    {
      assert (window + more)[..size] == window[..size] && (window + more)[size..] == window[size..] + more;
    }
  }

  lemma LastFragment(emission: FragmentEmission, size: nat, header: seq<bool>, fed: seq<Byte>, w: Written,
                     window: seq<Byte>)
    requires 0 < size && |window| <= size && Continues(emission, size, header, fed, w, window)
    ensures WithInput(emission, size, Written(header, InitialRing()), fed) == WithFragment(emission, w, window)
  {
    hide WithFragment;
    assert window + [] == window && fed + [] == fed;
  }

  /** The incremental encoder of qualities 0 and 1. */
  class FragmentStreamEncoder {
    const writer: BitWriter
    const windowBits: nat
    const emission: FragmentEmission
    var ring: Ring
    var window: seq<Byte>
    var started: bool
    var finished: bool
    ghost var fed: seq<Byte>
    ghost var drained: seq<Byte>

    /** Everything written so far, taken or not. */
    ghost function Sent(): seq<bool>
      reads this`drained, writer
    {
      BitsOf(drained) + writer.Bits()
    }

    ghost function Whole(input: seq<Byte>): (r: seq<bool>)
      requires 10 <= windowBits <= 24
    {
      StreamBits(emission, Pow2(windowBits), WindowHeader(windowBits), input)
    }

    ghost predicate Valid()
      reads this, writer
    {
      && writer.Valid() && 10 <= windowBits <= 24
      && if finished then |writer.Bits()| % 8 == 0 && Sent() == Whole(fed) else Underway()
    }

    /** No more than a fragment is held back, and nothing is written before there is more. */
    ghost predicate Underway()
      requires 10 <= windowBits <= 24
      reads this, writer
    {
      && |window| <= Pow2(windowBits)
      && (!started ==> Sent() == [] && ring == InitialRing() && window == fed)
      && Continues(emission, Pow2(windowBits), WindowHeader(windowBits), fed, Written(Begun(), ring), window)
    }

    /** What has been written, or would have been. */
    ghost function Begun(): seq<bool>
      requires 10 <= windowBits <= 24
      reads this, writer
    {
      if started then Sent() else WindowHeader(windowBits)
    }

    constructor (wb: nat, em: FragmentEmission)
      requires 10 <= wb <= 24
      ensures Valid() && fresh(writer) && fed == [] && drained == [] && !finished && windowBits == wb && emission == em
    {
      writer := new BitWriter();
      windowBits, emission := wb, em;
      ring, window, started, finished := InitialRing(), [], false, false;
      fed, drained := [], [];
      new;
      hide BitWriter.Bits, BitsOf, WindowHeader, Pow2, Continues;
      NoBytes();
      ContinuesAtStart(em, Pow2(wb), WindowHeader(wb));
    }

    /** Takes all of the input, compressing a fragment whenever there is more than one. */
    method Process(input: seq<Byte>, room: nat) returns (consumed: nat, output: seq<Byte>, status: G.EncodeStatus)
      requires Valid()
      modifies this, writer
      ensures Valid() && drained == old(drained) + output && |output| <= room
      ensures old(finished) ==> consumed == 0 && fed == old(fed) && finished && status == G.Done
      ensures !old(finished) ==> consumed == |input| && fed == old(fed) + input && !finished && status != G.Done
    {
      hide Underway, WindowHeader, BitsOf, Pow2, StreamBits;
      if finished {
        output, status := Drain(room);
        return 0, output, G.Done;
      }
      var at := 0;
      assert old(fed) + input[..0] == old(fed);
      while at < |input|
        invariant at <= |input| && Valid() && !finished && fed == old(fed) + input[..at] && drained == old(drained)
        decreases |input| - at
      {
        WindowShort();
        var fill := Min(Pow2(windowBits) + 1 - |window|, |input| - at);
        assert fed + input[at..at + fill] == old(fed) + input[..at + fill];
        Take(input[at..at + fill]);
        at := at + fill;
      }
      assert input[..|input|] == input;
      output, status := Drain(room);
      consumed := |input|;
    }

    lemma WindowShort()
      requires Valid() && !finished
      ensures |window| <= Pow2(windowBits)
    {
      hide Continues, Pow2;
    }

    /** More input into the window; one byte more than a fragment makes the fragment go out. */
    method Take(more: seq<Byte>)
      requires Valid() && !finished && more != [] && |window| + |more| <= Pow2(windowBits) + 1
      modifies this, writer
      ensures Valid() && !finished && fed == old(fed) + more && drained == old(drained)
    {
      hide Continues, WindowHeader, BitsOf, Pow2, StreamBits, BitWriter.Bits, BitWriter.Valid, WithFragment;
      ghost var header, size := WindowHeader(windowBits), Pow2(windowBits);
      InputArrives(emission, size, header, fed, Written(Begun(), ring), window, more);
      window := window + more;
      fed := fed + more;
      if |window| > Pow2(windowBits) {
        FragmentLeaves(emission, size, header, fed, Written(Begun(), ring), window);
        Emit(Pow2(windowBits));
      }
    }

    /** The first bytes of the window go out as a fragment. */
    method Emit(n: nat)
      requires writer.Valid() && 10 <= windowBits <= 24 && 0 < n <= |window| && (!started ==> Sent() == [])
      modifies this`window, this`ring, this`started, writer
      ensures writer.Valid() && started && window == old(window)[n..]
      ensures Written(Sent(), ring) == WithFragment(emission, old(Written(Begun(), ring)), old(window)[..n])
    {
      hide WindowHeader, BitsOf, Pow2, BitWriter.Bits, BitWriter.Valid;
      ghost var front := BitsOf(drained);
      if !started {
        WriteWindowBits(writer, windowBits);
        started := true;
      }
      ghost var before := writer.Bits();
      assert Sent() == old(Begun());
      var fragment := window[..n];
      ring := EmitFragment(writer, emission, ring, fragment);
      window := window[n..];
      Behind(emission, front, before, old(ring), fragment);
    }

    /** Completed bytes go out, as many as fit. */
    method Drain(room: nat) returns (output: seq<Byte>, status: G.EncodeStatus)
      requires Valid()
      modifies this`drained, writer
      ensures Valid() && Sent() == old(Sent()) && drained == old(drained) + output
      ensures |output| == Min(room, |old(writer.Bits())| / 8) && |writer.Bits()| == |old(writer.Bits())| - 8 * |output|
      ensures status == if |writer.Bits()| >= 8 then G.NeedOutput else if finished then G.Done else G.NeedInput
    {
      hide Continues, WindowHeader, BitsOf, Pow2, StreamBits, BitWriter.Bits;
      output := writer.DrainBytes(room);
      G.DrainedOn(drained, output, writer.Bits());
      drained := drained + output;
      var queued := writer.QueuedBytes();
      status := if finished && queued == 0 then G.Done else if queued > 0 then G.NeedOutput else G.NeedInput;
    }

    /** Compresses what is left, ends the stream, and hands out completed bytes; a second call only hands out. */
    method Finish(room: nat) returns (output: seq<Byte>, status: G.EncodeStatus)
      requires Valid()
      modifies this, writer
      ensures Valid() && finished && fed == old(fed) && drained == old(drained) + output && |output| <= room
      ensures status == if |writer.Bits()| >= 8 then G.NeedOutput else G.Done
      ensures old(finished) && room > 0 && |old(writer.Bits())| > 0 ==> output != []
      ensures old(finished) ==> |writer.Bits()| <= |old(writer.Bits())| - 8 * |output|
      ensures status == G.Done ==> BitsOf(drained) == Whole(fed)
    {
      hide Underway, WindowHeader, BitsOf, Pow2, StreamBits;
      if !finished {
        Terminate();
      }
      output, status := Drain(room);
      if status == G.Done {
        assert writer.Bits() == [];
      }
    }

    /** Completes the stream. */
    method Terminate()
      requires Valid() && !finished
      modifies this, writer
      ensures Valid() && finished && fed == old(fed) && drained == old(drained)
    {
      hide Continues, WindowHeader, BitsOf, Pow2, WithInput, Padding, FinalEmpty, BitWriter.Bits;
      ghost var header, size := WindowHeader(windowBits), Pow2(windowBits);
      if !started {
        NothingSent();
        var stream := CompressAtOnce(windowBits, emission, window);
        writer.WriteBytes(stream);
        window := [];
      } else {
        LastFragment(emission, size, header, fed, Written(Sent(), ring), window);
        assert window[..|window|] == window;
        if window != [] {
          Emit(|window|);
        }
        ghost var front, bits := BitsOf(drained), writer.Bits();
        assert front + bits == WithFragment(emission, old(Written(Sent(), ring)), old(window)).bits;
        WriteFinalEmptyMetablock(writer);
        assert front + (bits + FinalEmpty()) == front + bits + FinalEmpty();
        G.AlignedBehind(front, writer.Bits());
        writer.AlignToByte();
      }
      finished := true;
    }

    /** What has been written is nothing, so the writer is on a byte boundary. */
    lemma NothingSent()
      requires writer.Valid() && Sent() == []
      ensures writer.used == 0 && writer.Bits() == [] && drained == []
    {
    }
  }

  /** Where a fragment starts in its byte does not depend on whole bytes before it. */
  lemma Behind(emission: FragmentEmission, front: seq<bool>, bits: seq<bool>, ring: Ring, fragment: seq<Byte>)
    requires |front| % 8 == 0
    ensures var w := WithFragment(emission, Written(bits, ring), fragment);
            WithFragment(emission, Written(front + bits, ring), fragment) == Written(front + w.bits, w.ring)
  {
    if fragment != [] {
      assert |front + bits| % 8 == |bits| % 8;
      var (more, _) := emission(fragment, ring, |bits| % 8);
      assert front + bits + more == front + (bits + more);
    }
  }

  /** However the input is cut up and whatever room there is for output, the incremental encoder gives the bytes of the
      stream that is made in one call. */
  method StreamingEqualsOneCall(windowBits: nat, emission: FragmentEmission, pieces: seq<(seq<Byte>, nat)>, room: nat)
    returns (streamed: seq<Byte>, whole: seq<Byte>)
    requires 10 <= windowBits <= 24 && room > 0
    ensures BitsOf(whole) == StreamBits(emission, Pow2(windowBits), WindowHeader(windowBits), G.Fed(pieces))
    ensures streamed == whole
  {
    hide WindowHeader, BitsOf, StreamBits, Pow2, FragmentStreamEncoder.Valid, BitWriter.Bits;
    streamed := EncodeInPieces(windowBits, emission, pieces, room);
    whole := CompressAtOnce(windowBits, emission, G.Fed(pieces));
    G.BitsDetermineBytes(streamed, whole);
  }

  /** Feeds an input in pieces, each with some room for output, and then takes the rest of the output. */
  method EncodeInPieces(windowBits: nat, emission: FragmentEmission, pieces: seq<(seq<Byte>, nat)>, room: nat)
    returns (output: seq<Byte>)
    requires 10 <= windowBits <= 24 && room > 0
    ensures BitsOf(output) == StreamBits(emission, Pow2(windowBits), WindowHeader(windowBits), G.Fed(pieces))
  {
    hide WindowHeader, BitsOf, StreamBits, Pow2, FragmentStreamEncoder.Valid, BitWriter.Bits;
    var encoder := new FragmentStreamEncoder(windowBits, emission);
    output := [];
    for i := 0 to |pieces|
      invariant encoder.Valid() && fresh(encoder) && fresh(encoder.writer) && !encoder.finished
      invariant encoder.windowBits == windowBits && encoder.emission == emission
      invariant encoder.fed == G.Fed(pieces[..i]) && encoder.drained == output
    {
      assert pieces[..i + 1][..i] == pieces[..i];
      var consumed, more, status := encoder.Process(pieces[i].0, pieces[i].1);
      output := output + more;
    }
    assert pieces[..|pieces|] == pieces;
    var rest, status := encoder.Finish(room);
    output := output + rest;
    while status != G.Done
      invariant encoder.Valid() && fresh(encoder) && fresh(encoder.writer) && encoder.finished
      invariant encoder.fed == G.Fed(pieces) && encoder.drained == output
      invariant status == G.Done || |encoder.writer.Bits()| >= 8
      invariant status == G.Done ==> BitsOf(output) == encoder.Whole(encoder.fed)
      decreases |encoder.writer.Bits()|, if status == G.Done then 0 else 1
    {
      rest, status := encoder.Finish(room);
      output := output + rest;
    }
  }
}
