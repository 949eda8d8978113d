/** Emission of fragments at qualities 0 and 1 (`src/encode/fragment.rs`): every copy gets its distance code from
    the ring, and each metablock is the smaller of the compressed and the stored form. */
module FragmentEmission {
  import opened Arithmetic
  import opened Bytes
  import opened MetablockHeaders
  import opened Dictionary
  import opened Distances
  import opened PrefixEncodings
  import opened CommandStream
  import opened CommandEmission
  import opened MetablockStart
  import opened FragmentParse

  /** A command with its distance code. */
  function Name(ring: Ring, c: FragmentCommand, maxDistance: nat): StreamCommand
  {
    if c.copyLen == 0 then StreamCommand(c.insertLen, 0, 0, 0, 0)
    else StreamCommand(c.insertLen, c.copyLen, c.copyLen, c.distance, ComputeCode(ring, c.distance, maxDistance))
  }

  /** The decoder updates its ring for every distance code but zero; so does the encoder. */
  function FragmentRingAfter(ring: Ring, c: FragmentCommand, maxDistance: nat): Ring
  {
    if c.copyLen == 0 || ComputeCode(ring, c.distance, maxDistance) == 0 then ring else ring.Pushed(c.distance)
  }

  function NamedCommands(ring: Ring, commands: seq<FragmentCommand>, maxDistance: nat): seq<StreamCommand>
    decreases |commands|
  {
    if commands == [] then []
    else [Name(ring, commands[0], maxDistance)] + NamedCommands(FragmentRingAfter(ring, commands[0], maxDistance),
                                                                commands[1..], maxDistance)
  }

  function FragmentRing(ring: Ring, commands: seq<FragmentCommand>, maxDistance: nat): Ring
    decreases |commands|
  {
    if commands == [] then ring else FragmentRing(FragmentRingAfter(ring, commands[0], maxDistance), commands[1..],
                                                  maxDistance)
  }

  /** The fragment fits the window, or the window exceeds the cap on distances. */
  predicate WindowCovers(window: nat, fragment: seq<Byte>)
  {
    |fragment| <= window + WINDOW_GAP || FRAGMENT_MAX_DISTANCE <= window
  }

  /** A copy within the fragment is one within reach, whatever came before the fragment. */
  lemma CopyWithinReach(words: Words, window: nat, before: seq<Byte>, fragment: seq<Byte>, p: nat, ring: Ring,
                        c: FragmentCommand, maxDistance: nat)
    requires WindowCovers(window, fragment) && c.copyLen > 0 && TrueCopy(fragment, p, c.distance, c.copyLen) &&
             InWindow(fragment, c.distance)
    ensures Reproduces(words, window, before, fragment, p, Name(ring, c, maxDistance))
    ensures Named(ring, c.distance, ComputeCode(ring, c.distance, maxDistance)) &&
            c.distance <= ReachAt(|before| + p, window)
  {
    hide Transform, ComputeCode;
    var whole := before + fragment;
    forall k | |before| + p <= k < |before| + p + c.copyLen
      ensures whole[k] == whole[k - c.distance]
    {
      assert fragment[k - |before|] == fragment[k - |before| - c.distance];
    }
    RingRoundTrip(ring, c.distance, maxDistance);
  }

  /** Tiling commands, with their codes, are executed to the block, and leave the encoder's ring. */
  lemma {:induction false} TilesExecute(words: Words, window: nat, before: seq<Byte>, fragment: seq<Byte>, at: nat,
                                        commands: seq<FragmentCommand>,
                                        end: nat, ring: Ring, maxDistance: nat)
    requires Tiles(fragment, at, commands, end) && WindowCovers(window, fragment)
    ensures Executes(words, window, before, fragment, at, NamedCommands(ring, commands, maxDistance), end, ring)
    ensures RingAtEnd(ring, |before| + at, NamedCommands(ring, commands, maxDistance), window) ==
            FragmentRing(ring, commands, maxDistance)
    decreases |commands|
  {
    hide TrueCopy, InWindow, Reproduces, Named, WindowCovers, ComputeCode, ReachAt;
    if commands != [] {
      var c := commands[0];
      var all := NamedCommands(ring, commands, maxDistance);
      var next := FragmentRingAfter(ring, c, maxDistance);
      assert all[0] == Name(ring, c, maxDistance) && all[1..] == NamedCommands(next, commands[1..], maxDistance);
      if c.copyLen > 0 {
        var p := at + c.insertLen;
        CopyWithinReach(words, window, before, fragment, p, ring, c, maxDistance);
        TilesExecute(words, window, before, fragment, p + c.copyLen, commands[1..], end, next, maxDistance);
        assert RingAfter(ring, all[0], ReachAt(|before| + p, window)) == next;
        assert |before| + at + c.insertLen + c.copyLen == |before| + (p + c.copyLen);
      } else {
        assert commands[1..] == [] && all[1..] == [];
      }
    }
  }

  lemma CapHasCode()
    ensures FRAGMENT_MAX_DISTANCE < TooFar(0, 0)
  {
    Pow2Of24();
    assert Pow2(2) == 4;
    hide Pow2;
    assert Times(0x100_0000 - 1, 4) == 4 * 0xff_ffff;
  }

  lemma {:induction false} TilesCoded(fragment: seq<Byte>, at: nat, commands: seq<FragmentCommand>, end: nat,
                                      ring: Ring, maxDistance: nat)
    requires Tiles(fragment, at, commands, end) && end - at <= MAX_META_BLOCK_SIZE
    ensures at <= end && DistancesCoded(NamedCommands(ring, commands, maxDistance), 0, 0)
    decreases |commands|
  {
    hide TrueCopy, ComputeCode, TooFar;
    CapHasCode();
    if commands != [] {
      var c := commands[0];
      var next := FragmentRingAfter(ring, c, maxDistance);
      var all := NamedCommands(ring, commands, maxDistance);
      assert all[1..] == NamedCommands(next, commands[1..], maxDistance);
      if c.copyLen > 0 {
        TilesWithin(fragment, at + c.insertLen + c.copyLen, commands[1..], end);
        TilesCoded(fragment, at + c.insertLen + c.copyLen, commands[1..], end, next, maxDistance);
      } else {
        assert commands[1..] == [];
      }
      forall i | 0 <= i < |all|
        ensures all[i].copyLen > 0 ==> 2 <= all[i].copyCode <= MAX_META_BLOCK_SIZE && all[i].distance < TooFar(0, 0)
      {
        if i > 0 {
          assert all[i] == all[1..][i - 1];
        }
      }
    }
  }

  lemma TilesWithin(fragment: seq<Byte>, at: nat, commands: seq<FragmentCommand>, end: nat)
    requires Tiles(fragment, at, commands, end)
    ensures at <= end && (commands != [] ==> at < end)
    decreases |commands|
  {
    if commands != [] && commands[0].copyLen > 0 {
      TilesWithin(fragment, at + commands[0].insertLen + commands[0].copyLen, commands[1..], end);
    }
  }

  /** Gives every copy its distance code, the ring going along. */
  method NameDistances(commands: seq<FragmentCommand>, ring: RecentDistances, maxDistance: nat)
    returns (named: seq<StreamCommand>)
    modifies ring
    ensures named == NamedCommands(old(ring.ring), commands, maxDistance) &&
            ring.ring == FragmentRing(old(ring.ring), commands, maxDistance)
  {
    hide ComputeCode;
    named := [];
    ghost var first := ring.ring;
    assert commands[0..] == commands && [] + NamedCommands(first, commands, maxDistance) ==
           NamedCommands(first, commands, maxDistance);
    for i := 0 to |commands|
      invariant named + NamedCommands(ring.ring, commands[i..], maxDistance) ==
                NamedCommands(first, commands, maxDistance)
      invariant FragmentRing(ring.ring, commands[i..], maxDistance) == FragmentRing(first, commands, maxDistance)
    {
      var c := commands[i];
      ghost var later, now := commands[i..], ring.ring;
      assert later[0] == c && later[1..] == commands[i + 1..];
      ghost var rest := NamedCommands(FragmentRingAfter(now, c, maxDistance), later[1..], maxDistance);
      assert named + ([Name(now, c, maxDistance)] + rest) == named + [Name(now, c, maxDistance)] + rest;
      named := named + [Name(ring.ring, c, maxDistance)];
      if c.copyLen != 0 && ComputeCode(ring.ring, c.distance, maxDistance) != 0 {
        ring.Push(c.distance);
      }
    }
    assert commands[|commands|..] == [] && named + [] == named;
  }

  /** A metablock conveys a block of a fragment: compressed, it decodes to the block in any window the
      fragment allows and whatever came before, with codes the decoder can make; stored, it is the block,
      and nobody's ring has changed. */
  ghost predicate Conveys(form: Emitted, fragment: seq<Byte>, start: nat, end: nat, ring: Ring, after: Ring)
  {
    match form
    case Compressed(codes, front, bits) =>
      && DecodableCodes(codes) && IsStart(codes, front)
      && forall words: Words, window: nat, before: seq<Byte> :: WindowCovers(window, fragment) ==>
           DecodesTo(words, window, before, codes, bits, fragment, start, end, ring, after)
    case Stored(bytes) => start <= end <= |fragment| && bytes == fragment[start..end] && after == ring
  }

  lemma CompressedConveys(codes: Codes, front: seq<bool>, fragment: seq<Byte>, start: nat, end: nat,
                          commands: seq<FragmentCommand>, ring: Ring, maxDistance: nat)
    requires start <= end <= |fragment| && Tiles(fragment, start, commands, end) && DecodableCodes(codes) &&
             IsStart(codes, front)
    requires Writable(codes, fragment, start, NamedCommands(ring, commands, maxDistance))
    ensures Conveys(Compressed(codes, front, BodyBits(codes, fragment, start,
                                                      NamedCommands(ring, commands, maxDistance))), fragment, start,
                                                        end,
                    ring, FragmentRing(ring, commands, maxDistance))
  {
    hide Tiles, WindowCovers, DecodesTo, NamedCommands, FragmentRing, Executes, RingAtEnd, Writable, BodyBits, IsStart,
         DecodableCodes;
    var named := NamedCommands(ring, commands, maxDistance);
    forall words: Words, window: nat, before: seq<Byte> | WindowCovers(window, fragment)
      ensures DecodesTo(words, window, before, codes, BodyBits(codes, fragment, start, named), fragment, start, end,
                        ring, FragmentRing(ring, commands, maxDistance))
    {
      TilesExecute(words, window, before, fragment, start, commands, end, ring, maxDistance);
      BodyDecodes(words, window, before, codes, fragment, start, end, named, ring);
    }
  }

  /** The commands' streams are countable: short enough, and within the alphabets. */
  lemma TilesCountable(fragment: seq<Byte>, start: nat, end: nat, commands: seq<FragmentCommand>, ring: Ring,
                       maxDistance: nat)
    requires start <= end <= |fragment| && Tiles(fragment, start, commands, end) && end - start <= MAX_META_BLOCK_SIZE
    ensures var named := NamedCommands(ring, commands, maxDistance);
            && Placed(fragment, start, named) && AllEmittable(named, 0, 0)
            && |LiteralsOf(fragment, start, named)| <= MAX_META_BLOCK_SIZE
            && |SymbolsOf(named, 0, 0)| <= MAX_META_BLOCK_SIZE && |DistancesOf(named, 0, 0)| <= MAX_META_BLOCK_SIZE
            && AllBelow(LiteralsOf(fragment, start, named), LITERAL_ALPHABET_SIZE)
            && AllBelow(SymbolsOf(named, 0, 0), COMMAND_ALPHABET_SIZE)
            && AllBelow(DistancesOf(named, 0, 0), AlphabetSize(0, 0))
  {
    hide Tiles, NamedCommands, Executes, AllEmittable, Placed, AllBelow, AlphabetSize, DistancesCoded;
    var blank: Words := (length: nat, index: nat) => seq(length, _ => 0);
    TilesExecute(blank, |fragment|, [], fragment, start, commands, end, ring, maxDistance);
    TilesCoded(fragment, start, commands, end, ring, maxDistance);
    ExecutesPlaced(blank, |fragment|, [], fragment, start, NamedCommands(ring, commands, maxDistance), end, ring, 0, 0);
  }

  /** Emits one metablock: the compressed form if it is smaller than the stored one; otherwise the ring
      goes back to where it was. */
  method EmitFragmentMetablock(fragment: seq<Byte>, start: nat, end: nat, commands: seq<FragmentCommand>,
                               ring: RecentDistances, maxDistance: nat)
    returns (form: Emitted)
    requires start < end <= |fragment| && Tiles(fragment, start, commands, end) && end - start <= MAX_META_BLOCK_SIZE
    modifies ring
    ensures Conveys(form, fragment, start, end, old(ring.ring), ring.ring)
    ensures form.Compressed? ==> |CompressedForm(form.start, form.bits, end - start, false)| < StoredBits(end - start)
    ensures form.Compressed? ==> ring.ring == FragmentRing(old(ring.ring), commands, maxDistance)
    ensures BetterForm(form, fragment, start, end, NamedCommands(old(ring.ring), commands, maxDistance), 0, 0, false)
  {
    hide BetterForm, CodesMade;
    hide Tiles, NamedCommands, FragmentRing, AllEmittable, Placed, AllBelow, AlphabetSize, Counts, SuitsStreams,
         Writable, BodyBits, StoredBits,
         WindowCovers, DecodesTo, LiteralsOf, SymbolsOf, DistancesOf, Sized, StreamsBelow, EncodesAll,
           Encodings.Lengths, DecodableCodes, IsStart, CompressedForm;
    var snapshot := ring.ring;
    TilesCountable(fragment, start, end, commands, snapshot, maxDistance);
    var named := NameDistances(commands, ring, maxDistance);
    var t := FreshTables(0, 0);
    var encoded := CountCommands(fragment, start, named, 0, 0, t);
    ghost var st := StreamsOf(fragment, start, named, 0, 0);
    PlainStreams(t, st);
    var e := MakeCodes(t, st, 0, 0);
    CodesWrite(e, t, fragment, start, named);
    var bits := WriteCommands(e, Streams(t.literals[..], t.symbols[..], t.distances[..]), fragment, start, named,
                              encoded);
    var front := WriteStart(e, Streams(t.literals[..], t.symbols[..], t.distances[..]));
    SingleTreeIsBetter(e, front, fragment, start, end, named, false);
    if |CompressedForm(front, bits, end - start, false)| < StoredBits(end - start) {
      CompressedConveys(e.Lengths(), front, fragment, start, end, commands, snapshot, maxDistance);
      form := Compressed(e.Lengths(), front, bits);
    } else {
      ring.ring := snapshot;
      form := Stored(fragment[start..end]);
    }
  }

  lemma PlainStreams(t: Counters, st: Streams)
    requires Sized(t, 0, 0) && |st.literals| <= MAX_META_BLOCK_SIZE && |st.symbols| <= MAX_META_BLOCK_SIZE &&
             |st.distances| <= MAX_META_BLOCK_SIZE
    requires AllBelow(st.literals, LITERAL_ALPHABET_SIZE) && AllBelow(st.symbols, COMMAND_ALPHABET_SIZE) &&
             AllBelow(st.distances, AlphabetSize(0, 0))
    ensures StreamsBelow(t, st) && AlphabetSize(0, 0) <= MAX_ALPHABET
  {
    assert AlphabetSize(0, 0) == 64;
  }

  /** What the codes are good for. */
  lemma CodesWrite(e: Encodings, t: Counters, fragment: seq<Byte>, start: nat, named: seq<StreamCommand>)
    requires Placed(fragment, start, named) && AllEmittable(named, e.direct, e.postfix)
    requires SuitsStreams(e, t, StreamsOf(fragment, start, named, e.direct, e.postfix))
    requires Sized(t, e.direct, e.postfix) && e.direct == e.postfix == 0
    ensures Writable(e.Lengths(), fragment, start, named) && DecodableCodes(e.Lengths())
    ensures EncodesAll(e, Streams(t.literals[..], t.symbols[..], t.distances[..]))
  {
    hide Encodes, LengthsOf, Decodable, Writable, Placed, AllEmittable, AllHaveCodes, StreamsOf, DecodableCodes, Sized;
    AllWritable(e, t, fragment, start, named);
    CodesAreDecodable(e, t, StreamsOf(fragment, start, named, e.direct, e.postfix));
  }
}
