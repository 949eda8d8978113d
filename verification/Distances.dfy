/** Distance codes (section 4 of RFC 7932): the encoder's choice of code and extra bits
    (`src/encode/distance.rs`) and the decoder's reading of them (`src/decode/distance.rs`). */
module Distances {
  import opened Arithmetic
  import opened Outcomes

  const SHORT_CODE_COUNT: nat := 16
  const POSTFIX_CODE_COUNT: nat := 48
  const MAX_DISTANCE_BITS: nat := 24
  const LAST_DISTANCE_CODES: seq<nat> := [8, 6, 4, 0, 5, 7, 9]
  const SECOND_LAST_DISTANCE_CODES: seq<nat> := [14, 12, 10, 1, 11, 13, 15]

  /** The last four distances, newest first. */
  datatype Ring = Ring(last: nat, second: nat, third: nat, fourth: nat) {
    function Pushed(distance: nat): Ring {
      Ring(distance, last, second, third)
    }

    /** How far the farthest remembered distance reaches. */
    predicate UpTo(limit: nat) {
      last <= limit && second <= limit && third <= limit && fourth <= limit
    }

    predicate Positive() {
      last > 0 && second > 0 && third > 0 && fourth > 0
    }
  }

  function InitialRing(): Ring
  {
    Ring(4, 11, 15, 16)
  }

  /** The ring both sides keep while they work. */
  class RecentDistances {
    var ring: Ring

    constructor ()
      ensures ring == InitialRing()
    {
      ring := InitialRing();
    }

    method Push(distance: nat)
      modifies this
      ensures ring == old(ring).Pushed(distance)
    {
      ring := Ring(distance, ring.last, ring.second, ring.third);
    }

    /** Back to a snapshot. */
    method Restore(snapshot: Ring)
      modifies this
      ensures ring == snapshot
    {
      ring := snapshot;
    }
  }

  /** Where in a table of seven a distance lies around a remembered one. */
  function ShortOffset(distance: nat, cached: nat): Option<nat>
  {
    if cached <= distance + 3 < cached + 7 then Some(distance + 3 - cached) else None
  }

  /** The encoder's code: a ring code if the distance is near a remembered one, in order of preference. */
  function ComputeCode(ring: Ring, distance: nat, maxDistance: nat): (code: nat)
  {
    if distance > maxDistance then distance + SHORT_CODE_COUNT - 1
    else if distance == ring.last then 0
    else if distance == ring.second then 1
    else if ShortOffset(distance, ring.last).Some? then LAST_DISTANCE_CODES[ShortOffset(distance, ring.last).value]
    else if ShortOffset(distance, ring.second).Some? then SECOND_LAST_DISTANCE_CODES[ShortOffset(distance,
        ring.second).value]
    else if distance == ring.third then 2
    else if distance == ring.fourth then 3
    else distance + SHORT_CODE_COUNT - 1
  }

  /** Which remembered distance a ring code starts from. */
  function Remembered(ring: Ring, symbol: nat): nat
  {
    if symbol == 0 || 4 <= symbol <= 9 then ring.last
    else if symbol == 1 || symbol >= 10 then ring.second
    else if symbol == 2 then ring.third else ring.fourth
  }

  /** And how far it goes from there. */
  function Delta(symbol: nat): int
  {
    match symbol
    case 4 => -1 case 5 => 1 case 6 => -2 case 7 => 2 case 8 => -3 case 9 => 3
    case 10 => -1 case 11 => 1 case 12 => -2 case 13 => 2 case 14 => -3 case 15 => 3
    case _ => 0
  }

  datatype DistanceError = InvalidSymbol | InvalidShortDistance

  function ResolveShort(ring: Ring, symbol: nat): Result<nat, DistanceError>
    requires symbol < SHORT_CODE_COUNT
  {
    var distance := Remembered(ring, symbol) + Delta(symbol);
    if distance > 0 then Ok(distance) else Err(InvalidShortDistance)
  }

  datatype DistanceCode = DistanceCode(symbol: nat, extra: nat, extraBits: nat)

  function AlphabetSize(direct: nat, postfixBits: nat): nat
  {
    SHORT_CODE_COUNT + direct + Times(POSTFIX_CODE_COUNT, Pow2(postfixBits))
  }

  /** Position of the highest set bit. */
  function Log2Floor(v: nat): (b: nat)
    requires v > 0
    ensures Pow2(b) <= v < Pow2(b + 1)
  {
    if v == 1 then 0 else 1 + Log2Floor(v / 2)
  }

  /** Direct codes name small distances; the others bucket, prefix, postfix and extra bits. */
  function ForCode(code: nat, direct: nat, postfixBits: nat): DistanceCode
  {
    if code < SHORT_CODE_COUNT + direct then
      DistanceCode(code, 0, 0)
    else
      var dist := Pow2(postfixBits + 2) + (code - SHORT_CODE_COUNT - direct);
      Bucketed(dist, direct, postfixBits)
  }

  /** The bucket of a distance: one bit less than the position of its highest bit. */
  function Bucket(dist: nat, postfixBits: nat): (b: nat)
    requires dist >= Pow2(postfixBits + 2)
    ensures b > postfixBits && 2 * Pow2(b) <= dist < 4 * Pow2(b)
  {
    var n := Log2Floor(dist);
    HighBit(dist, postfixBits, n);
    n - 1
  }

  lemma HighBit(dist: nat, postfixBits: nat, n: nat)
    requires Pow2(postfixBits + 2) <= dist && Pow2(n) <= dist < Pow2(n + 1)
    ensures n >= postfixBits + 2 && 2 * Pow2(n - 1) <= dist < 4 * Pow2(n - 1)
  {
    if n < postfixBits + 2 {
      Pow2Monotone(n + 1, postfixBits + 2);
      assert false;
    }
    assert Pow2(n) == 2 * Pow2(n - 1);
  }

  /** The bit below the highest. */
  function Prefix(dist: nat, postfixBits: nat): (x: nat)
    requires dist >= Pow2(postfixBits + 2)
    ensures x <= 1 && Times(2 + x, Pow2(Bucket(dist, postfixBits))) <= dist < Times(3 + x,
            Pow2(Bucket(dist, postfixBits)))
  {
    var b := Pow2(Bucket(dist, postfixBits));
    TopTwo(dist, b);
    Quotient(dist, b) % 2
  }

  lemma TopTwo(dist: nat, b: nat)
    requires 2 * b <= dist < 4 * b
    ensures b > 0 && Quotient(dist, b) % 2 == (if dist < 3 * b then 0 else 1)
    ensures Times(2, b) == 2 * b && Times(3, b) == 3 * b && Times(4, b) == 4 * b
  {
    if dist < 3 * b {
      DivUnique(dist, b, 2, dist - 2 * b);
    } else {
      DivUnique(dist, b, 3, dist - 3 * b);
    }
  }

  function Bucketed(dist: nat, direct: nat, postfixBits: nat): DistanceCode
    requires dist >= Pow2(postfixBits + 2)
  {
    var bucket, prefix := Bucket(dist, postfixBits), Prefix(dist, postfixBits);
    var extraBits := bucket - postfixBits;
    DistanceCode(SHORT_CODE_COUNT + direct + Times(2 * (extraBits - 1) + prefix, Pow2(postfixBits)) +
                 Remainder(dist, Pow2(postfixBits)),
                 Quotient(dist - Times(2 + prefix, Pow2(bucket)), Pow2(postfixBits)), extraBits)
  }

  function ExtraBitsOf(symbol: nat, direct: nat, postfixBits: nat): (n: nat)
    requires symbol >= SHORT_CODE_COUNT + direct
    ensures n > 0
  {
    1 + Quotient(symbol - direct - SHORT_CODE_COUNT, Pow2(postfixBits + 1))
  }

  /** The distance of a code with extra bits, as the decoder computes it. */
  function FromExtra(symbol: nat, extra: nat, direct: nat, postfixBits: nat): (distance: nat)
    requires symbol >= SHORT_CODE_COUNT + direct
    ensures distance > direct
  {
    var code := symbol - direct - SHORT_CODE_COUNT;
    var hcode := Quotient(code, Pow2(postfixBits));
    var lcode := Remainder(code, Pow2(postfixBits));
    var offset := Offset(hcode % 2, ExtraBitsOf(symbol, direct, postfixBits));
    Times(offset + extra, Pow2(postfixBits)) + lcode + direct + 1
  }

  /** Where a bucket starts, counted from the first distance that has extra bits. */
  function Offset(x: nat, bits: nat): nat
    requires bits > 0
  {
    OffsetPositive(x, bits);
    Times(2 + x, Pow2(bits)) - 4
  }

  lemma OffsetPositive(x: nat, bits: nat)
    requires bits > 0
    ensures Times(2 + x, Pow2(bits)) >= 4
  {
    assert Pow2(bits) == 2 * Pow2(bits - 1);
    MulMonotone(2 + x, 2, Pow2(bits));
  }

  /** Prefix, extra bits and postfix make up the distance. */
  lemma Composition(dist: nat, x: nat, two: nat, q: nat)
    requires q > 0 && Times(2 + x, Times(two, q)) <= dist < Times(3 + x, Times(two, q))
    ensures var e := Quotient(dist - Times(2 + x, Times(two, q)), q);
            e < two && dist == Times(Times(2 + x, two) + e, q) + Remainder(dist, q)
  {
    var r: nat := dist - Times(2 + x, Times(two, q));
    TimesSum(2 + x, 1, Times(two, q));
    assert Times(1, Times(two, q)) == Times(two, q);
    QuotientBelow(r, two, q);
    TimesAssociates(2 + x, two, q);
    hide Times, Quotient, Remainder;
    Recombine(r, q);
    TimesSum(Times(2 + x, two), Quotient(r, q), q);
    QuotientOf(Times(2 + x, two) + Quotient(r, q), Remainder(r, q), q);
  }

  /** The decoder takes the symbol apart again. */
  lemma Decomposition(h: nat, post: nat, q: nat)
    requires post < q
    ensures Quotient(Times(h, q) + post, q) == h && Remainder(Times(h, q) + post, q) == post
    ensures Quotient(Times(h, q) + post, 2 * q) == h / 2
  {
    hide Times, Quotient, Remainder;
    QuotientOf(h, post, q);
    QuotientHalf(Times(h, q) + post, q);
  }

  /** Bucketing and the decoder's formula are inverse. */
  lemma BucketRoundTrip(dist: nat, direct: nat, postfixBits: nat)
    requires dist >= Pow2(postfixBits + 2)
    ensures var c := Bucketed(dist, direct, postfixBits);
            && c.symbol >= SHORT_CODE_COUNT + direct && c.extraBits == ExtraBitsOf(c.symbol, direct, postfixBits)
            && c.extra < Pow2(c.extraBits)
            && FromExtra(c.symbol, c.extra, direct, postfixBits) == dist - Pow2(postfixBits + 2) + direct + 1
  {
    var b, x := Bucket(dist, postfixBits), Prefix(dist, postfixBits);
    var n, q := b - postfixBits, Pow2(postfixBits);
    var two := Pow2(n);
    Pow2Add(n, postfixBits);
    assert Pow2(b) == Times(two, q);
    assert Pow2(postfixBits + 1) == 2 * q && Pow2(postfixBits + 2) == 4 * q;
    hide Pow2, Bucket, Prefix, Times, Quotient, Remainder;
    Composition(dist, x, two, q);
    var e, post := Quotient(dist - Times(2 + x, Pow2(b)), q), Remainder(dist, q);
    var h := 2 * (n - 1) + x;
    Decomposition(h, post, q);
    var c := Bucketed(dist, direct, postfixBits);
    assert c.symbol - direct - SHORT_CODE_COUNT == Times(h, q) + post;
    assert ExtraBitsOf(c.symbol, direct, postfixBits) == n;
    OffsetPositive(x, n);
    TimesSum(Offset(x, n) + e, 4, q);
    assert Times(4, q) == 4 * q by {
      FourTimes(q);
    }
  }

  lemma FourTimes(q: nat)
    ensures Times(4, q) == 4 * q
  {
  }

  /** The first distance too far for 24 extra bits. */
  function TooFar(direct: nat, postfixBits: nat): nat
  {
    direct + 1 + Times(Pow2(MAX_DISTANCE_BITS) - 1, Pow2(postfixBits + 2))
  }

  /** A symbol of the alphabet is enough for exactly the distances that are not too far. */
  lemma AlphabetCovers(distance: nat, direct: nat, postfixBits: nat)
    requires distance > 0
    ensures ForCode(distance + SHORT_CODE_COUNT - 1, direct, postfixBits).symbol < AlphabetSize(direct,
            postfixBits) <==>
            distance < TooFar(direct, postfixBits)
  {
    var code := distance + SHORT_CODE_COUNT - 1;
    hide Times, Pow2, Bucketed;
    FarthestIsPower(postfixBits);
    if code >= SHORT_CODE_COUNT + direct {
      BucketedInAlphabet(Pow2(postfixBits + 2) + (distance - 1 - direct), direct, postfixBits);
    } else {
      assert Times(POSTFIX_CODE_COUNT, Pow2(postfixBits)) > 0 by {
        SymbolInAlphabet(0, 0, Pow2(postfixBits));
        NoTimes(Pow2(postfixBits));
      }
    }
  }

  lemma NoTimes(p: nat)
    ensures Times(0, p) == 0
  {
  }

  lemma BucketedInAlphabet(dist: nat, direct: nat, postfixBits: nat)
    requires dist >= Pow2(postfixBits + 2)
    ensures Bucketed(dist, direct, postfixBits).symbol < AlphabetSize(direct, postfixBits) <==>
            dist < Pow2(MAX_DISTANCE_BITS + postfixBits + 2)
  {
    hide Times, Pow2, Bucket, Prefix, Quotient, Remainder;
    var p := Pow2(postfixBits);
    var b, x := Bucket(dist, postfixBits), Prefix(dist, postfixBits);
    var h: nat := 2 * (b - postfixBits - 1) + x;
    assert Bucketed(dist, direct, postfixBits).symbol == SHORT_CODE_COUNT + direct + Times(h, p) + Remainder(dist, p);
    assert AlphabetSize(direct, postfixBits) == SHORT_CODE_COUNT + direct + Times(POSTFIX_CODE_COUNT, p);
    hide Bucketed, AlphabetSize;
    SymbolInAlphabet(h, Remainder(dist, p), p);
    BucketInRange(dist, b, postfixBits);
    LastBucket(b, postfixBits, x);
  }

  lemma LastBucket(b: nat, postfixBits: nat, x: nat)
    requires b > postfixBits && x <= 1
    ensures 2 * (b - postfixBits - 1) + x < POSTFIX_CODE_COUNT <==> b - postfixBits <= MAX_DISTANCE_BITS
  {
  }

  lemma SymbolInAlphabet(h: nat, post: nat, p: nat)
    requires post < p
    ensures Times(h, p) + post < Times(POSTFIX_CODE_COUNT, p) <==> h < POSTFIX_CODE_COUNT
  {
    if h < POSTFIX_CODE_COUNT {
      MulMonotone(p, h + 1, POSTFIX_CODE_COUNT);
    } else {
      MulMonotone(p, POSTFIX_CODE_COUNT, h);
    }
  }

  lemma BucketInRange(dist: nat, b: nat, postfixBits: nat)
    requires 2 * Pow2(b) <= dist < 4 * Pow2(b)
    ensures b - postfixBits <= MAX_DISTANCE_BITS <==> dist < Pow2(MAX_DISTANCE_BITS + postfixBits + 2)
  {
    var cap := MAX_DISTANCE_BITS + postfixBits;
    if b <= cap {
      Pow2Monotone(b, cap);
    } else {
      Pow2Monotone(cap + 1, b);
    }
    assert Pow2(cap + 2) == 4 * Pow2(cap) == 2 * Pow2(cap + 1);
  }

  lemma FarthestIsPower(postfixBits: nat)
    ensures Times(Pow2(MAX_DISTANCE_BITS) - 1, Pow2(postfixBits + 2)) + Pow2(postfixBits + 2) ==
            Pow2(MAX_DISTANCE_BITS + postfixBits + 2)
  {
    var q, r := Pow2(postfixBits + 2), Pow2(MAX_DISTANCE_BITS);
    Pow2Add(MAX_DISTANCE_BITS, postfixBits + 2);
    hide Pow2;
    OneLess(r, q);
  }

  lemma OneLess(r: nat, q: nat)
    requires r > 0
    ensures Times(r - 1, q) + q == r * q
  {
  }

  datatype Distance = Distance(value: nat, shouldPush: bool)

  /** What the decoder makes of a symbol and its extra bits. */
  function Decoded(ring: Ring, symbol: nat, extra: nat, direct: nat, postfixBits: nat): Result<Distance, DistanceError>
  {
    if symbol >= AlphabetSize(direct, postfixBits) then Err(InvalidSymbol)
    else if symbol < SHORT_CODE_COUNT then
      match ResolveShort(ring, symbol)
      case Ok(d) => Ok(Distance(d, symbol != 0))
      case Err(e) => Err(e)
    else if symbol < SHORT_CODE_COUNT + direct then Ok(Distance(symbol - SHORT_CODE_COUNT + 1, true))
    else Ok(Distance(FromExtra(symbol, extra, direct, postfixBits), true))
  }

  /** How many extra bits the decoder reads for a symbol. */
  function ExtraBitsRead(symbol: nat, direct: nat, postfixBits: nat): nat
  {
    if symbol < SHORT_CODE_COUNT + direct then 0 else ExtraBitsOf(symbol, direct, postfixBits)
  }

  /** A ring code names the distance it was chosen for. */
  lemma RingRoundTrip(ring: Ring, distance: nat, maxDistance: nat)
    requires distance > 0
    ensures var code := ComputeCode(ring, distance, maxDistance);
            if code < SHORT_CODE_COUNT then ResolveShort(ring, code) == Ok(distance)
                else code == distance + SHORT_CODE_COUNT - 1
  {
  }

  /** A code that stands for a distance: a ring code that resolves to it, or the distance itself. */
  predicate Named(ring: Ring, distance: nat, code: nat)
  {
    if code < SHORT_CODE_COUNT then ResolveShort(ring, code) == Ok(distance)
        else code == distance + SHORT_CODE_COUNT - 1
  }

  /** Whatever the direct codes and postfix bits, the decoder's distance is the one the code stands for,
      and it pushes exactly when the code is not zero. */
  lemma NamedRoundTrip(ring: Ring, distance: nat, code: nat, direct: nat, postfixBits: nat)
    requires 0 < distance < TooFar(direct, postfixBits) && Named(ring, distance, code)
    ensures var c := ForCode(code, direct, postfixBits);
            && c.extraBits == ExtraBitsRead(c.symbol, direct, postfixBits) && c.extra < Pow2(c.extraBits)
            && Decoded(ring, c.symbol, c.extra, direct, postfixBits) == Ok(Distance(distance, code != 0))
  {
    hide Pow2, Bucketed, FromExtra, ExtraBitsOf, Times, TooFar;
    AlphabetCovers(distance, direct, postfixBits);
    if code >= SHORT_CODE_COUNT + direct {
      var dist := Pow2(postfixBits + 2) + (code - SHORT_CODE_COUNT - direct);
      BucketRoundTrip(dist, direct, postfixBits);
    } else {
      NoExtraBits();
      assert Times(POSTFIX_CODE_COUNT, Pow2(postfixBits)) >= 0;
    }
  }

  lemma NoExtraBits()
    ensures Pow2(0) == 1
  {
  }

  /** So for the code the encoder chooses. */
  lemma DistanceRoundTrip(ring: Ring, distance: nat, maxDistance: nat, direct: nat, postfixBits: nat)
    requires 0 < distance < TooFar(direct, postfixBits)
    ensures var code := ComputeCode(ring, distance, maxDistance);
            var c := ForCode(code, direct, postfixBits);
            && Named(ring, distance, code)
            && c.extraBits == ExtraBitsRead(c.symbol, direct, postfixBits) && c.extra < Pow2(c.extraBits)
            && Decoded(ring, c.symbol, c.extra, direct, postfixBits) == Ok(Distance(distance, code != 0))
  {
    var code := ComputeCode(ring, distance, maxDistance);
    RingRoundTrip(ring, distance, maxDistance);
    hide ComputeCode, TooFar, ForCode, ExtraBitsRead, Decoded, Pow2;
    NamedRoundTrip(ring, distance, code, direct, postfixBits);
  }

  /** Distances without extra bits are near: a direct code's is small, and a ring code's is at most
      three past the farthest distance remembered. */
  lemma NearWithoutExtraBits(ring: Ring, symbol: nat, direct: nat, postfixBits: nat, limit: nat)
    requires Decoded(ring, symbol, 0, direct, postfixBits).Ok? && ExtraBitsRead(symbol, direct, postfixBits) == 0
    requires ring.UpTo(limit)
    ensures Decoded(ring, symbol, 0, direct, postfixBits).value.value <= (if limit + 3 < direct then direct
                                                                          else limit + 3)
  {
  }
}
