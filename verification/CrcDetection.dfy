/** What the check field detects, over frames of any length. Bits are taken in
    transmission order: bytes in wire order, least significant bit first. */
module CrcDetection {
  import opened Gf2
  import opened Crc

  function ByteMask(k: nat): bv8
    requires k < 8
  {
    match k
    case 0 => 0x01 case 1 => 0x02 case 2 => 0x04 case 3 => 0x08
    case 4 => 0x10 case 5 => 0x20 case 6 => 0x40 case _ => 0x80
  }

  /** The n lowest bits of b, lowest first. */
  function LowBits(b: bv8, n: nat): (bits: Bits)
    requires n <= 8
    ensures |bits| == n
  {
    if n == 0 then [] else LowBits(b, n - 1) + [b & ByteMask(n - 1) != 0]
  }

  function ByteBits(b: bv8): (bits: Bits)
    ensures |bits| == 8
  {
    LowBits(b, 8)
  }

  lemma {:induction false} LowBitAt(b: bv8, n: nat, k: nat)
    requires k < n <= 8
    ensures LowBits(b, n)[k] == (b & ByteMask(k) != 0)
  {
    if k < n - 1 {
      LowBitAt(b, n - 1, k);
    }
  }

  /** Two bytes whose bits differ exactly at j and k. */
  ghost predicate DifferAt(a: bv8, b: bv8, j: nat, k: nat) {
    forall r :: 0 <= r < 8 ==> (ByteBits(a)[r] != ByteBits(b)[r] <==> r == j || r == k)
  }

  function FrameBits(f: Bytes): (bits: Bits)
    ensures |bits| == 8 * |f|
    decreases |f|
  {
    if |f| == 0 then [] else FrameBits(f[..|f| - 1]) + ByteBits(f[|f| - 1])
  }

  lemma {:induction false} FrameBitsAt(f: Bytes, i: nat, k: nat)
    requires i < |f| && k < 8
    ensures FrameBits(f)[8 * i + k] == ByteBits(f[i])[k]
    decreases |f|
  {
    if i < |f| - 1 {
      FrameBitsAt(f[..|f| - 1], i, k);
      assert FrameBits(f)[8 * i + k] == FrameBits(f[..|f| - 1])[8 * i + k];
    }
  }

  /* ---------- The message polynomial ---------- */

  /** start * x^n + x^16 * (the n bits as coefficients, first bit highest). */
  function Fed(start: Poly, bits: Bits): Poly
    decreases |bits|
  {
    if |bits| == 0 then start
    else Add(MulX(Fed(start, bits[..|bits| - 1])), Scaled(bits[|bits| - 1], {16}))
  }

  lemma {:induction false} FedMember(start: Poly, bits: Bits, e: nat)
    ensures e in Fed(start, bits)
       <==> (e >= |bits| && e - |bits| in start) != (16 <= e < 16 + |bits| && bits[|bits| - 1 - (e - 16)])
    decreases |bits|
  {
    if |bits| > 0 {
      var init := bits[..|bits| - 1];
      assert e in Fed(start, bits) <==> (e >= 1 && e - 1 in Fed(start, init)) != (e == 16 && bits[|bits| - 1]);
      if e > 0 {
        FedMember(start, init, e - 1);
      }
    }
  }

  lemma {:induction false} FedConcat(start: Poly, a: Bits, b: Bits)
    ensures Fed(start, a + b) == Fed(Fed(start, a), b)
    decreases |b|
  {
    if |b| == 0 {
      assert a + b == a;
    } else {
      assert (a + b)[..|a + b| - 1] == a + b[..|b| - 1];
      FedConcat(start, a, b[..|b| - 1]);
    }
  }

  lemma {:induction false} ByteCoefficient(b: bv8, e: nat)
    requires e < 16
    ensures Coefficient(b as bv16, e) <==> e >= 8 && ByteBits(b)[15 - e]
  {
    if e >= 8 {
      LowBitAt(b, 8, 15 - e);
    }
  }

  lemma {:induction false} BytePoly(b: bv8, e: nat)
    ensures e in RegPoly(b as bv16) <==> 8 <= e < 16 && ByteBits(b)[15 - e]
  {
    if e < 16 {
      ByteCoefficient(b, e);
    }
  }

  /** Feeding eight bits is adding them at x^15 down to x^8 and shifting eight places. */
  lemma {:induction false} FedEight(start: Poly, bits: Bits, word: Poly)
    requires |bits| == 8
    requires forall e: nat {:trigger e in word} :: e in word <==> 8 <= e < 16 && bits[15 - e]
    ensures Fed(start, bits) == MulXn(Add(start, word), 8)
  {
    forall e: nat
      ensures e in Fed(start, bits) <==> e in MulXn(Add(start, word), 8)
    {
      FedMember(start, bits, e);
      MulXnMember(Add(start, word), 8, e);
    }
  }

  lemma {:induction false} ByteWord(b: bv8)
    ensures forall e: nat {:trigger e in RegPoly(b as bv16)} ::
              e in RegPoly(b as bv16) <==> 8 <= e < 16 && ByteBits(b)[15 - e]
  {
    forall e: nat {:trigger e in RegPoly(b as bv16)}
      ensures e in RegPoly(b as bv16) <==> 8 <= e < 16 && ByteBits(b)[15 - e]
    {
      BytePoly(b, e);
    }
  }

  lemma {:induction false} FedByte(start: Poly, b: bv8)
    ensures Fed(start, ByteBits(b)) == MulXn(Add(start, RegPoly(b as bv16)), 8)
  {
    ByteWord(b);
    FedEight(start, ByteBits(b), RegPoly(b as bv16));
  }

  lemma {:induction false} FedCongruent(a: Poly, b: Poly, bits: Bits)
    requires Congruent(a, b)
    ensures Congruent(Fed(a, bits), Fed(b, bits))
    decreases |bits|
  {
    if |bits| > 0 {
      var init := bits[..|bits| - 1];
      FedCongruent(a, b, init);
      CongruentMulX(Fed(a, init), Fed(b, init));
      CongruentAdd(MulX(Fed(a, init)), MulX(Fed(b, init)), Scaled(bits[|bits| - 1], {16}));
    }
  }

  const INITIAL: Poly := RegPoly(CRC16_INITIAL)

  lemma {:induction false} InitialIsAllOnes()
    ensures forall e :: e in INITIAL <==> 0 <= e < 16
  {}

  lemma {:induction false} ByteStep(r: bv16, m: Poly, b: bv8)
    requires Congruent(RegPoly(r), m)
    ensures Congruent(RegPoly(Turns(r ^ (b as bv16), 8)), Fed(m, ByteBits(b)))
  {
    var w := r ^ (b as bv16);
    RegPolyXor(r, b as bv16);
    RegPolyTurns(w, 8);
    FedByte(RegPoly(r), b);
    FedCongruent(RegPoly(r), m, ByteBits(b));
    CongruentTrans(RegPoly(Turns(w, 8)), Fed(RegPoly(r), ByteBits(b)), Fed(m, ByteBits(b)));
  }

  lemma {:induction false} LastByte(p: Bytes)
    requires |p| > 0
    ensures var init, b := p[..|p| - 1], p[|p| - 1];
            && Crc16(p) == Turns(Crc16(init) ^ (b as bv16), 8)
            && Fed(INITIAL, FrameBits(p)) == Fed(Fed(INITIAL, FrameBits(init)), ByteBits(b))
  {
    FedConcat(INITIAL, FrameBits(p[..|p| - 1]), ByteBits(p[|p| - 1]));
  }

  /** The loop refines polynomial remainder: what it returns, read as a polynomial, is
      congruent to the initial ones followed by the message, modulo the generator. */
  lemma {:induction false} RegisterIsRemainder(p: Bytes)
    ensures Congruent(RegPoly(Crc16(p)), Fed(INITIAL, FrameBits(p)))
    decreases |p|
  {
    if |p| == 0 {
      assert Fed(INITIAL, FrameBits(p)) == INITIAL;
      EqualCongruent(INITIAL);
    } else {
      var init := p[..|p| - 1];
      RegisterIsRemainder(init);
      ByteStep(Crc16(init), Fed(INITIAL, FrameBits(init)), p[|p| - 1]);
      LastByte(p);
    }
  }

  /** A register value is the checksum of p iff its polynomial is the remainder of the
      message, so the remainder, which is unique, determines the checksum. */
  lemma {:induction false} Crc16IsTheRemainder(p: Bytes, w: bv16)
    ensures Congruent(RegPoly(w), Fed(INITIAL, FrameBits(p))) <==> w == Crc16(p)
  {
    RegisterIsRemainder(p);
    var m := Fed(INITIAL, FrameBits(p));
    if Congruent(RegPoly(w), m) {
      AddComm(RegPoly(Crc16(p)), m);
      CongruentTrans(RegPoly(w), m, RegPoly(Crc16(p)));
      CongruentSmallEqual(RegPoly(w), RegPoly(Crc16(p)));
      RegPolyInjective(w, Crc16(p));
    }
  }

  lemma {:induction false} RegPolyInjective(v: bv16, w: bv16)
    requires RegPoly(v) == RegPoly(w)
    ensures v == w
  {
    RegPolyXor(v, w);
    assert RegPoly(v ^ w) == {};
    NoCoefficients(v ^ w);
    assert v ^ w == 0 ==> v == w;
  }

  lemma {:induction false} NoCoefficients(w: bv16)
    requires RegPoly(w) == {}
    ensures w == 0
  {
    assert 0 !in RegPoly(w) && 1 !in RegPoly(w) && 2 !in RegPoly(w) && 3 !in RegPoly(w);
    assert 4 !in RegPoly(w) && 5 !in RegPoly(w) && 6 !in RegPoly(w) && 7 !in RegPoly(w);
    assert 8 !in RegPoly(w) && 9 !in RegPoly(w) && 10 !in RegPoly(w) && 11 !in RegPoly(w);
    assert 12 !in RegPoly(w) && 13 !in RegPoly(w) && 14 !in RegPoly(w) && 15 !in RegPoly(w);
  }

  /* ---------- A frame passes iff its polynomial is a multiple of the generator ---------- */

  /** The frame with its check field put low byte first. */
  function LowFirst(f: Bytes, order: ByteOrder): (g: Bytes)
    requires |f| > 2
    ensures |g| == |f|
  {
    match order
    case LowByteFirst => f
    case HighByteFirst => f[..|f| - 2] + [f[|f| - 1], f[|f| - 2]]
  }

  function FramePoly(f: Bytes, order: ByteOrder): Poly
    requires |f| > 2
  {
    Fed(INITIAL, FrameBits(LowFirst(f, order)))
  }

  function Joined(low: bv8, high: bv8): bv16 {
    ((high as bv16) << 8) | (low as bv16)
  }

  lemma {:induction false} SplitHalves(low: bv8, high: bv8, w: bv16)
    requires ((high as bv16) << 8) | (low as bv16) == w
    ensures low == (w & 0xFF) as bv8 && high == ((w >> 8) & 0xFF) as bv8
    ensures w == ((high as bv16) << 8) ^ (low as bv16)
  {}

  lemma {:induction false} JoinHalves(low: bv8, high: bv8, w: bv16)
    requires low == (w & 0xFF) as bv8 && high == ((w >> 8) & 0xFF) as bv8
    ensures ((high as bv16) << 8) | (low as bv16) == w
  {}

  lemma {:induction false} JoinedFormat(low: bv8, high: bv8, w: bv16)
    ensures Joined(low, high) == w <==> FormatCrc16(w, LowByteFirst) == [low, high]
    ensures FormatCrc16(w, LowByteFirst) == [low, high] <==> FormatCrc16(w, HighByteFirst) == [high, low]
  {
    if Joined(low, high) == w {
      SplitHalves(low, high, w);
    }
    if FormatCrc16(w, LowByteFirst) == [low, high] {
      assert FormatCrc16(w, LowByteFirst)[0] == low && FormatCrc16(w, LowByteFirst)[1] == high;
      JoinHalves(low, high, w);
    }
    if FormatCrc16(w, HighByteFirst) == [high, low] {
      assert FormatCrc16(w, HighByteFirst)[0] == high && FormatCrc16(w, HighByteFirst)[1] == low;
    }
  }

  lemma {:induction false} HighCoefficient(b: bv8, e: nat)
    requires e < 16
    ensures Coefficient((b as bv16) << 8, e) <==> e < 8 && ByteBits(b)[7 - e]
  {
    if e < 8 {
      LowBitAt(b, 8, 7 - e);
    }
  }

  lemma {:induction false} HighBytePoly(b: bv8, e: nat)
    ensures e in RegPoly((b as bv16) << 8) <==> e < 8 && ByteBits(b)[7 - e]
  {
    if e < 16 {
      HighCoefficient(b, e);
    }
  }

  lemma {:induction false} JoinedPoly(low: bv8, high: bv8, e: nat)
    ensures e in RegPoly(Joined(low, high)) <==> e < 16 && (ByteBits(low) + ByteBits(high))[15 - e]
  {
    JoinedIsSum(low, high);
    BytePoly(low, e);
    HighBytePoly(high, e);
    SumOfHalves(RegPoly(low as bv16), RegPoly((high as bv16) << 8), ByteBits(low), ByteBits(high), e);
  }

  lemma {:induction false} SumOfHalves(lowPoly: Poly, highPoly: Poly, low: Bits, high: Bits, e: nat)
    requires |low| == |high| == 8
    requires e in lowPoly <==> 8 <= e < 16 && low[15 - e]
    requires e in highPoly <==> e < 8 && high[7 - e]
    ensures e in Add(highPoly, lowPoly) <==> e < 16 && (low + high)[15 - e]
  {}

  lemma {:induction false} JoinedIsSum(low: bv8, high: bv8)
    ensures RegPoly(Joined(low, high)) == Add(RegPoly((high as bv16) << 8), RegPoly(low as bv16))
  {
    SplitHalves(low, high, Joined(low, high));
    RegPolyXor((high as bv16) << 8, low as bv16);
  }

  /** Feeding sixteen bits is adding them at x^15 down to 1 and shifting sixteen places. */
  lemma {:induction false} FedSixteen(start: Poly, bits: Bits, word: Poly)
    requires |bits| == 16
    requires forall e: nat {:trigger e in word} :: e in word <==> e < 16 && bits[15 - e]
    ensures Fed(start, bits) == MulXn(Add(word, start), 16)
  {
    forall e: nat
      ensures e in Fed(start, bits) <==> e in MulXn(Add(word, start), 16)
    {
      FedMember(start, bits, e);
      MulXnMember(Add(word, start), 16, e);
    }
  }

  lemma {:induction false} JoinedWord(low: bv8, high: bv8)
    ensures forall e: nat {:trigger e in RegPoly(Joined(low, high))} ::
              e in RegPoly(Joined(low, high)) <==> e < 16 && (ByteBits(low) + ByteBits(high))[15 - e]
  {
    forall e: nat
      ensures e in RegPoly(Joined(low, high)) <==> e < 16 && (ByteBits(low) + ByteBits(high))[15 - e]
    {
      JoinedPoly(low, high, e);
    }
  }

  lemma {:induction false} FedCheckField(start: Poly, low: bv8, high: bv8)
    ensures Fed(start, ByteBits(low) + ByteBits(high)) == MulXn(Add(RegPoly(Joined(low, high)), start), 16)
  {
    JoinedWord(low, high);
    FedSixteen(start, ByteBits(low) + ByteBits(high), RegPoly(Joined(low, high)));
  }

  lemma {:induction false} FrameBitsTail(p: Bytes, low: bv8, high: bv8)
    ensures FrameBits(p + [low, high]) == FrameBits(p) + (ByteBits(low) + ByteBits(high))
  {
    assert (p + [low, high])[..|p| + 1] == p + [low];
    assert (p + [low])[..|p|] == p;
  }

  lemma {:induction false} PassesIffMultiple(f: Bytes, order: ByteOrder)
    requires |f| > 2
    ensures CheckFrameCrc(f, order) <==> Multiple(FramePoly(f, order))
  {
    var p := f[..|f| - 2];
    var g := LowFirst(f, order);
    var low, high := g[|f| - 2], g[|f| - 1];
    assert g == p + [low, high];
    var m := Fed(INITIAL, FrameBits(p));
    var y := Add(RegPoly(Joined(low, high)), m);
    assert FramePoly(f, order) == MulXn(y, 16) by {
      FrameBitsTail(p, low, high);
      FedConcat(INITIAL, FrameBits(p), ByteBits(low) + ByteBits(high));
      FedCheckField(m, low, high);
    }
    CancelSixteen(y);
    CheckIsJoined(f, order);
    Crc16IsTheRemainder(p, Joined(low, high));
  }

  lemma {:induction false} CancelSixteen(y: Poly)
    ensures Multiple(MulXn(y, 16)) <==> Multiple(y)
  {
    if Multiple(y) {
      MultipleMulXn(y, 16);
    }
    if Multiple(MulXn(y, 16)) {
      MultipleDivXn(y, 16);
    }
  }

  lemma {:induction false} CheckIsJoined(f: Bytes, order: ByteOrder)
    requires |f| > 2
    ensures var g := LowFirst(f, order);
            CheckFrameCrc(f, order) <==> Joined(g[|f| - 2], g[|f| - 1]) == Crc16(f[..|f| - 2])
  {
    var g, w := LowFirst(f, order), Crc16(f[..|f| - 2]);
    JoinedFormat(g[|f| - 2], g[|f| - 1], w);
    assert f[|f| - 2..] == if order.LowByteFirst? then [g[|f| - 2], g[|f| - 1]] else [g[|f| - 1], g[|f| - 2]];
  }

  /* ---------- Odd numbers of flipped bits ---------- */

  function Ones(bits: Bits): nat
    decreases |bits|
  {
    if |bits| == 0 then 0 else Ones(bits[..|bits| - 1]) + (if bits[|bits| - 1] then 1 else 0)
  }

  /** The number of positions at which the two differ. */
  function Distance(a: Bits, b: Bits): nat
    requires |a| == |b|
    decreases |a|
  {
    if |a| == 0 then 0
    else Distance(a[..|a| - 1], b[..|b| - 1]) + (if a[|a| - 1] != b[|b| - 1] then 1 else 0)
  }

  lemma {:induction false} DistanceParity(a: Bits, b: Bits)
    requires |a| == |b|
    ensures Distance(a, b) % 2 == 0 <==> (EvenWeight(a) <==> EvenWeight(b))
    decreases |a|
  {
    if |a| > 0 {
      DistanceParity(a[..|a| - 1], b[..|b| - 1]);
      OnesStep(a);
      OnesStep(b);
    }
  }

  lemma {:induction false} OnesConcat(a: Bits, b: Bits)
    ensures Ones(a + b) == Ones(a) + Ones(b)
    decreases |b|
  {
    if |b| == 0 {
      assert a + b == a;
    } else {
      assert (a + b)[..|a + b| - 1] == a + b[..|b| - 1];
      OnesConcat(a, b[..|b| - 1]);
    }
  }

  predicate EvenWeight(bits: Bits) {
    Ones(bits) % 2 == 0
  }

  lemma {:induction false} TermParity(b: bool)
    ensures Even(Scaled(b, {16})) <==> !b
  {}

  lemma {:induction false} OnesStep(bits: Bits)
    requires |bits| > 0
    ensures EvenWeight(bits) <==> (EvenWeight(bits[..|bits| - 1]) <==> !bits[|bits| - 1])
  {}

  lemma {:induction false} FedParity(start: Poly, bits: Bits)
    ensures Even(Fed(start, bits)) <==> (Even(start) <==> EvenWeight(bits))
    decreases |bits|
  {
    if |bits| > 0 {
      var init, last := bits[..|bits| - 1], bits[|bits| - 1];
      FedParity(start, init);
      OnesStep(bits);
      EvenMulX(Fed(start, init));
      TermParity(last);
      EvenAdd(MulX(Fed(start, init)), Scaled(last, {16}));
    }
  }

  lemma {:induction false} RangeSize(p: Poly, n: nat)
    requires forall e {:trigger e in p} :: e in p <==> 0 <= e < n
    ensures |p| == n
  {
    if n == 0 {
      assert p == {};
    } else {
      assert n - 1 in p;
      RangeSize(p - {n - 1}, n - 1);
    }
  }

  lemma {:induction false} OnesSwap(p: Bits, x: Bits, y: Bits)
    ensures Ones(p + (x + y)) == Ones(p + (y + x))
  {
    OnesConcat(p, x + y);
    OnesConcat(p, y + x);
    OnesConcat(x, y);
    OnesConcat(y, x);
  }

  lemma {:induction false} SwapKeepsWeight(f: Bytes, order: ByteOrder)
    requires |f| > 2
    ensures Ones(FrameBits(LowFirst(f, order))) == Ones(FrameBits(f))
  {
    if order.HighByteFirst? {
      var p, x, y := f[..|f| - 2], f[|f| - 2], f[|f| - 1];
      assert f == p + [x, y];
      FrameBitsTail(p, x, y);
      FrameBitsTail(p, y, x);
      OnesSwap(FrameBits(p), ByteBits(x), ByteBits(y));
    }
  }

  lemma {:induction false} InitialEven()
    ensures Even(INITIAL)
  {
    InitialIsAllOnes();
    RangeSize(INITIAL, 16);
  }

  lemma {:induction false} FramePolyParity(f: Bytes, order: ByteOrder)
    requires |f| > 2
    ensures Even(FramePoly(f, order)) <==> EvenWeight(FrameBits(f))
  {
    var bits := FrameBits(LowFirst(f, order));
    FedParity(INITIAL, bits);
    InitialEven();
    assert EvenWeight(bits) <==> EvenWeight(FrameBits(f)) by {
      SwapKeepsWeight(f, order);
    }
  }

  /** In both byte orders every frame that passes has an even number of one bits. */
  lemma {:induction false} ValidFramesHaveEvenWeight(f: Bytes, order: ByteOrder)
    requires |f| > 2 && CheckFrameCrc(f, order)
    ensures EvenWeight(FrameBits(f))
  {
    PassesIffMultiple(f, order);
    MultipleEven(FramePoly(f, order));
    FramePolyParity(f, order);
  }

  /** Flipping any odd number of bits, anywhere, is detected in both byte orders. */
  lemma {:induction false} OddErrorsDetected(f: Bytes, g: Bytes, order: ByteOrder)
    requires |f| == |g| > 2
    requires CheckFrameCrc(f, order)
    requires Distance(FrameBits(f), FrameBits(g)) % 2 == 1
    ensures !CheckFrameCrc(g, order)
  {
    if CheckFrameCrc(g, order) {
      ValidFramesHaveEvenWeight(f, order);
      ValidFramesHaveEvenWeight(g, order);
      DistanceParity(FrameBits(f), FrameBits(g));
    }
  }

  /* ---------- Bursts ---------- */

  /** The frames have the same length and differ in at least one bit, and only inside the
      w bits that start at bit s. */
  ghost predicate Burst(f: Bytes, g: Bytes, s: nat, w: nat) {
    && |f| == |g|
    && f != g
    && forall i :: 0 <= i < 8 * |f| && FrameBits(f)[i] != FrameBits(g)[i] ==> s <= i < s + w
  }

  /** The sum of the polynomials of two frames has a term for each differing bit. */
  lemma {:induction false} DifferenceMember(start: Poly, a: Bits, b: Bits, e: nat)
    requires |a| == |b|
    ensures e in Add(Fed(start, a), Fed(start, b))
       <==> 16 <= e < 16 + |a| && a[|a| + 15 - e] != b[|a| + 15 - e]
  {
    FedMember(start, a, e);
    FedMember(start, b, e);
  }

  /** p / x^n, for p without terms below x^n. */
  function DivXn(p: Poly, n: nat): (q: Poly)
    ensures forall e: nat {:trigger e in q} :: e in q <==> e + n in p
  {
    var q := set e | e in p && e >= n :: e - n;
    assert forall e: nat {:trigger e in q} :: e + n in p ==> (e + n) - n in q;
    q
  }

  lemma {:induction false} MulDivXn(p: Poly, n: nat)
    requires forall e :: e in p ==> e >= n
    ensures MulXn(DivXn(p, n), n) == p
  {
    forall e: nat
      ensures e in MulXn(DivXn(p, n), n) <==> e in p
    {
      MulXnMember(DivXn(p, n), n, e);
    }
  }

  /** A multiple of the generator whose terms span at most sixteen places is zero. */
  lemma {:induction false} NarrowMultipleIsZero(p: Poly, n: nat)
    requires Multiple(p)
    requires forall e :: e in p ==> n <= e < n + 16
    ensures p == {}
  {
    MulDivXn(p, n);
    MultipleDivXn(DivXn(p, n), n);
    SmallMultipleIsZero(DivXn(p, n));
    forall e
      ensures e !in p
    {
      MulXnMember(DivXn(p, n), n, e);
    }
  }

  lemma {:induction false} FrameBitsInjective(f: Bytes, g: Bytes)
    requires |f| == |g| && FrameBits(f) == FrameBits(g)
    ensures f == g
  {
    forall i | 0 <= i < |f|
      ensures f[i] == g[i]
    {
      forall k | 0 <= k < 8
        ensures ByteBits(f[i])[k] == ByteBits(g[i])[k]
      {
        FrameBitsAt(f, i, k);
        FrameBitsAt(g, i, k);
      }
      assert ByteBits(f[i]) == ByteBits(g[i]);
      ByteBitsInjective(f[i], g[i]);
    }
  }

  lemma {:induction false} ByteBitsInjective(a: bv8, b: bv8)
    requires ByteBits(a) == ByteBits(b)
    ensures a == b
  {
    ByteWord(a);
    ByteWord(b);
    assert RegPoly(a as bv16) == RegPoly(b as bv16);
    RegPolyInjective(a as bv16, b as bv16);
    assert a as bv16 == b as bv16 ==> a == b;
  }

  /** d has a term for each position at which a and b differ. */
  ghost predicate IsDifference(d: Poly, a: Bits, b: Bits) {
    && |a| == |b|
    && forall e {:trigger e in d} :: e in d <==> 16 <= e < 16 + |a| && a[|a| + 15 - e] != b[|a| + 15 - e]
  }

  lemma {:induction false} FedDifference(start: Poly, a: Bits, b: Bits)
    requires |a| == |b|
    ensures IsDifference(Add(Fed(start, a), Fed(start, b)), a, b)
  {
    var d := Add(Fed(start, a), Fed(start, b));
    forall e {:trigger e in d}
      ensures e in d <==> 16 <= e < 16 + |a| && a[|a| + 15 - e] != b[|a| + 15 - e]
    {
      if e >= 0 {
        DifferenceMember(start, a, b, e);
      }
    }
  }

  /** Two messages whose difference is a multiple of the generator and lies inside sixteen
      consecutive bits are the same. */
  lemma {:induction false} NarrowDifferenceIsZero(d: Poly, a: Bits, b: Bits, s: nat)
    requires IsDifference(d, a, b) && Multiple(d) && s <= |a|
    requires forall i :: 0 <= i < |a| && a[i] != b[i] ==> s <= i < s + 16
    ensures a == b
  {
    forall e | e in d
      ensures |a| - s <= e < |a| - s + 16
    {
      var j := |a| + 15 - e;
      assert a[j] != b[j];
    }
    NarrowMultipleIsZero(d, |a| - s);
    forall i | 0 <= i < |a|
      ensures a[i] == b[i]
    {
      var e := |a| + 15 - i;
      assert e !in d && |a| + 15 - e == i;
    }
  }

  lemma {:induction false} NarrowDifferenceVanishes(a: Bits, b: Bits, s: nat)
    requires |a| == |b| && s <= |a|
    requires Multiple(Add(Fed(INITIAL, a), Fed(INITIAL, b)))
    requires forall i :: 0 <= i < |a| && a[i] != b[i] ==> s <= i < s + 16
    ensures a == b
  {
    FedDifference(INITIAL, a, b);
    NarrowDifferenceIsZero(Add(Fed(INITIAL, a), Fed(INITIAL, b)), a, b, s);
  }

  /** Protocol 2 order: two valid frames never differ by a burst of at most 16 bits. */
  lemma {:induction false} LowFirstNarrowSame(f: Bytes, g: Bytes, s: nat)
    requires |f| == |g| > 2 && CheckFrameCrc(f, LowByteFirst) && CheckFrameCrc(g, LowByteFirst)
    requires forall i :: 0 <= i < 8 * |f| && FrameBits(f)[i] != FrameBits(g)[i] ==> s <= i < s + 16
    ensures f == g
  {
    SameVerdict(f, g, LowByteFirst);
    if s > 8 * |f| {
      assert FrameBits(f) == FrameBits(g);
    } else {
      NarrowDifferenceVanishes(FrameBits(f), FrameBits(g), s);
    }
    FrameBitsInjective(f, g);
  }

  /** Protocol 2 order: every burst of at most 16 bits, check field included, is detected. */
  lemma {:induction false} LowFirstBurstDetected(f: Bytes, g: Bytes, s: nat)
    requires |f| > 2 && Burst(f, g, s, 16)
    requires CheckFrameCrc(f, LowByteFirst)
    ensures !CheckFrameCrc(g, LowByteFirst)
  {
    if CheckFrameCrc(g, LowByteFirst) {
      LowFirstNarrowSame(f, g, s);
    }
  }

  lemma {:induction false} SameVerdict(f: Bytes, g: Bytes, order: ByteOrder)
    requires |f| == |g| > 2
    requires CheckFrameCrc(f, order) && CheckFrameCrc(g, order)
    ensures Multiple(Add(FramePoly(f, order), FramePoly(g, order)))
  {
    PassesIffMultiple(f, order);
    PassesIffMultiple(g, order);
    MultipleAdd(FramePoly(f, order), FramePoly(g, order));
  }

  /** Where the bits of the check field go when its two bytes are swapped. */
  function Swapped(n: nat, i: nat): (j: nat)
    requires n > 2 && i < 8 * n
    ensures j < 8 * n
  {
    if i < 8 * (n - 2) then i else if i < 8 * (n - 1) then i + 8 else i - 8
  }

  lemma {:induction false} SameByteSameBits(f: Bytes, k: nat, g: Bytes, k': nat, r: nat)
    requires k < |f| && k' < |g| && f[k] == g[k'] && r < 8
    ensures FrameBits(f)[8 * k + r] == FrameBits(g)[8 * k' + r]
  {
    FrameBitsAt(f, k, r);
    FrameBitsAt(g, k', r);
  }

  lemma {:induction false} SwappedBitsAt(f: Bytes, k: nat, r: nat)
    requires |f| > 2 && k < |f| && r < 8
    ensures FrameBits(LowFirst(f, HighByteFirst))[8 * k + r] == FrameBits(f)[Swapped(|f|, 8 * k + r)]
  {
    var k' := if k < |f| - 2 then k else if k == |f| - 2 then k + 1 else k - 1;
    SameByteSameBits(LowFirst(f, HighByteFirst), k, f, k', r);
  }

  lemma {:induction false} SwappedBits(f: Bytes, i: nat)
    requires |f| > 2 && i < 8 * |f|
    ensures FrameBits(LowFirst(f, HighByteFirst))[i] == FrameBits(f)[Swapped(|f|, i)]
  {
    SwappedBitsAt(f, i / 8, i % 8);
  }

  lemma {:induction false} LowFirstInjective(f: Bytes, g: Bytes, order: ByteOrder)
    requires |f| == |g| > 2 && LowFirst(f, order) == LowFirst(g, order)
    ensures f == g
  {
    var f', g' := LowFirst(f, order), LowFirst(g, order);
    assert f'[..|f| - 2] == f[..|f| - 2] && g'[..|f| - 2] == g[..|f| - 2];
    assert f' [|f| - 1] == g'[|f| - 1] && f'[|f| - 2] == g'[|f| - 2];
  }

  /** In Protocol 1 order a window of 8 bits may stand anywhere; one of 16 bits stays together when it
      lies before the check field or in it. */
  predicate StaysTogether(n: nat, s: nat, w: nat)
    requires n > 2
  {
    w <= 8 || (w <= 16 && (s + w <= 8 * (n - 2) || 8 * (n - 2) <= s))
  }

  /** Protocol 1 order: two valid frames never differ by such a window only. */
  lemma {:induction false} HighFirstNarrowSame(f: Bytes, g: Bytes, s: nat, w: nat)
    requires |f| == |g| > 2 && CheckFrameCrc(f, HighByteFirst) && CheckFrameCrc(g, HighByteFirst)
    requires StaysTogether(|f|, s, w)
    requires forall i :: 0 <= i < 8 * |f| && FrameBits(f)[i] != FrameBits(g)[i] ==> s <= i < s + w
    ensures f == g
  {
    SameVerdict(f, g, HighByteFirst);
    var f', g' := LowFirst(f, HighByteFirst), LowFirst(g, HighByteFirst);
    var s' := if s < 8 * (|f| - 2) then s else 8 * (|f| - 2);
    forall i | 0 <= i < 8 * |f| && FrameBits(f')[i] != FrameBits(g')[i]
      ensures s' <= i < s' + 16
    {
      SwappedBits(f, i);
      SwappedBits(g, i);
    }
    NarrowDifferenceVanishes(FrameBits(f'), FrameBits(g'), s');
    FrameBitsInjective(f', g');
    LowFirstInjective(f, g, HighByteFirst);
  }

  /** Protocol 1 order: every burst of at most 8 bits is detected, and every burst of at most 16 bits
      that lies before the check field or in it. */
  lemma {:induction false} HighFirstBurstDetected(f: Bytes, g: Bytes, s: nat, w: nat)
    requires |f| > 2 && StaysTogether(|f|, s, w) && Burst(f, g, s, w)
    requires CheckFrameCrc(f, HighByteFirst)
    ensures !CheckFrameCrc(g, HighByteFirst)
  {
    if CheckFrameCrc(g, HighByteFirst) {
      HighFirstNarrowSame(f, g, s, w);
    }
  }

  /** In both orders, altering any one byte is detected. */
  lemma {:induction false} SingleByteErrorDetected(f: Bytes, k: nat, b: bv8, order: ByteOrder)
    requires |f| > 2 && k < |f| && f[k] != b
    requires CheckFrameCrc(f, order)
    ensures !CheckFrameCrc(f[k := b], order)
  {
    var g := f[k := b];
    forall i | 0 <= i < 8 * |f| && FrameBits(f)[i] != FrameBits(g)[i]
      ensures 8 * k <= i < 8 * k + 8
    {
      FrameBitsAt(f, i / 8, i % 8);
      FrameBitsAt(g, i / 8, i % 8);
    }
    assert f[k] != g[k];
    match order
    case LowByteFirst => LowFirstBurstDetected(f, g, 8 * k);
    case HighByteFirst => HighFirstBurstDetected(f, g, 8 * k, 8);
  }

  /* ---------- The bounds 16 and 8 are the best possible ---------- */

  /** The sum of two messages is x^t times the generator. */
  ghost predicate DifferByGenerator(a: Bits, b: Bits, t: nat) {
    && |a| == |b|
    && 16 <= t < |a|
    && forall i :: 0 <= i < |a| ==> (a[i] != b[i] <==> |a| + 15 - t - i in {16, 15, 2, 0})
  }

  lemma {:induction false} GeneratorDifference(a: Bits, b: Bits, t: nat)
    requires DifferByGenerator(a, b, t)
    ensures Add(Fed(INITIAL, a), Fed(INITIAL, b)) == MulXn(GENERATOR, t)
  {
    var d := Add(Fed(INITIAL, a), Fed(INITIAL, b));
    FedDifference(INITIAL, a, b);
    forall e: nat
      ensures e in d <==> e in MulXn(GENERATOR, t)
    {
      MulXnMember(GENERATOR, t, e);
      if 16 <= e < 16 + |a| {
        var i := |a| + 15 - e;
        assert a[i] != b[i] <==> |a| + 15 - t - i in {16, 15, 2, 0};
      }
    }
  }

  /** An error whose polynomial is the generator itself, in any place, is never seen. */
  lemma {:induction false} GeneratorErrorMissed(f: Bytes, g: Bytes, order: ByteOrder, t: nat)
    requires |f| == |g| > 2
    requires DifferByGenerator(FrameBits(LowFirst(f, order)), FrameBits(LowFirst(g, order)), t)
    ensures CheckFrameCrc(f, order) <==> CheckFrameCrc(g, order)
  {
    GeneratorDifference(FrameBits(LowFirst(f, order)), FrameBits(LowFirst(g, order)), t);
    GeneratorIsMultiple();
    MultipleMulXn(GENERATOR, t);
    MultipleOfCongruent(FramePoly(f, order), FramePoly(g, order));
    PassesIffMultiple(f, order);
    PassesIffMultiple(g, order);
  }

  lemma {:induction false} GeneratorIsMultiple()
    ensures Multiple(GENERATOR)
  {
    AddGenerator({});
    assert Add(Add({}, GENERATOR), {}) == GENERATOR;
  }

  /** Protocol 2 order: flipping bits s, s + 1, s + 14 and s + 16 is never detected. */
  lemma {:induction false} LowFirstSeventeenBitBurstMissed(f: Bytes, g: Bytes, s: nat)
    requires |f| == |g| > 2 && s + 16 < 8 * |f|
    requires forall i :: 0 <= i < 8 * |f| ==>
               (FrameBits(f)[i] != FrameBits(g)[i] <==> i == s || i == s + 1 || i == s + 14 || i == s + 16)
    ensures CheckFrameCrc(f, LowByteFirst) <==> CheckFrameCrc(g, LowByteFirst)
  {
    GeneratorErrorMissed(f, g, LowByteFirst, 8 * |f| - 1 - s);
  }

  /** Bits 2 and 3 of the last payload byte and bits 0 and 2 of the high check byte, which
      follows it on the wire: nine bits from the first to the last. */
  function NineBitError(f: Bytes): Bytes
    requires |f| > 2
  {
    f[|f| - 3 := f[|f| - 3] ^ 0x0C][|f| - 2 := f[|f| - 2] ^ 0x05]
  }

  lemma {:induction false} FlippedMask(x: bv8, k: nat)
    requires k < 8
    ensures ((x ^ 0x0C) & ByteMask(k) != 0) != (x & ByteMask(k) != 0) <==> k == 2 || k == 3
    ensures ((x ^ 0x05) & ByteMask(k) != 0) != (x & ByteMask(k) != 0) <==> k == 0 || k == 2
  {}

  lemma {:induction false} FlippedBytes(x: bv8)
    ensures DifferAt(x, x ^ 0x0C, 2, 3)
    ensures DifferAt(x, x ^ 0x05, 0, 2)
  {
    forall r | 0 <= r < 8
      ensures ByteBits(x)[r] != ByteBits(x ^ 0x0C)[r] <==> r == 2 || r == 3
      ensures ByteBits(x)[r] != ByteBits(x ^ 0x05)[r] <==> r == 0 || r == 2
    {
      LowBitAt(x, 8, r);
      LowBitAt(x ^ 0x0C, 8, r);
      LowBitAt(x ^ 0x05, 8, r);
      FlippedMask(x, r);
    }
  }

  lemma {:induction false} NineBitErrorBits(f: Bytes, g: Bytes, i: nat)
    requires |f| == |g| > 2 && i < 8 * |f|
    requires forall k :: 0 <= k < |f| && k != |f| - 3 && k != |f| - 2 ==> f[k] == g[k]
    requires DifferAt(f[|f| - 3], g[|f| - 3], 2, 3) && DifferAt(f[|f| - 2], g[|f| - 2], 0, 2)
    ensures var s := 8 * (|f| - 3) + 2;
            FrameBits(f)[i] != FrameBits(g)[i] <==> i == s || i == s + 1 || i == s + 6 || i == s + 8
  {
    var k, r := i / 8, i % 8;
    assert i == 8 * k + r;
    FrameBitsAt(f, k, r);
    FrameBitsAt(g, k, r);
    if k == |f| - 3 {
      assert ByteBits(f[k])[r] != ByteBits(g[k])[r] <==> r == 2 || r == 3;
    } else if k == |f| - 2 {
      assert ByteBits(f[k])[r] != ByteBits(g[k])[r] <==> r == 0 || r == 2;
    }
  }

  /** With the check bytes swapped, those four bits are x^21 times the generator. */
  lemma {:induction false} NineBitDifference(f: Bytes, g: Bytes)
    requires |f| == |g| > 2
    requires var s := 8 * (|f| - 3) + 2;
             forall i :: 0 <= i < 8 * |f| ==>
               (FrameBits(f)[i] != FrameBits(g)[i] <==> i == s || i == s + 1 || i == s + 6 || i == s + 8)
    ensures DifferByGenerator(FrameBits(LowFirst(f, HighByteFirst)), FrameBits(LowFirst(g, HighByteFirst)), 21)
  {
    var a, b := FrameBits(LowFirst(f, HighByteFirst)), FrameBits(LowFirst(g, HighByteFirst));
    forall i | 0 <= i < |a|
      ensures a[i] != b[i] <==> |a| + 15 - 21 - i in {16, 15, 2, 0}
    {
      SwappedBits(f, i);
      SwappedBits(g, i);
    }
  }

  /** Protocol 1 order: for every valid frame some burst of nine bits is not detected,
      because the polynomial is split by the low check byte that is sent last. */
  lemma {:induction false} HighFirstNineBitBurstMissed(f: Bytes)
    requires |f| > 2 && CheckFrameCrc(f, HighByteFirst)
    ensures Burst(f, NineBitError(f), 8 * (|f| - 3) + 2, 9)
    ensures CheckFrameCrc(NineBitError(f), HighByteFirst)
  {
    var g := NineBitError(f);
    var s := 8 * (|f| - 3) + 2;
    FlippedBytes(f[|f| - 3]);
    FlippedBytes(f[|f| - 2]);
    forall i | 0 <= i < 8 * |f|
      ensures FrameBits(f)[i] != FrameBits(g)[i] <==> i == s || i == s + 1 || i == s + 6 || i == s + 8
    {
      NineBitErrorBits(f, g, i);
    }
    assert FrameBits(f)[s] != FrameBits(g)[s];
    NineBitDifference(f, g);
    GeneratorErrorMissed(f, g, HighByteFirst, 21);
  }
}
