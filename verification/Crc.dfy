/** The CRC-16 of the Modbus wire layer: the bit-serial loop, the two wire orders of the
    check field, and the proof that the loop computes a polynomial remainder over GF(2). */
module Crc {
  import opened Gf2

  type Bytes = seq<bv8>

  const CRC16_INITIAL: bv16 := 0xFFFF
  const CRC16_POLYNOMIAL: bv16 := 0xA001

  datatype ByteOrder = HighByteFirst | LowByteFirst

  /* ---------- The loop ---------- */

  /** One turn of the inner loop. */
  function Turn(crc: bv16): bv16 {
    if crc & 0x0001 != 0 then (crc >> 1) ^ CRC16_POLYNOMIAL else crc >> 1
  }

  function Turns(crc: bv16, n: nat): bv16 {
    if n == 0 then crc else Turn(Turns(crc, n - 1))
  }

  /** The loop's variable after the bytes of p, one at a time. */
  function Register(crc: bv16, p: Bytes): bv16
    decreases |p|
  {
    if |p| == 0 then crc
    else Turns(Register(crc, p[..|p| - 1]) ^ (p[|p| - 1] as bv16), 8)
  }

  function Crc16(payload: Bytes): bv16 {
    Register(CRC16_INITIAL, payload)
  }

  lemma {:induction false} KeepLow16(crc: bv16)
    ensures crc & 0xFFFF == crc
  {}

  /** The source's two nested loops. An empty payload is the source's ValueError. */
  method ComputeModbusCrc16(payload: Bytes) returns (ok: bool, crc: bv16)
    ensures ok <==> payload != []
    ensures ok ==> crc == Crc16(payload)
  {
    crc := CRC16_INITIAL;
    if |payload| == 0 {
      return false, crc;
    }
    for i := 0 to |payload|
      invariant crc == Register(CRC16_INITIAL, payload[..i])
    {
      crc := crc ^ (payload[i] as bv16);
      ghost var fed := crc;
      for n := 0 to 8
        invariant crc == Turns(fed, n)
      {
        if crc & 0x0001 != 0 {
          crc := (crc >> 1) ^ CRC16_POLYNOMIAL;
        } else {
          crc := crc >> 1;
        }
        KeepLow16(crc);
        crc := crc & 0xFFFF;
      }
      assert payload[..i + 1][..i] == payload[..i];
    }
    assert payload[..|payload|] == payload;
    ok := true;
  }

  /* ---------- The check field ---------- */

  function FormatCrc16(crc: bv16, order: ByteOrder): Bytes {
    var high := ((crc >> 8) & 0xFF) as bv8;
    var low := (crc & 0xFF) as bv8;
    match order
    case HighByteFirst => [high, low]
    case LowByteFirst => [low, high]
  }

  function AppendCrc16(payload: Bytes, order: ByteOrder): Bytes
    requires payload != []
  {
    payload + FormatCrc16(Crc16(payload), order)
  }

  /** check_frame_crc(frame).ok; shorter frames are the source's ValueError. */
  predicate CheckFrameCrc(frame: Bytes, order: ByteOrder)
    requires |frame| > 2
  {
    FormatCrc16(Crc16(frame[..|frame| - 2]), order) == frame[|frame| - 2..]
  }

  /** The check passes exactly on the frames append_crc16 makes. */
  lemma {:induction false} CheckAcceptsExactlyAppended(frame: Bytes, order: ByteOrder)
    requires |frame| > 2
    ensures CheckFrameCrc(frame, order)
       <==> exists payload :: payload != [] && frame == AppendCrc16(payload, order)
  {
    var payload := frame[..|frame| - 2];
    if CheckFrameCrc(frame, order) {
      assert frame == AppendCrc16(payload, order);
    }
    if other :| other != [] && frame == AppendCrc16(other, order) {
      assert payload == other;
    }
  }

  /* ---------- A word as a polynomial, least significant bit at x^15 ---------- */

  function Mask(e: nat): bv16
    requires e < 16
  {
    match e
    case 0 => 0x8000 case 1 => 0x4000 case 2 => 0x2000 case 3 => 0x1000
    case 4 => 0x0800 case 5 => 0x0400 case 6 => 0x0200 case 7 => 0x0100
    case 8 => 0x0080 case 9 => 0x0040 case 10 => 0x0020 case 11 => 0x0010
    case 12 => 0x0008 case 13 => 0x0004 case 14 => 0x0002 case _ => 0x0001
  }

  /** The coefficient of x^e, which is bit 15 - e. */
  predicate Coefficient(w: bv16, e: nat)
    requires e < 16
  {
    w & Mask(e) != 0
  }

  function RegPoly(w: bv16): (p: Poly)
    ensures Below(p, 16)
  {
    set e | 0 <= e < 16 && Coefficient(w, e)
  }

  lemma {:induction false} CoefficientXor(v: bv16, w: bv16, e: nat)
    requires e < 16
    ensures Coefficient(v ^ w, e) <==> Coefficient(v, e) != Coefficient(w, e)
  {
    MaskXor(v, w, e);
  }

  lemma {:induction false} MaskXor(v: bv16, w: bv16, e: nat)
    requires e < 16
    ensures (v ^ w) & Mask(e) != 0 <==> (v & Mask(e) != 0) != (w & Mask(e) != 0)
  {}

  lemma {:induction false} CoefficientShift(w: bv16, e: nat)
    requires e < 16
    ensures Coefficient(w >> 1, e) <==> e > 0 && Coefficient(w, e - 1)
  {}

  lemma {:induction false} GeneratorCoefficients()
    ensures RegPoly(CRC16_POLYNOMIAL) == GENERATOR - {16}
  {}

  lemma {:induction false} RegPolyXor(v: bv16, w: bv16)
    ensures RegPoly(v ^ w) == Add(RegPoly(v), RegPoly(w))
  {
    forall e: nat | e < 16
      ensures e in RegPoly(v ^ w) <==> (e in RegPoly(v)) != (e in RegPoly(w))
    {
      CoefficientXor(v, w, e);
    }
  }

  lemma {:induction false} RegPolyShift(w: bv16)
    ensures RegPoly(w >> 1) == MulX(RegPoly(w)) - {16}
    ensures 16 in MulX(RegPoly(w)) <==> w & 0x0001 != 0
  {
    forall e: nat | e < 16
      ensures e in RegPoly(w >> 1) <==> e in MulX(RegPoly(w))
    {
      CoefficientShift(w, e);
    }
  }

  /** One turn multiplies by x and reduces by the generator. */
  lemma {:induction false} RegPolyTurn(w: bv16)
    ensures Congruent(RegPoly(Turn(w)), MulX(RegPoly(w)))
  {
    RegPolyShift(w);
    var p := MulX(RegPoly(w));
    if w & 0x0001 != 0 {
      RegPolyXor(w >> 1, CRC16_POLYNOMIAL);
      GeneratorCoefficients();
      assert Add(p - {16}, RegPoly(CRC16_POLYNOMIAL)) == Add(p, GENERATOR);
      AddGenerator(p);
    } else {
      assert p - {16} == p;
      EqualCongruent(p);
    }
  }

  lemma {:induction false} RegPolyTurns(w: bv16, n: nat)
    ensures Congruent(RegPoly(Turns(w, n)), MulXn(RegPoly(w), n))
  {
    if n == 0 {
      EqualCongruent(RegPoly(w));
    } else {
      RegPolyTurns(w, n - 1);
      RegPolyTurn(Turns(w, n - 1));
      CongruentMulX(RegPoly(Turns(w, n - 1)), MulXn(RegPoly(w), n - 1));
      CongruentTrans(RegPoly(Turns(w, n)), MulX(RegPoly(Turns(w, n - 1))), MulXn(RegPoly(w), n));
    }
  }
}
