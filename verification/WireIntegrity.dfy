/** What transmission errors can do to a response that the adapters would have accepted. */
module WireIntegrity {
  import opened Crc
  import opened CrcDetection
  import opened Models
  import opened Modbus
  import Protocol1
  import Protocol2

  /** Protocol 2: damage inside sixteen consecutive bits is rejected for the same request. */
  lemma {:induction false} Protocol2RejectsBursts(request: PollRequest, f: Bytes, g: Bytes, s: nat)
    requires ValidRequest(request) && Protocol2.Validate(request, f).Accepted?
    requires Burst(f, g, s, 16)
    ensures Protocol2.Validate(request, g).Rejected?
  {
    AcceptedHeader(request, f, LowByteFirst);
    LowFirstBurstDetected(f, g, s);
    FailingCheckIsRejected(request, g, LowByteFirst);
  }

  /** Protocol 1: damage inside eight consecutive bits is rejected for the same request, and so is
      damage inside sixteen before the check field or in it. */
  lemma {:induction false} Protocol1RejectsBursts(request: PollRequest, f: Bytes, g: Bytes, s: nat, w: nat)
    requires ValidRequest(request) && Protocol1.Validate(request, f).Accepted?
    requires Burst(f, g, s, w) && StaysTogether(|f|, s, w)
    ensures Protocol1.Validate(request, g).Rejected?
  {
    AcceptedHeader(request, f, HighByteFirst);
    HighFirstBurstDetected(f, g, s, w);
    FailingCheckIsRejected(request, g, HighByteFirst);
  }

  /** Both: an odd number of flipped bits, or any one altered byte, is rejected. */
  lemma {:induction false} OddDamageIsRejected(request: PollRequest, f: Bytes, g: Bytes)
    requires ValidRequest(request) && |f| == |g|
    requires Distance(FrameBits(f), FrameBits(g)) % 2 == 1
    ensures Protocol1.Validate(request, f).Accepted? ==> Protocol1.Validate(request, g).Rejected?
    ensures Protocol2.Validate(request, f).Accepted? ==> Protocol2.Validate(request, g).Rejected?
  {
    if Protocol1.Validate(request, f).Accepted? {
      AcceptedHeader(request, f, HighByteFirst);
      OddErrorsDetected(f, g, HighByteFirst);
      FailingCheckIsRejected(request, g, HighByteFirst);
    }
    if Protocol2.Validate(request, f).Accepted? {
      AcceptedHeader(request, f, LowByteFirst);
      OddErrorsDetected(f, g, LowByteFirst);
      FailingCheckIsRejected(request, g, LowByteFirst);
    }
  }

  lemma {:induction false} AlteredByteIsRejected(request: PollRequest, f: Bytes, k: nat, b: bv8)
    requires ValidRequest(request) && k < |f| && f[k] != b
    ensures Protocol1.Validate(request, f).Accepted? ==> Protocol1.Validate(request, f[k := b]).Rejected?
    ensures Protocol2.Validate(request, f).Accepted? ==> Protocol2.Validate(request, f[k := b]).Rejected?
  {
    if Protocol1.Validate(request, f).Accepted? {
      AcceptedHeader(request, f, HighByteFirst);
      SingleByteErrorDetected(f, k, b, HighByteFirst);
      FailingCheckIsRejected(request, f[k := b], HighByteFirst);
    }
    if Protocol2.Validate(request, f).Accepted? {
      AcceptedHeader(request, f, LowByteFirst);
      SingleByteErrorDetected(f, k, b, LowByteFirst);
      FailingCheckIsRejected(request, f[k := b], LowByteFirst);
    }
  }

  lemma {:induction false} FailingCheckIsRejected(request: PollRequest, g: Bytes, order: ByteOrder)
    requires ValidRequest(request) && |g| > 2 && !CheckFrameCrc(g, order)
    ensures ValidateBase(request, g, order).Rejected?
  {
  }

  /** Protocol 1 does not reach further: every accepted probe response has a nine-bit burst that is
      accepted in its place and carries other data. */
  lemma {:induction false} Protocol1AcceptsNineBitDamage(request: PollRequest, f: Bytes)
    requires ValidRequest(request) && Protocol1.Validate(request, f).Accepted?
    requires request.sourceType.Probe? && request.registerCount >= 1
    ensures var g := NineBitError(f);
            && Burst(f, g, 8 * (|f| - 3) + 2, 9)
            && Protocol1.Validate(request, g).Accepted?
            && DataRegisters(g) != DataRegisters(f)
  {
    AcceptedHeader(request, f, HighByteFirst);
    HighFirstNineBitBurstMissed(f);
    var g := NineBitError(f);
    assert ValidateBase(request, g, HighByteFirst).Accepted?;
    AcceptedIsFrame(request, f, HighByteFirst);
    AcceptedIsFrame(request, g, HighByteFirst);
    assert f != g;
  }
}
