/** The other end of the wire: how a Modbus device reads a request and answers it. */
module Devices {
  import opened Crc
  import opened Models
  import opened Modbus

  /** A device with these registers answers a read request that it understands and can serve. */
  function Answer(bank: seq<bv16>, frame: Bytes, order: ByteOrder): Option<Bytes> {
    if |frame| != 8 || !CheckFrameCrc(frame, order) || frame[1] != 3 then None
    else
      var start, count := WordOf(frame[2], frame[3]), WordOf(frame[4], frame[5]);
      if !(1 <= count <= 127) || start + count > |bank| then None
      else Some(ResponseFrame(frame[0] as int, 3, bank[start..start + count], order))
  }

  lemma {:induction false} AskedIsInRange(frame: Bytes, order: ByteOrder, unitAddress: int, start: int, count: int)
    requires AsksFor(frame, order, unitAddress, start, count)
    ensures 0 <= unitAddress <= 255 && 0 <= start && 0 <= count
  {
  }

  /** A device that has the registers asked for answers with exactly these. */
  lemma {:induction false} AnswerIs(
    bank: seq<bv16>, frame: Bytes, order: ByteOrder, unitAddress: int, start: int, count: int)
    requires AsksFor(frame, order, unitAddress, start, count) && 0 <= unitAddress <= 255 && 0 <= start
    requires 1 <= count <= 127 && start + count <= |bank|
    ensures Answer(bank, frame, order) == Some(ResponseFrame(unitAddress, 3, bank[start..start + count], order))
  {
  }
}
