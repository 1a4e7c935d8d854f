/**
 * The wire message the controller sends to its viewer (main.py:98): a 4-byte
 * big-endian length followed by the payload.
 */
module Framing {
  import opened Wrappers
  import opened Bytes

  /** The payload sizes a 4-byte header can announce. */
  const MaxPayload: nat := 0x1_0000_0000

  /**
   * `len(data).to_bytes(4, 'big') + data`; `None` where `to_bytes` raises
   * OverflowError because the length does not fit in four bytes.
   */
  function EncodeMessage(data: seq<byte>): (r: Option<seq<byte>>)
    ensures r.Some? <==> |data| < MaxPayload
    ensures r.Some? ==> && |r.value| == 4 + |data|
                        && FromBigEndian(r.value[..4]) == |data|
                        && r.value[4..] == data
  {
    FourBytes();
    if |data| < Pow256(4) then
      var header := ToBigEndian(|data|, 4);
      FromToBigEndian(|data|, 4);
      assert (header + data)[..4] == header && (header + data)[4..] == data;
      Some(header + data)
    else
      None
  }

  /** Every payload fits the 4-byte header. */
  ghost predicate Sendable(payloads: seq<seq<byte>>)
  {
    forall i :: 0 <= i < |payloads| ==> |payloads[i]| < MaxPayload
  }

  /** The byte stream a connection carries after the payloads were sent one after another. */
  function Wire(payloads: seq<seq<byte>>): (w: seq<byte>)
    requires Sendable(payloads)
    ensures |w| >= 4 * |payloads|
    ensures w == [] <==> payloads == []
  {
    if payloads == [] then [] else EncodeMessage(payloads[0]).value + Wire(payloads[1..])
  }

  /** Sending one more payload appends its message to the stream. */
  lemma {:induction false} WireAppend(payloads: seq<seq<byte>>, p: seq<byte>)
    requires Sendable(payloads) && |p| < MaxPayload
    ensures Sendable(payloads + [p])
    ensures Wire(payloads + [p]) == Wire(payloads) + EncodeMessage(p).value
    decreases |payloads|
  {
    if payloads == [] {
      assert [p][1..] == [];
    } else {
      assert (payloads + [p])[1..] == payloads[1..] + [p];
      WireAppend(payloads[1..], p);
    }
  }
}
