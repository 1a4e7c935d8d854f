/**
 * The viewer's receive loop (viewer.py): read a 4-byte big-endian length,
 * then keep reading until that many bytes arrived or the stream ended.
 *
 * The socket is a sequence of non-empty chunks, the segments in which bytes
 * arrive. `recv(n)` returns at most n bytes, never more than what is left of
 * the chunk at the front, and the empty string once the stream has ended.
 */
module Viewer {
  import opened Bytes
  import opened Framing

  /** Every chunk is non-empty: an empty read means the end of the stream. */
  ghost predicate Chunked(chunks: seq<seq<byte>>)
  {
    chunks == [] || (|chunks[0]| > 0 && Chunked(chunks[1..]))
  }

  /** The bytes of the stream, in order, without the chunk boundaries. */
  function Flatten(chunks: seq<seq<byte>>): seq<byte>
  {
    if chunks == [] then [] else chunks[0] + Flatten(chunks[1..])
  }

  /** `sock.recv(n)`: the bytes returned and the socket left behind. */
  function Recv(chunks: seq<seq<byte>>, n: nat): (r: (seq<byte>, seq<seq<byte>>))
    requires Chunked(chunks) && n > 0
    ensures Chunked(r.1)
    ensures |r.0| <= n
    ensures r.0 == [] <==> chunks == []
  {
    if chunks == [] then ([], [])
    else if |chunks[0]| <= n then (chunks[0], chunks[1..])
    else (chunks[0][..n], [chunks[0][n..]] + chunks[1..])
  }

  /** A read takes bytes from the front of the stream and loses none. */
  lemma RecvConsumes(chunks: seq<seq<byte>>, n: nat)
    requires Chunked(chunks) && n > 0
    ensures Flatten(chunks) == Recv(chunks, n).0 + Flatten(Recv(chunks, n).1)
  {
    if chunks != [] && |chunks[0]| > n {
      var head, tail := chunks[0], Flatten(chunks[1..]);
      var rest := Recv(chunks, n).1;
      assert rest == [head[n..]] + chunks[1..];
      assert rest[1..] == chunks[1..];
      assert Flatten(rest) == head[n..] + tail;
      assert head == head[..n] + head[n..];
      assert Flatten(chunks) == head + tail;
    }
  }

  /**
   * The body loop of viewer.py: ask for what is still missing until `size`
   * bytes arrived or a read comes back empty.
   */
  function ReadBody(chunks: seq<seq<byte>>, size: nat): (r: (seq<byte>, seq<seq<byte>>))
    requires Chunked(chunks)
    ensures Chunked(r.1)
    ensures |r.0| <= size
    ensures |r.0| < size ==> r.1 == []
    decreases size
  {
    if size == 0 then ([], chunks)
    else
      var got := Recv(chunks, size);
      if got.0 == [] then ([], got.1)
      else
        var more := ReadBody(got.1, size - |got.0|);
        (got.0 + more.0, more.1)
  }

  /** The body loop takes bytes from the front of the stream and loses none. */
  lemma {:induction false} ReadBodyConsumes(chunks: seq<seq<byte>>, size: nat)
    requires Chunked(chunks)
    ensures Flatten(chunks) == ReadBody(chunks, size).0 + Flatten(ReadBody(chunks, size).1)
    decreases size
  {
    if size > 0 {
      var (packet, rest) := Recv(chunks, size);
      RecvConsumes(chunks, size);
      if packet != [] {
        ReadBodyUnfold(chunks, size, packet, rest);
        var more := ReadBody(rest, size - |packet|);
        ReadBodyConsumes(rest, size - |packet|);
        AppendAssoc(packet, more.0, Flatten(more.1));
      }
    }
  }

  /** One pass of the outer loop: the header bytes read and the body handed to the decoder. */
  datatype Received = Received(header: seq<byte>, data: seq<byte>)
  {
    /** `int.from_bytes(size_data, 'big')` */
    function Size(): nat { FromBigEndian(header) }
  }

  /** A whole 4-byte header announces a size below 2^32; a short one a smaller bound still. */
  lemma HeaderSizeBound(r: Received)
    requires 1 <= |r.header| <= 4
    ensures r.Size() < MaxPayload
    ensures |r.header| == 4 ==> ToBigEndian(r.Size(), 4) == r.header
  {
    FourBytes();
    if |r.header| < 4 {
      assert Pow256(|r.header|) <= Pow256(4) by {
        PowMonotone(|r.header|, 4);
      }
    }
    ToFromBigEndian(r.header);
  }

  /** 256^a <= 256^b for a <= b. */
  lemma {:induction false} PowMonotone(a: nat, b: nat)
    requires a <= b
    ensures Pow256(a) <= Pow256(b)
    decreases b
  {
    if a < b {
      PowMonotone(a, b - 1);
    }
  }

  /** What the receive loop consumed: each header followed by its body. */
  function Consumed(received: seq<Received>): seq<byte>
  {
    if received == [] then [] else received[0].header + received[0].data + Consumed(received[1..])
  }

  /** The passes the receive loop makes over a stream, one per header read that returned bytes. */
  function Frames(chunks: seq<seq<byte>>): (r: seq<Received>)
    requires Chunked(chunks)
    ensures r == [] <==> chunks == []
    ensures |r| <= |Flatten(chunks)|
    decreases |Flatten(chunks)|
  {
    var (header, rest) := Recv(chunks, 4);
    if header == [] then []
    else
      var (data, rest') := ReadBody(rest, FromBigEndian(header));
      RecvConsumes(chunks, 4);
      ReadBodyConsumes(rest, FromBigEndian(header));
      [Received(header, data)] + Frames(rest')
  }

  /**
   * Whatever the chunking, the receive loop consumes every byte once and in
   * order, a header is 1 to 4 bytes, a body never exceeds the size its header
   * announced, and only the last body can fall short of it.
   */
  lemma {:induction false} FramesFraming(chunks: seq<seq<byte>>)
    requires Chunked(chunks)
    ensures Consumed(Frames(chunks)) == Flatten(chunks)
    ensures forall r <- Frames(chunks) :: 1 <= |r.header| <= 4 && |r.data| <= r.Size()
    ensures forall i :: 0 <= i < |Frames(chunks)| - 1 ==> |Frames(chunks)[i].data| == Frames(chunks)[i].Size()
    decreases |Flatten(chunks)|
  {
    var (header, rest) := Recv(chunks, 4);
    RecvConsumes(chunks, 4);
    if header != [] {
      var (data, rest') := ReadBody(rest, FromBigEndian(header));
      ReadBodyConsumes(rest, FromBigEndian(header));
      FramesFraming(rest');
      var tail := Frames(rest');
      var r := Frames(chunks);
      assert r == [Received(header, data)] + tail;
      assert r[1..] == tail;
      assert Consumed(r) == header + data + Consumed(tail);
      assert |data| < r[0].Size() ==> tail == [];
    }
  }

  /**
   * The state of the body loop: `data` holds what arrived so far, and the
   * loop run on from `sock` completes `target`.
   */
  ghost predicate BodyInProgress(target: (seq<byte>, seq<seq<byte>>), size: nat, data: seq<byte>, sock: seq<seq<byte>>)
  {
    && Chunked(sock)
    && |data| <= size
    && target == (data + ReadBody(sock, size - |data|).0, ReadBody(sock, size - |data|).1)
  }

  lemma AppendAssoc(a: seq<byte>, b: seq<byte>, c: seq<byte>)
    ensures a + (b + c) == (a + b) + c
  {
  }

  /** One pass of the body loop that read some bytes. */
  lemma ReadBodyUnfold(sock: seq<seq<byte>>, n: nat, packet: seq<byte>, rest: seq<seq<byte>>)
    requires Chunked(sock) && n > 0
    requires Recv(sock, n) == (packet, rest) && packet != []
    ensures Chunked(rest) && |packet| <= n
    ensures ReadBody(sock, n) == (packet + ReadBody(rest, n - |packet|).0, ReadBody(rest, n - |packet|).1)
  {
  }

  /** A read that returned bytes appends them to `data`. */
  lemma BodyStep(target: (seq<byte>, seq<seq<byte>>), size: nat, data: seq<byte>, sock: seq<seq<byte>>, packet: seq<byte>, rest: seq<seq<byte>>)
    requires BodyInProgress(target, size, data, sock) && |data| < size
    requires Recv(sock, size - |data|) == (packet, rest) && packet != []
    ensures BodyInProgress(target, size, data + packet, rest)
  {
    var n := size - |data|;
    ReadBodyUnfold(sock, n, packet, rest);
    var more := ReadBody(rest, n - |packet|);
    assert size - |data + packet| == n - |packet|;
    AppendAssoc(data, packet, more.0);
  }

  /** A read that returned nothing leaves `data` as the result. */
  lemma BodyStop(target: (seq<byte>, seq<seq<byte>>), size: nat, data: seq<byte>, sock: seq<seq<byte>>)
    requires BodyInProgress(target, size, data, sock) && |data| < size
    requires Recv(sock, size - |data|).0 == []
    ensures target == (data, Recv(sock, size - |data|).1)
  {
    assert ReadBody(sock, size - |data|) == ([], Recv(sock, size - |data|).1);
    assert data + [] == data;
  }

  /** The inner loop of viewer.py: grow `data` until it holds `size` bytes or the stream ends. */
  method ReceiveBody(chunks: seq<seq<byte>>, size: nat) returns (data: seq<byte>, sock: seq<seq<byte>>)
    requires Chunked(chunks)
    ensures (data, sock) == ReadBody(chunks, size)
  {
    data, sock := [], chunks;
    ghost var target := ReadBody(chunks, size);
    assert data + ReadBody(sock, size).0 == target.0;
    while |data| < size
      invariant BodyInProgress(target, size, data, sock)
      decreases size - |data|
    {
      var got := Recv(sock, size - |data|);
      var packet := got.0;
      if packet == [] {
        BodyStop(target, size, data, sock);
        sock := got.1;
        return;
      }
      BodyStep(target, size, data, sock, packet, got.1);
      data, sock := data + packet, got.1;
    }
    assert ReadBody(sock, 0) == ([], sock);
    assert data + [] == data;
  }

  /** The receive loop of viewer.py, run until the header read comes back empty. */
  method ReceiveLoop(chunks: seq<seq<byte>>) returns (received: seq<Received>)
    requires Chunked(chunks)
    ensures received == Frames(chunks)
  {
    var sock := chunks;
    received := [];
    while true
      invariant Chunked(sock)
      invariant received + Frames(sock) == Frames(chunks)
      decreases |Flatten(sock)|
    {
      ghost var before := sock;
      var read := Recv(sock, 4);
      var sizeData := read.0;
      if sizeData == [] {
        break;
      }
      var size := FromBigEndian(sizeData);
      var data;
      data, sock := ReceiveBody(read.1, size);
      RecvConsumes(before, 4);
      ReadBodyConsumes(read.1, size);
      assert Frames(before) == [Received(sizeData, data)] + Frames(sock);
      received := received + [Received(sizeData, data)];
    }
  }

  // ---------------------------------------------------------------------------
  // Round trip with the controller's wire messages

  /** The socket after `m` more bytes were read from it, however they were read. */
  function Drop(chunks: seq<seq<byte>>, m: nat): (r: seq<seq<byte>>)
    requires Chunked(chunks)
    ensures Chunked(r)
  {
    if chunks == [] || m == 0 then chunks
    else if |chunks[0]| <= m then Drop(chunks[1..], m - |chunks[0]|)
    else [chunks[0][m..]] + chunks[1..]
  }

  /** Dropping leaves exactly the rest of the stream. */
  lemma {:induction false} DropRest(chunks: seq<seq<byte>>, m: nat)
    requires Chunked(chunks) && m <= |Flatten(chunks)|
    ensures Flatten(Drop(chunks, m)) == Flatten(chunks)[m..]
  {
    if chunks != [] && m != 0 {
      if |chunks[0]| <= m {
        DropRest(chunks[1..], m - |chunks[0]|);
      } else {
        var r := Drop(chunks, m);
        assert r[1..] == chunks[1..];
      }
    }
  }

  /** Dropping a, then b bytes is dropping a + b bytes. */
  lemma {:induction false} DropDrop(chunks: seq<seq<byte>>, a: nat, b: nat)
    requires Chunked(chunks)
    ensures Drop(Drop(chunks, a), b) == Drop(chunks, a + b)
  {
    if chunks != [] && a != 0 {
      if |chunks[0]| <= a {
        DropDrop(chunks[1..], a - |chunks[0]|, b);
      } else {
        var d := Drop(chunks, a);
        assert d[0] == chunks[0][a..] && d[1..] == chunks[1..];
        if b != 0 && |d[0]| > b {
          assert d[0][b..] == chunks[0][a + b..];
        }
      }
    }
  }

  /** A read that does not reach the end of the front chunk returns exactly what was asked for. */
  lemma RecvWithinChunk(chunks: seq<seq<byte>>, n: nat)
    requires Chunked(chunks) && n > 0
    requires chunks != [] && |chunks[0]| >= n
    ensures Recv(chunks, n) == (Flatten(chunks)[..n], Drop(chunks, n))
  {
    RecvConsumes(chunks, n);
  }

  /** When the stream holds `size` more bytes, the body loop gets all of them. */
  lemma {:induction false} ReadBodyFull(chunks: seq<seq<byte>>, size: nat)
    requires Chunked(chunks) && size <= |Flatten(chunks)|
    ensures ReadBody(chunks, size) == (Flatten(chunks)[..size], Drop(chunks, size))
    decreases size
  {
    if size > 0 {
      var (packet, rest) := Recv(chunks, size);
      RecvConsumes(chunks, size);
      if |chunks[0]| <= size {
        ReadBodyFull(rest, size - |packet|);
        assert Flatten(chunks)[..size] == packet + Flatten(rest)[..size - |packet|];
      } else {
        assert Flatten(chunks)[..size] == packet;
        assert ReadBody(rest, 0) == ([], rest);
        assert packet + [] == packet;
      }
    }
  }

  /**
   * Each header arrives whole: at the start of every message the chunk at the
   * front of the socket holds at least the four header bytes.
   */
  ghost predicate HeadersIntact(chunks: seq<seq<byte>>, payloads: seq<seq<byte>>)
    requires Chunked(chunks)
    decreases |payloads|
  {
    || payloads == []
    || (chunks != [] && |chunks[0]| >= 4 && HeadersIntact(Drop(chunks, 4 + |payloads[0]|), payloads[1..]))
  }

  /** The bodies handed to the decoder, in order. */
  function Bodies(received: seq<Received>): (r: seq<seq<byte>>)
    ensures |r| == |received|
    ensures forall i :: 0 <= i < |r| ==> r[i] == received[i].data
  {
    if received == [] then [] else [received[0].data] + Bodies(received[1..])
  }

  /** Only a socket without chunks carries no bytes. */
  lemma FlattenEmpty(chunks: seq<seq<byte>>)
    requires Chunked(chunks)
    ensures Flatten(chunks) == [] <==> chunks == []
  {
    if chunks != [] {
      assert Flatten(chunks)[0] == chunks[0][0];
    }
  }

  /** The first message of a wire stream: its header announces the payload's length. */
  lemma WireFront(payloads: seq<seq<byte>>)
    requires Sendable(payloads) && payloads != []
    ensures |Wire(payloads)| >= 4 + |payloads[0]|
    ensures FromBigEndian(Wire(payloads)[..4]) == |payloads[0]|
    ensures Wire(payloads)[4..4 + |payloads[0]|] == payloads[0]
    ensures Wire(payloads)[4 + |payloads[0]|..] == Wire(payloads[1..])
  {
    var p, m, w := payloads[0], EncodeMessage(payloads[0]).value, Wire(payloads[1..]);
    assert Wire(payloads) == m + w;
    assert |m| == 4 + |p| && m[4..] == p;
    assert (m + w)[..4] == m[..4];
    assert (m + w)[4..4 + |p|] == m[4..];
    assert (m + w)[4 + |p|..] == w;
  }

  /**
   * The first message of a wire stream, read from any chunking: four header
   * bytes announcing the payload's length, then the payload, then the rest.
   */
  lemma NextMessage(chunks: seq<seq<byte>>, payloads: seq<seq<byte>>)
    requires Chunked(chunks) && Sendable(payloads) && payloads != []
    requires Flatten(chunks) == Wire(payloads)
    ensures FromBigEndian(Wire(payloads)[..4]) == |payloads[0]|
    ensures ReadBody(chunks, 4) == (Wire(payloads)[..4], Drop(chunks, 4))
    ensures ReadBody(Drop(chunks, 4), |payloads[0]|) == (payloads[0], Drop(chunks, 4 + |payloads[0]|))
    ensures Flatten(Drop(chunks, 4 + |payloads[0]|)) == Wire(payloads[1..])
  {
    var p, rest := payloads[0], Drop(chunks, 4);
    WireFront(payloads);
    ReadBodyFull(chunks, 4);
    DropRest(chunks, 4);
    assert Flatten(rest)[..|p|] == p;
    ReadBodyFull(rest, |p|);
    DropDrop(chunks, 4, |p|);
    DropRest(chunks, 4 + |p|);
  }

  /** One pass of the receive loop, when the header read returned bytes. */
  lemma FramesUnfold(chunks: seq<seq<byte>>, header: seq<byte>, rest: seq<seq<byte>>, data: seq<byte>, rest': seq<seq<byte>>)
    requires Chunked(chunks) && header != [] && Recv(chunks, 4) == (header, rest)
    requires ReadBody(rest, FromBigEndian(header)) == (data, rest')
    ensures Frames(chunks) == [Received(header, data)] + Frames(rest')
  {
  }

  /**
   * The viewer recovers the payloads the controller sent, in order, however
   * the stream is chunked, as long as each header arrives whole.
   */
  lemma {:induction false} RoundTrip(chunks: seq<seq<byte>>, payloads: seq<seq<byte>>)
    requires Chunked(chunks) && Sendable(payloads)
    requires Flatten(chunks) == Wire(payloads)
    requires HeadersIntact(chunks, payloads)
    ensures Bodies(Frames(chunks)) == payloads
    decreases |payloads|
  {
    if payloads == [] {
      FlattenEmpty(chunks);
    } else {
      var p := payloads[0];
      var header, rest, rest' := Wire(payloads)[..4], Drop(chunks, 4), Drop(chunks, 4 + |p|);
      NextMessage(chunks, payloads);
      assert Recv(chunks, 4) == (header, rest) by {
        WireFront(payloads);
        RecvWithinChunk(chunks, 4);
      }
      RoundTrip(rest', payloads[1..]);
      FramesUnfold(chunks, header, rest, p, rest');
      assert Bodies([Received(header, p)] + Frames(rest')) == [p] + Bodies(Frames(rest'));
      assert payloads == [p] + payloads[1..];
    }
  }

  /** The controller's messages, one chunk per `sendall`. */
  function Messages(payloads: seq<seq<byte>>): (r: seq<seq<byte>>)
    requires Sendable(payloads)
    ensures Chunked(r)
    ensures Flatten(r) == Wire(payloads)
  {
    if payloads == [] then []
    else
      var m := [EncodeMessage(payloads[0]).value];
      assert (m + Messages(payloads[1..]))[1..] == Messages(payloads[1..]);
      m + Messages(payloads[1..])
  }

  /** When every message arrives as its own chunk, every header arrives whole. */
  lemma {:induction false} MessagesKeepHeadersIntact(payloads: seq<seq<byte>>)
    requires Sendable(payloads)
    ensures HeadersIntact(Messages(payloads), payloads)
    decreases |payloads|
  {
    if payloads != [] {
      var chunks := Messages(payloads);
      assert chunks[1..] == Messages(payloads[1..]);
      MessagesKeepHeadersIntact(payloads[1..]);
    }
  }

  /** The viewer recovers the payloads when each message arrives as one chunk. */
  lemma MessagesRoundTrip(payloads: seq<seq<byte>>)
    requires Sendable(payloads)
    ensures Bodies(Frames(Messages(payloads))) == payloads
  {
    MessagesKeepHeadersIntact(payloads);
    RoundTrip(Messages(payloads), payloads);
  }

  // ---------------------------------------------------------------------------
  // The header read is not retried

  /**
   * The header is read by one `recv(4)`, which may return fewer bytes when a
   * chunk boundary falls inside the header. Here the message for the one-byte
   * payload [7] arrives split after two bytes: the receive loop takes [0, 0]
   * as a header announcing an empty frame, and [7] is never delivered. The
   * model's loop goes on to read [0, 1, 7] as a header announcing 263 bytes
   * that never come; the program itself stops at the empty frame, because
   * decoding an empty buffer raises.
   */
  lemma ShortHeaderBreaksRoundTrip()
    ensures Sendable([[7]]) && Flatten([[0, 0], [0, 1, 7]]) == Wire([[7]])
    ensures Frames([[0, 0], [0, 1, 7]]) == [Received([0, 0], []), Received([0, 1, 7], [])]
    ensures Frames([[0, 0], [0, 1, 7]])[1].Size() == 263
    ensures Bodies(Frames([[0, 0], [0, 1, 7]])) != [[7]]
  {
    var payload: seq<byte> := [7];
    assert ToBigEndian(1, 4) == [0, 0, 0, 1];
    assert EncodeMessage(payload).value == [0, 0, 0, 1, 7];
    var first: seq<byte>, second: seq<byte> := [0, 0], [0, 1, 7];
    assert Recv([first, second], 4) == (first, [second]);
    assert [second][1..] == [];
    assert Recv([second], 4) == (second, []);
    assert FromBigEndian(first) == 0;
    assert FromBigEndian(second) == 263;
    assert ReadBody([], 263) == ([], []);
    assert Frames([second]) == [Received(second, [])];
  }

  /**
   * The receive loop with the header read like the body, until four bytes
   * arrived or the stream ended; a stream that ends inside a header ends the loop.
   */
  function FramesExactHeader(chunks: seq<seq<byte>>): (r: seq<Received>)
    requires Chunked(chunks)
    ensures forall f <- r :: |f.header| == 4 && |f.data| <= f.Size()
    decreases |Flatten(chunks)|
  {
    var (header, rest) := ReadBody(chunks, 4);
    if |header| < 4 then []
    else
      var (data, rest') := ReadBody(rest, FromBigEndian(header));
      ReadBodyConsumes(chunks, 4);
      ReadBodyConsumes(rest, FromBigEndian(header));
      [Received(header, data)] + FramesExactHeader(rest')
  }

  /** Reading the header exactly, the viewer recovers the payloads however the stream is chunked. */
  lemma {:induction false} RoundTripExactHeader(chunks: seq<seq<byte>>, payloads: seq<seq<byte>>)
    requires Chunked(chunks) && Sendable(payloads)
    requires Flatten(chunks) == Wire(payloads)
    ensures Bodies(FramesExactHeader(chunks)) == payloads
    decreases |payloads|
  {
    if payloads == [] {
      ReadBodyConsumes(chunks, 4);
    } else {
      var p := payloads[0];
      var header, rest, rest' := Wire(payloads)[..4], Drop(chunks, 4), Drop(chunks, 4 + |p|);
      NextMessage(chunks, payloads);
      RoundTripExactHeader(rest', payloads[1..]);
      FramesExactHeaderUnfold(chunks, header, rest, p, rest');
      assert Bodies([Received(header, p)] + FramesExactHeader(rest')) == [p] + Bodies(FramesExactHeader(rest'));
      assert payloads == [p] + payloads[1..];
    }
  }

  /** One pass of the corrected loop, when the header read returned four bytes. */
  lemma FramesExactHeaderUnfold(chunks: seq<seq<byte>>, header: seq<byte>, rest: seq<seq<byte>>, data: seq<byte>, rest': seq<seq<byte>>)
    requires Chunked(chunks) && |header| == 4 && ReadBody(chunks, 4) == (header, rest)
    requires ReadBody(rest, FromBigEndian(header)) == (data, rest')
    ensures FramesExactHeader(chunks) == [Received(header, data)] + FramesExactHeader(rest')
  {
  }
}
