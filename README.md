# Visual trigger controller: decision logic and video framing

This project models the per-frame decision logic of a camera-driven trigger
controller and the byte framing of the video stream it sends to a remote
viewer, and proves properties of that model in Dafny.

- `crossing.dfy` (module `Crossing`): `check_crossing`. Each current
  detection box is paired with the nearest box of the previous frame, with
  ties going to the first in list order. A crossing is reported when some pair
  moved from strictly left of the trigger line to at-or-right of it. Centroids
  `x + w/2` are kept exact by doubling them (`2x + w`, `2y + h`), and the
  Euclidean distance is replaced by the squared distance, which orders pairs
  the same way. The Python truthiness test on the previous centroid is kept:
  a nearest previous centroid at x = 0 never counts.
- `framing.dfy` (module `Framing`): the wire message
  `len(data).to_bytes(4, 'big') + data`, and the stream of messages a
  connection carries.
- `controller.dfy` (module `Controller`): the control loop. The class
  `ControlLoop` holds `last_fire`, `prev_targets` and the optional viewer
  connection and runs one pass of the loop per `Tick`. The pure functions
  `Step` and `Run` specify one pass and a whole run. The camera, detector,
  clock, accept, image encoder and send outcome are the `Inputs` of a tick.
- `viewer.dfy` (module `Viewer`): the viewer's receive loop. The socket is a
  sequence of non-empty chunks; `recv(n)` returns at most `n` bytes and never
  crosses a chunk boundary, which covers every way a TCP stream can be
  segmented.
- `bytes.dfy` and `wrappers.dfy`: bytes, big-endian integers, and `Option`
  for Python's `None`.

`check_crossing` takes lists and builds nothing from them, so the model passes
them as immutable sequences: the function cannot modify its inputs.

A zero-length image encoding is not treated as a failure: the code sends the
4-byte header `0` with an empty body, and the model does the same. The `jpeg`
input is `None` only when the encoder raises.

## Model

| member | source | states |
|---|---|---|
| Crossing.PairCrosses | crossing.py:24 | a pair that crosses has a non-zero previous centroid x strictly left of the current one |
| Crossing.Crosses | crossing.py:8-26 | when a crossing is reported, some current box and some previous box form a crossing pair |
| Crossing.CheckCrossing | crossing.py:5-26 | the result is true exactly when some current box, paired with its first-nearest previous box, has a non-zero previous centroid x strictly left of the line and a current centroid x at or right of it; false when either list is empty |
| Crossing.NearestCenterX | crossing.py:12-22 | the inner scan yields None for an empty previous list, otherwise twice the centroid x of the first previous box at minimal distance |
| Crossing.Nearest | crossing.py:15-22 | the chosen index is at minimal distance from the current box and strictly closer than every earlier index (strict `<` keeps the first of equals) |
| Crossing.FirstNearestUnique | crossing.py:15-22 | at most one index is the first nearest, so the association is deterministic |
| Crossing.NoCrossingFromTheRight | crossing.py:24 | no crossing when every previous centroid x is at or right of the line |
| Crossing.NoCrossingToTheLeft | crossing.py:24 | no crossing when every current centroid x is left of the line |
| Crossing.CrossingWitnessMoves | crossing.py:9-26 | a crossing found in one order of the current boxes is found in any permutation of them |
| Crossing.CrossingIgnoresCurrentOrder | crossing.py:9-26 | the result is the same for every permutation of the current boxes |
| Crossing.ZeroCentroidNeverCrosses | crossing.py:24 | a pair moving from centroid x = 0 to x = 110 across a line at 50 is not reported, because 0 is falsy |
| Crossing.DetectorBoxesCrossGeometrically | crossing.py:24 | for previous boxes with non-negative corner and positive size the truthiness test never fails, and the result is the plain geometric crossing |
| Crossing.WorkedExample | crossing.py:10-24 | previous (100,50,20,20) and current (200,52,22,18) cross a line at 150 but not one at 250 |
| Crossing.TieGoesToFirst | crossing.py:19 | between two equidistant previous boxes the first is chosen |
| Crossing.PreviousOrderDecidesTies | crossing.py:15-24 | with an equidistant crossing and non-crossing previous box, the result follows whichever comes first |
| Bytes.ToBigEndian | main.py:98 | the k-byte encoding of a number below 256^k has exactly k bytes |
| Bytes.FromBigEndian | viewer.py:18 | a string of k bytes decodes to a number below 256^k |
| Bytes.FromToBigEndian | main.py:98 | decoding a k-byte big-endian encoding gives the number back |
| Bytes.ToFromBigEndian | viewer.py:18 | encoding a decoded byte string at its own length gives the bytes back |
| Framing.EncodeMessage | main.py:98 | a message exists exactly when the length is below 2^32 (else `to_bytes` raises); it is 4 + len bytes, its first 4 bytes decode to the length and the rest is the payload |
| Framing.Wire | main.py:98 | the stream after n messages has at least 4n bytes, and is empty exactly when nothing was sent |
| Framing.WireAppend | main.py:98 | sending one more payload appends its message to the connection's stream |
| Controller.TriggerLine | main.py:52 | `int(w * 0.75)` equals `(3 * w) / 4` and lies in `[0, w]` |
| Controller.Step | main.py:67-101 | a pass fires only with a frame and an expired cooldown, and then sets `last_fire` to now; otherwise `last_fire` is unchanged; after a pass with a frame a connection is held only if a message was sent on it, and it is the one held before unless none was |
| Controller.Run | main.py:67-101 | a run fires at most once per pass of the loop |
| Controller.ControlLoop.constructor | main.py:52-63 | the loop starts with `last_fire = 0.0`, no previous targets, no connection, and the trigger line of the frame width |
| Controller.ControlLoop.Tick | main.py:67-101 | the new loop state, the fire decision and the fire history are those of `Step`; the fire times stay more than 3 seconds apart; the payloads delivered on the held connection grow by the tick's image or reset when the connection is dropped or replaced |
| Controller.ControlLoop.Arbitrate | main.py:79-84 | fires exactly when strictly more than 3 seconds passed since the last fire and a crossing is found; `last_fire` becomes now exactly when it fires |
| Controller.ControlLoop.Stream | main.py:88-101 | accepts only while no connection is held; keeps the connection exactly when an image was encoded, its message fits the header and the send succeeded, and drops it otherwise |
| Controller.SpacedPairwise | main.py:80-83 | spacing between consecutive fires gives spacing between any two fires |
| Controller.RunFiresSpaced | main.py:80-83 | over any sequence of ticks, whatever the clock does, every fire is more than 3 seconds after the one before it and after the starting `last_fire`, and `last_fire` ends at the last fire time |
| Controller.FiresAreCooldownApart | main.py:55-83 | from the initial state any two fires of a run are more than 3 seconds apart |
| Controller.FirstTickNeverFires | main.py:55-56 | the first tick never fires, since there are no previous targets |
| Controller.FailedReadChangesNothing | main.py:68-71 | a tick whose frame read fails changes no state and sends nothing |
| Controller.FrameTick | main.py:79-86 | a tick with a frame fires exactly when the cooldown expired and a crossing is found, sets `last_fire` to now exactly when it fires, and always replaces the previous targets, even while cooling |
| Controller.StreamingDoesNotAffectFiring | main.py:79-101 | ticks that differ only in accept, encoding or send outcome fire alike and leave the same `last_fire` and previous targets |
| Controller.ConnectionLifecycle | main.py:88-101 | a held connection is never replaced; a connection is held after a tick exactly when a message was delivered, and that message is the length-prefixed encoding of the image |
| Viewer.Recv | viewer.py:15 | a read returns at most n bytes, and none exactly at the end of the stream |
| Viewer.RecvConsumes | viewer.py:15-23 | a read takes bytes from the front of the stream and loses none |
| Viewer.ReadBody | viewer.py:21-26 | the body never exceeds the announced size, and falls short only when the stream ended |
| Viewer.ReadBodyConsumes | viewer.py:21-26 | the body loop takes bytes from the front of the stream and loses none |
| Viewer.ReceiveBody | viewer.py:21-26 | the inner loop returns the body and the socket that the body-loop specification gives |
| Viewer.Frames | viewer.py:14-26 | the loop makes no pass exactly on an empty stream, and at most one pass per byte |
| Viewer.ReceiveLoop | viewer.py:14-26 | the outer loop produces exactly the passes of the receive specification, stopping when a header read returns nothing |
| Viewer.HeaderSizeBound | viewer.py:15-18 | a header of 1 to 4 bytes announces a size below 2^32, and a whole header is the 4-byte encoding of its size |
| Viewer.FramesFraming | viewer.py:14-26 | whatever the chunking, the loop consumes every byte once and in order, each header has 1 to 4 bytes, no body exceeds its announced size, and only the last body can fall short |
| Viewer.DropRest | viewer.py:15-23 | dropping m bytes leaves exactly the rest of the stream |
| Viewer.DropDrop | viewer.py:15-23 | dropping a bytes then b bytes is dropping a + b bytes |
| Viewer.RecvWithinChunk | viewer.py:15 | a read that stays within the front chunk returns exactly the bytes asked for |
| Viewer.ReadBodyFull | viewer.py:21-26 | when the stream holds the announced size, the body loop gets exactly those bytes |
| Viewer.FlattenEmpty | viewer.py:16 | only a socket without chunks carries no bytes |
| Viewer.WireFront | main.py:98 | the first message of a stream announces the first payload's length and is followed by the rest of the stream |
| Viewer.RoundTrip | viewer.py:14-26 | the viewer recovers the sent payloads in order, however the stream is chunked, as long as each header arrives whole |
| Viewer.Messages | main.py:98 | one chunk per `sendall` carries exactly the connection's stream |
| Viewer.MessagesKeepHeadersIntact | main.py:98 | when each message arrives as its own chunk every header arrives whole |
| Viewer.MessagesRoundTrip | viewer.py:14-26 | the viewer recovers the payloads when each message arrives as one chunk |
| Viewer.ShortHeaderBreaksRoundTrip | viewer.py:15-18 | the message for payload [7], split after two bytes, is read as an empty frame, and [7] is never delivered (the model's loop then reads a header announcing 263 bytes) |
| Viewer.FramesExactHeader | viewer.py:14-26 | every pass of the corrected loop has a whole 4-byte header and a body within its announced size |
| Viewer.RoundTripExactHeader | viewer.py:15-26 | reading the header until four bytes arrived, the viewer recovers the payloads in order however the stream is chunked |

## Left out

- detection.py (colour thresholding and contour extraction): the detector is an opaque source of `(x, y, w, h)` boxes in each tick's input.
- firing.py (servo driving and its sleeps): `fire_gun` is the `fired` result of a tick.
- testpi.py (a Flask streaming server with a camera thread) and test.py (a camera display test): an alternate transport and I/O only.
- main.py:9-50: killing stale processes, opening the camera and the first-frame retry are device I/O; only the frame width enters the model, through the constructor.
- main.py:58-62 and the accept timeout: the listening socket is left out; the outcome of `server.accept()` is an input.
- main.py:74-77 and 96-97: drawing on the frame and JPEG encoding; the encoded image is an opaque byte sequence, `None` when the encoder raises.
- `time.sleep` pacing (main.py:70, 103) and the value of `time.time()`: the time of a tick is an input, a real number.
- The float arithmetic of crossing.py:10-18 (`/ 2`, `** 0.5`, `float('inf')`): the model uses exact doubled coordinates and squared distances. Float rounding for very large coordinates is not modelled.
- Crossing.NearestCenterX: the source also tracks `prev_center_y`, which is never read; the model does not keep it.
- Controller.ControlLoop.Stream: a `sendall` that fails after sending part of the message is modelled as a send that delivered nothing. The bytes already written, and `conn.close()`, are not modelled.
- Closing the sockets and the camera after the loop (main.py:105-107, viewer.py:38-40): unreachable after `while True` in main.py, and I/O in viewer.py.
- viewer.py:29-36: image decoding, display and the ESC key. The model ends a pass with the header and body it hands to the decoder, so the ESC exit is not modelled.
- Viewer.ReceiveLoop: decoding an empty body raises in OpenCV (viewer.py:30, outside any `try`), which ends the viewer. The model goes on to the next header instead. So after a zero-length payload, a header followed by the end of the stream, or a short header announcing 0, the program stops where the model continues.
- Controller.ControlLoop.Tick: the accepted connection is blocking, so `sendall` (main.py:98) can wait indefinitely on a slow viewer and stall every later pass, firing included. In the model every tick completes, and a send either completes or fails.
- Viewer.RoundTrip: it requires every header to arrive within one chunk; `ShortHeaderBreaksRoundTrip` shows the code fails without this.

## Findings

| source | as written | input that shows it | evidently intended | confidence | as-written member | corrected member |
|---|---|---|---|---|---|---|
| viewer.py:15-18 | the 4-byte header is read by a single `recv(4)`, which may return fewer bytes, and a short read is decoded as a shorter number | the message `0,0,0,1,7` for payload `[7]` arriving as the segments `0,0` and `0,1,7` | read the header until four bytes arrived, like the body | medium, not executed | Viewer.ShortHeaderBreaksRoundTrip | Viewer.RoundTripExactHeader |
