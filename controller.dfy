/**
 * The control loop of main.py: once per captured frame, fire when a target
 * crossed the trigger line and the cooldown has expired, retire the current
 * detections into the previous ones, and stream the annotated frame to at most
 * one viewer, dropping the viewer on any failure.
 *
 * The camera, the detector, the clock, the listening socket and the servo are
 * outside the model: each tick receives what they produced as `Inputs`, and
 * `Tick` reports whether `fire_gun` was called.
 */
module Controller {
  import opened Wrappers
  import opened Bytes
  import opened Crossing
  import opened Framing

  /** Seconds that must pass after a fire before the next one. */
  const Cooldown: real := 3.0

  /** `int(w * 0.75)`: the trigger line at three quarters of the frame width. */
  function TriggerLine(width: nat): (lineX: int)
    ensures lineX == (3 * width) / 4
    ensures 0 <= lineX <= width
  {
    var q := (3 * width) / 4;
    assert (q as real) <= (width as real) * 0.75 < (q as real) + 1.0;
    ((width as real) * 0.75).Floor
  }

  /** An accepted viewer connection; its identity is all the model needs. */
  type Connection = nat

  /** A frame that was read: the detector's boxes and the encoded annotated image (None if encoding raised). */
  datatype Capture = Capture(targets: seq<Box>, jpeg: Option<seq<byte>>)

  /** What one pass of the loop receives from the outside world. */
  datatype Inputs = Inputs(
    frame: Option<Capture>,        // None: cap.read() failed
    now: real,                     // time.time()
    accepted: Option<Connection>,  // what server.accept() returned before its timeout
    sendOk: bool)                  // whether conn.sendall() completed

  /** The loop's variables `last_fire`, `prev_targets` and `conn`. */
  datatype LoopState = LoopState(lastFire: real, prevTargets: seq<Box>, conn: Option<Connection>)

  /** `last_fire = 0.0`, `prev_targets = []`, `conn = None`. */
  function Initial(): LoopState
  {
    LoopState(0.0, [], None)
  }

  /** The cooldown gate: strictly more than `Cooldown` seconds since the last fire. */
  predicate Armed(now: real, lastFire: real)
  {
    now - lastFire > Cooldown
  }

  /** One pass of the loop: the new state, whether it fired, and the wire message it delivered. */
  datatype Outcome = Outcome(next: LoopState, fired: bool, sent: Option<seq<byte>>)

  /** The specification of one pass of the loop. */
  function Step(s: LoopState, lineX: int, t: Inputs): (o: Outcome)
    ensures o.fired ==> t.frame.Some? && Armed(t.now, s.lastFire) && o.next.lastFire == t.now
    ensures !o.fired ==> o.next.lastFire == s.lastFire
    ensures t.frame.Some? && o.next.conn.Some? ==> o.sent.Some? && (s.conn.None? || o.next.conn == s.conn)
  {
    match t.frame
    case None => Outcome(s, false, None)
    case Some(capture) =>
      var fired := Armed(t.now, s.lastFire) && Crosses(capture.targets, s.prevTargets, lineX);
      var conn := if s.conn.None? then t.accepted else s.conn;
      var message := if capture.jpeg.Some? then EncodeMessage(capture.jpeg.value) else None;
      var delivered := conn.Some? && message.Some? && t.sendOk;
      Outcome(
        LoopState(if fired then t.now else s.lastFire, capture.targets, if delivered then conn else None),
        fired,
        if delivered then message else None)
  }

  /**
   * Every fire time is more than `Cooldown` after the one before it, and the
   * first more than `Cooldown` after `start`.
   */
  ghost predicate SpacedFrom(start: real, fires: seq<real>)
  {
    && (|fires| > 0 ==> fires[0] - start > Cooldown)
    && (forall i :: 0 < i < |fires| ==> fires[i] - fires[i - 1] > Cooldown)
  }

  /** Spacing between neighbours gives spacing between any two fires. */
  lemma {:induction false} SpacedPairwise(start: real, fires: seq<real>, i: nat, j: nat)
    requires SpacedFrom(start, fires)
    requires i < j < |fires|
    ensures fires[j] - fires[i] > Cooldown
    decreases j - i
  {
    if i + 1 < j {
      SpacedPairwise(start, fires, i, j - 1);
      assert fires[j] - fires[j - 1] > Cooldown;
    }
  }

  /** The fire times of a run of the loop from `s` over the ticks `ts`, and the state it ends in. */
  function Run(s: LoopState, lineX: int, ts: seq<Inputs>): (r: (LoopState, seq<real>))
    ensures |r.1| <= |ts|
    decreases |ts|
  {
    if ts == [] then (s, [])
    else
      var o := Step(s, lineX, ts[0]);
      var (last, fires) := Run(o.next, lineX, ts[1..]);
      (last, if o.fired then [ts[0].now] + fires else fires)
  }

  /** A fire more than `Cooldown` after `start`, followed by fires spaced from it. */
  lemma SpacedCons(start: real, t: real, fires: seq<real>)
    requires t - start > Cooldown && SpacedFrom(t, fires)
    ensures SpacedFrom(start, [t] + fires)
  {
    var all := [t] + fires;
    forall i | 0 < i < |all|
      ensures all[i] - all[i - 1] > Cooldown
    {
      if i > 1 {
        assert all[i] == fires[i - 1] && all[i - 1] == fires[i - 2];
      }
    }
  }

  /** `last_fire` is the time of the last fire, or `start` when there was none. */
  ghost predicate EndsAtLastFire(start: real, r: (LoopState, seq<real>))
  {
    r.0.lastFire == if r.1 == [] then start else r.1[|r.1| - 1]
  }

  /**
   * Over any sequence of ticks, whatever the clock does, any two fires are
   * more than `Cooldown` apart, and the first is more than `Cooldown` after
   * the starting `last_fire`.
   */
  lemma {:induction false} RunFiresSpaced(s: LoopState, lineX: int, ts: seq<Inputs>)
    ensures SpacedFrom(s.lastFire, Run(s, lineX, ts).1)
    ensures EndsAtLastFire(s.lastFire, Run(s, lineX, ts))
    decreases |ts|
  {
    if ts != [] {
      var o := Step(s, lineX, ts[0]);
      var r := Run(o.next, lineX, ts[1..]);
      RunFiresSpaced(o.next, lineX, ts[1..]);
      assert Run(s, lineX, ts) == (r.0, if o.fired then [ts[0].now] + r.1 else r.1);
      if o.fired {
        SpacedCons(s.lastFire, ts[0].now, r.1);
      }
    }
  }

  /** From the initial state any two fires of a run are more than three seconds apart. */
  lemma FiresAreCooldownApart(lineX: int, ts: seq<Inputs>, i: nat, j: nat)
    requires i < j < |Run(Initial(), lineX, ts).1|
    ensures Run(Initial(), lineX, ts).1[j] - Run(Initial(), lineX, ts).1[i] > Cooldown
  {
    RunFiresSpaced(Initial(), lineX, ts);
    SpacedPairwise(0.0, Run(Initial(), lineX, ts).1, i, j);
  }

  /** The first tick never fires: there are no previous detections to cross from. */
  lemma FirstTickNeverFires(lineX: int, t: Inputs)
    ensures !Step(Initial(), lineX, t).fired
  {
  }

  /** A tick whose frame read fails changes nothing and sends nothing. */
  lemma FailedReadChangesNothing(s: LoopState, lineX: int, t: Inputs)
    requires t.frame.None?
    ensures Step(s, lineX, t) == Outcome(s, false, None)
  {
  }

  /**
   * A tick that reads a frame fires exactly when the cooldown has expired and
   * a crossing is found, sets `last_fire` to now exactly when it fires, and
   * replaces the previous detections by the current ones, even while cooling.
   */
  lemma FrameTick(s: LoopState, lineX: int, t: Inputs)
    requires t.frame.Some?
    ensures Step(s, lineX, t).fired <==>
      t.now - s.lastFire > Cooldown && Crosses(t.frame.value.targets, s.prevTargets, lineX)
    ensures Step(s, lineX, t).next.lastFire == if Step(s, lineX, t).fired then t.now else s.lastFire
    ensures Step(s, lineX, t).next.prevTargets == t.frame.value.targets
  {
  }

  /**
   * The outcome of streaming never affects the decision: ticks that differ
   * only in what the viewer side did (accept, encoding, send) fire alike and
   * leave the same `last_fire` and `prev_targets`. A send that blocks, and so
   * delays every later tick, is not among the outcomes modelled.
   */
  lemma StreamingDoesNotAffectFiring(s: LoopState, lineX: int, t: Inputs, t': Inputs)
    requires t.now == t'.now
    requires t.frame.None? <==> t'.frame.None?
    requires t.frame.Some? ==> t.frame.value.targets == t'.frame.value.targets
    ensures Step(s, lineX, t).fired == Step(s, lineX, t').fired
    ensures Step(s, lineX, t).next.lastFire == Step(s, lineX, t').next.lastFire
    ensures Step(s, lineX, t).next.prevTargets == Step(s, lineX, t').next.prevTargets
  {
  }

  /**
   * The viewer connection: a held connection is never replaced by a new
   * accept; after a tick with a frame a connection is held only if the
   * message was delivered on it, and what was delivered is the length-prefixed
   * encoding of the image.
   */
  lemma ConnectionLifecycle(s: LoopState, lineX: int, t: Inputs)
    requires t.frame.Some?
    ensures s.conn.Some? && Step(s, lineX, t).next.conn.Some? ==> Step(s, lineX, t).next.conn == s.conn
    ensures Step(s, lineX, t).next.conn.Some? <==> Step(s, lineX, t).sent.Some?
    ensures Step(s, lineX, t).sent.Some? ==>
      && t.sendOk
      && t.frame.value.jpeg.Some?
      && |t.frame.value.jpeg.value| < MaxPayload
      && Step(s, lineX, t).sent == EncodeMessage(t.frame.value.jpeg.value)
  {
  }

  /** The loop's state and the ghost history its safety argument is about. */
  class ControlLoop {
    const lineX: int
    var lastFire: real
    var prevTargets: seq<Box>
    var conn: Option<Connection>
    /** The times at which the loop fired, oldest first. */
    ghost var fires: seq<real>
    /** The payloads delivered on the current viewer connection, in order. */
    ghost var streamed: seq<seq<byte>>

    ghost predicate Valid()
      reads this
    {
      && SpacedFrom(0.0, fires)
      && lastFire == (if fires == [] then 0.0 else fires[|fires| - 1])
      && (conn.None? ==> streamed == [])
      && Sendable(streamed)
    }

    function Snapshot(): LoopState
      reads this
    {
      LoopState(lastFire, prevTargets, conn)
    }

    /** The state after startup, with the trigger line derived from the first frame's width. */
    constructor (width: nat)
      ensures Valid()
      ensures lineX == TriggerLine(width)
      ensures Snapshot() == Initial()
      ensures fires == [] && streamed == []
    {
      lineX := TriggerLine(width);
      lastFire := 0.0;
      prevTargets := [];
      conn := None;
      fires := [];
      streamed := [];
    }

    /** One pass of `while True`; `fired` says whether `fire_gun` was called. */
    method Tick(t: Inputs) returns (fired: bool)
      requires Valid()
      modifies this
      ensures Valid()
      ensures Snapshot() == Step(old(Snapshot()), lineX, t).next
      ensures fired == Step(old(Snapshot()), lineX, t).fired
      ensures fires == if fired then old(fires) + [t.now] else old(fires)
      ensures t.frame.None? ==> streamed == old(streamed)
      ensures t.frame.Some? && conn.None? ==> streamed == []
      ensures t.frame.Some? && conn.Some? ==>
        streamed == (if old(conn).None? then [] else old(streamed)) + [t.frame.value.jpeg.value]
    {
      fired := false;
      if t.frame.None? {
        return;
      }
      var capture := t.frame.value;
      fired := Arbitrate(capture.targets, t.now);
      prevTargets := capture.targets;
      Stream(capture.jpeg, t.accepted, t.sendOk);
    }

    /** The cooldown gate and the crossing test (main.py:79-84). */
    method Arbitrate(targets: seq<Box>, now: real) returns (fired: bool)
      requires Valid()
      modifies this`lastFire, this`fires
      ensures Valid()
      ensures fired == (Armed(now, old(lastFire)) && Crosses(targets, prevTargets, lineX))
      ensures lastFire == if fired then now else old(lastFire)
      ensures fires == if fired then old(fires) + [now] else old(fires)
    {
      fired := false;
      if now - lastFire > Cooldown {
        var crossing := CheckCrossing(targets, prevTargets, lineX);
        if crossing {
          fired := true;
          lastFire := now;
          fires := fires + [now];
        }
      }
    }

    /** Accept while no viewer is held, then send the framed image; any failure drops the viewer (main.py:88-101). */
    method Stream(jpeg: Option<seq<byte>>, accepted: Option<Connection>, sendOk: bool)
      requires Valid()
      modifies this`conn, this`streamed
      ensures Valid()
      ensures var held := if old(conn).None? then accepted else old(conn);
              var message := if jpeg.Some? then EncodeMessage(jpeg.value) else None;
              conn == if held.Some? && message.Some? && sendOk then held else None
      ensures conn.None? ==> streamed == []
      ensures conn.Some? ==> streamed == (if old(conn).None? then [] else old(streamed)) + [jpeg.value]
    {
      if conn.None? {
        conn := accepted;
        streamed := [];
      }
      if conn.Some? {
        var message := if jpeg.Some? then EncodeMessage(jpeg.value) else None;
        if message.Some? && sendOk {
          streamed := streamed + [jpeg.value];
        } else {
          conn := None;
          streamed := [];
        }
      }
    }
  }
}
