/** The firmware's control channel and its small counters: how a WebSocket
    frame from the phone updates the control state, the reset when a station
    leaves the access point, the station-mode reconnect counter, the camera
    initialisation retry loop and the streaming frame interval. */
module Firmware {
  import opened Common

  /** `RC_CONTROL_LEN`: the control frame is `[UP, DOWN, LEFT, RIGHT, STOP]`. */
  const ControlLen: nat := 5
  /** The length that the phone actually sends, and that the state log reads. */
  const CorrectedControlLen: nat := 6
  /** `WIFI_STA_MAX_RETRY` */
  const StaMaxRetry: nat := 5
  /** `STREAM_FPS` */
  const StreamFps: int := 5
  /** `CAM_INIT_MAX_RETRIES` */
  const CamInitMaxRetries: int := 1

  /* ---------- ws_root_handler ---------- */

  datatype FrameType = TextFrame | BinaryFrame | OtherFrame

  /** What one call of the WebSocket handler sees: the opening handshake, a
      failure to read the frame header or payload, a failed allocation, or
      a whole frame. */
  datatype Recv =
    | Handshake
    | HeaderError
    | NoMemory
    | PayloadError
    | Frame(kind: FrameType, payload: seq<byte>)

  /** The handler's visible effect besides the control state. A state log
      line carries the indices of `controlState` it reads. */
  datatype Effect = Quiet | SessionClosed | StateLogged(indices: seq<nat>) | TextLogged(text: seq<byte>)

  datatype Handled = Handled(state: seq<byte>, effect: Effect)

  /** `ws_root_handler` with a control array of `controlLen` bytes: a binary
      frame of exactly that length replaces the state when it differs from
      it, and the change is logged; a text frame is logged; anything else,
      an empty frame included, changes nothing. */
  function HandleRecv(controlLen: nat, state: seq<byte>, r: Recv): (h: Handled)
    requires |state| == controlLen
    ensures |h.state| == controlLen
    ensures h.state != state <==>
              r.Frame? && r.kind == BinaryFrame && |r.payload| == controlLen && r.payload != state
    ensures h.state != state ==> h.state == r.payload && h.effect.StateLogged?
    ensures h.effect.StateLogged? ==> h.state != state
    ensures h.effect == SessionClosed <==> r.HeaderError? || r.PayloadError?
  {
    match r
    case Handshake => Handled(state, Quiet)
    case HeaderError => Handled(state, SessionClosed)
    case NoMemory => Handled(state, Quiet)
    case PayloadError => Handled(state, SessionClosed)
    case Frame(kind, payload) =>
      if |payload| == 0 then Handled(state, Quiet)
      else if kind == BinaryFrame && |payload| == controlLen then
        if payload != state then Handled(payload, StateLogged(LogIndices)) else Handled(state, Quiet)
      else if kind == TextFrame then Handled(state, TextLogged(payload))
      else Handled(state, Quiet)
  }

  /** The indices of `controlState` that the state log line reads:
      UP, DOWN, LEFT, RIGHT, STOP and STEER. */
  const LogIndices: seq<nat> := [0, 1, 2, 3, 4, 5]

  /** Every read of a state log line in `h` is an index of the state. */
  predicate ReadsInBounds(h: Handled)
  {
    h.effect.StateLogged? ==> forall i :: 0 <= i < |h.effect.indices| ==> h.effect.indices[i] < |h.state|
  }

  /** As written: every frame that changes the five-byte state logs a line
      that reads past the end of the array. The first frame after power-up
      that presses UP is one. */
  lemma LogReadsPastEnd(state: seq<byte>, r: Recv)
    requires |state| == ControlLen
    ensures var h := HandleRecv(ControlLen, state, r);
            h.state != state ==> h.effect.StateLogged? && !ReadsInBounds(h)
    ensures !ReadsInBounds(HandleRecv(ControlLen, Fill(ControlLen, 0), Frame(BinaryFrame, [1, 0, 0, 0, 0])))
  {
    var h := HandleRecv(ControlLen, state, r);
    if h.state != state {
      assert h.effect.indices[5] == 5;
    }
    var z := Fill(ControlLen, 0);
    assert z[0] == 0;
    var hz := HandleRecv(ControlLen, z, Frame(BinaryFrame, [1, 0, 0, 0, 0]));
    assert hz.state != z;
    assert hz.effect.indices[5] == 5;
  }

  /** With the six-byte array the phone sends, every read of every log line
      is inside the array, whatever arrives. */
  lemma CorrectedLogInBounds(state: seq<byte>, r: Recv)
    requires |state| == CorrectedControlLen
    ensures ReadsInBounds(HandleRecv(CorrectedControlLen, state, r))
  {
  }

  /** `WIFI_EVENT_AP_STADISCONNECTED`: the state is cleared. */
  function StationLeft(controlLen: nat): (state: seq<byte>)
    ensures |state| == controlLen
    ensures forall i :: 0 <= i < |state| ==> state[i] == 0
  {
    Fill(controlLen, 0)
  }

  datatype ControlEvent = Received(r: Recv) | StationDisconnected

  function ControlStep(controlLen: nat, state: seq<byte>, e: ControlEvent): (s: seq<byte>)
    requires |state| == controlLen
    ensures |s| == controlLen
  {
    match e
    case Received(r) => HandleRecv(controlLen, state, r).state
    case StationDisconnected => StationLeft(controlLen)
  }

  function ControlRun(controlLen: nat, state: seq<byte>, events: seq<ControlEvent>): seq<byte>
    requires |state| == controlLen
    decreases |events|
  {
    if |events| == 0 then state
    else ControlRun(controlLen, ControlStep(controlLen, state, events[0]), events[1..])
  }

  /** Over any sequence of events, the state is always a frame of the
      configured length, and it is either the starting state, all zero, or
      the payload of some accepted binary frame. */
  lemma {:induction false} ControlRunOrigin(controlLen: nat, state: seq<byte>, events: seq<ControlEvent>)
    requires |state| == controlLen
    ensures var s := ControlRun(controlLen, state, events);
            && |s| == controlLen
            && (|| s == state
                || s == Fill(controlLen, 0)
                || exists i :: 0 <= i < |events| && events[i] == Received(Frame(BinaryFrame, s)))
    decreases |events|
  {
    if |events| > 0 {
      var next := ControlStep(controlLen, state, events[0]);
      ControlRunOrigin(controlLen, next, events[1..]);
      var s := ControlRun(controlLen, next, events[1..]);
      if s == next && next != state && next != Fill(controlLen, 0) {
        assert events[0].Received?;
        assert events[0] == Received(Frame(BinaryFrame, s));
      } else if exists i :: 0 <= i < |events[1..]| && events[1..][i] == Received(Frame(BinaryFrame, s)) {
        var i :| 0 <= i < |events[1..]| && events[1..][i] == Received(Frame(BinaryFrame, s));
        assert events[i + 1] == Received(Frame(BinaryFrame, s));
      }
    }
  }

  /* ---------- Station-mode reconnect counter ---------- */

  datatype StaEvent = StaConnected | StaDisconnected
  datatype StaAction = NoAction | Reconnect | SignalFail

  datatype StaStepResult = StaStepResult(count: nat, action: StaAction)

  /** The `sta_retry_count` handling of the Wi-Fi event handler. The fail
      bit is only set when the event group exists. */
  function StaStep(count: nat, hasEventGroup: bool, e: StaEvent): (r: StaStepResult)
    ensures count <= StaMaxRetry ==> r.count <= StaMaxRetry
    ensures r.action == Reconnect <==> e == StaDisconnected && count < StaMaxRetry
    ensures r.action == Reconnect ==> r.count == count + 1
    ensures e == StaConnected ==> r.count == 0 && r.action == NoAction
    ensures e == StaDisconnected && count >= StaMaxRetry ==>
              r.count == count && (r.action == SignalFail <==> hasEventGroup)
  {
    match e
    case StaConnected => StaStepResult(0, NoAction)
    case StaDisconnected =>
      if count < StaMaxRetry then StaStepResult(count + 1, Reconnect)
      else if hasEventGroup then StaStepResult(count, SignalFail)
      else StaStepResult(count, NoAction)
  }

  function StaRun(count: nat, hasEventGroup: bool, events: seq<StaEvent>): (actions: seq<StaAction>)
    ensures |actions| == |events|
    decreases |events|
  {
    if |events| == 0 then []
    else
      var r := StaStep(count, hasEventGroup, events[0]);
      [r.action] + StaRun(r.count, hasEventGroup, events[1..])
  }

  function StaRunCount(count: nat, hasEventGroup: bool, events: seq<StaEvent>): nat
    decreases |events|
  {
    if |events| == 0 then count
    else
      var r := StaStep(count, hasEventGroup, events[0]);
      StaRunCount(r.count, hasEventGroup, events[1..])
  }

  function Disconnects(n: nat): (d: seq<StaEvent>)
    ensures |d| == n && forall i :: 0 <= i < n ==> d[i] == StaDisconnected
  {
    if n == 0 then [] else Disconnects(n - 1) + [StaDisconnected]
  }

  /** The actions of successive disconnections from `count` failures so
      far: reconnect while under the limit, then signal failure. */
  predicate DisconnectActions(count: nat, actions: seq<StaAction>)
  {
    forall i :: 0 <= i < |actions| ==>
      actions[i] == (if count + i < StaMaxRetry then Reconnect else SignalFail)
  }

  /** From `count` failures so far, a run of disconnections reconnects until
      the limit is reached and then, with an event group, signals failure on
      every further one. */
  lemma {:induction false} StaDisconnectRun(count: nat, n: nat)
    requires count <= StaMaxRetry
    ensures DisconnectActions(count, StaRun(count, true, Disconnects(n)))
    ensures StaRunCount(count, true, Disconnects(n)) == if count + n < StaMaxRetry then count + n else StaMaxRetry
    decreases n
  {
    if n > 0 {
      var d := Disconnects(n);
      assert d[0] == StaDisconnected;
      var next := StaStep(count, true, StaDisconnected).count;
      assert d[1..] == Disconnects(n - 1) by {
        assert forall i :: 0 <= i < n - 1 ==> d[1..][i] == Disconnects(n - 1)[i];
      }
      StaDisconnectRun(next, n - 1);
      var actions := StaRun(count, true, d);
      var tail := StaRun(next, true, Disconnects(n - 1));
      assert actions == [StaStep(count, true, StaDisconnected).action] + tail;
      assert next == if count < StaMaxRetry then count + 1 else count;
      forall i | 1 <= i < n
        ensures actions[i] == (if count + i < StaMaxRetry then Reconnect else SignalFail)
      {
        assert actions[i] == tail[i - 1];
      }
    }
  }

  /** A connection anywhere in a run starts the count afresh: what happens
      after it does not depend on anything before it. */
  lemma {:induction false} StaConnectResets(count: nat, hasEventGroup: bool,
                                            before: seq<StaEvent>, after: seq<StaEvent>)
    ensures StaRunCount(count, hasEventGroup, before + [StaConnected] + after)
            == StaRunCount(0, hasEventGroup, after)
    ensures StaRun(count, hasEventGroup, before + [StaConnected] + after)[|before| + 1..]
            == StaRun(0, hasEventGroup, after)
    decreases |before|
  {
    var events := before + [StaConnected] + after;
    if |before| == 0 {
      assert events[0] == StaConnected && events[1..] == after;
    } else {
      var next := StaStep(count, hasEventGroup, before[0]).count;
      assert events[0] == before[0];
      assert events[1..] == before[1..] + [StaConnected] + after;
      StaConnectResets(next, hasEventGroup, before[1..], after);
      var tail := StaRun(next, hasEventGroup, events[1..]);
      assert StaRun(count, hasEventGroup, events)[|before| + 1..] == tail[|before[1..]| + 1..];
    }
  }

  /* ---------- Camera initialisation loop ---------- */

  /** How the initialisation loop ends: the camera came up after `attempts`
      tries, the loop gave up after `attempts` failures, or the outcomes
      supplied ran out while the loop was still retrying. */
  datatype CamResult = Ready(attempts: nat) | GaveUp(attempts: nat) | StillTrying(attempts: nat)

  /** The loop of `camera_stream_task` started with `retriesLeft`, where
      `outcomes[i]` says whether the `i`-th call of `init_camera` succeeds.
      A negative count is never decremented, so it retries forever. */
  function CamInit(retriesLeft: int, outcomes: seq<bool>): (r: CamResult)
    decreases |outcomes|
  {
    if retriesLeft == 0 then GaveUp(0)
    else if |outcomes| == 0 then StillTrying(0)
    else if outcomes[0] then Ready(1)
    else
      var left := if retriesLeft > 0 then retriesLeft - 1 else retriesLeft;
      if left == 0 then GaveUp(1)
      else Plus1(CamInit(left, outcomes[1..]))
  }

  function Plus1(r: CamResult): CamResult
  {
    match r
    case Ready(n) => Ready(n + 1)
    case GaveUp(n) => GaveUp(n + 1)
    case StillTrying(n) => StillTrying(n + 1)
  }

  /** The index of the first successful attempt, or `|outcomes|`. */
  function FirstSuccess(outcomes: seq<bool>): (i: nat)
    ensures i <= |outcomes|
    ensures i < |outcomes| ==> outcomes[i]
    ensures forall j :: 0 <= j < i ==> !outcomes[j]
  {
    if |outcomes| == 0 || outcomes[0] then 0 else 1 + FirstSuccess(outcomes[1..])
  }

  /** With a positive count the loop tries at most `retriesLeft` times: it
      is ready at the first success within that budget and gives up when
      the whole budget fails. */
  lemma {:induction false} CamInitBounded(retriesLeft: int, outcomes: seq<bool>)
    requires retriesLeft > 0
    ensures var k := FirstSuccess(outcomes);
            CamInit(retriesLeft, outcomes)
            == if k < retriesLeft && k < |outcomes| then Ready(k + 1)
               else if retriesLeft <= |outcomes| then GaveUp(retriesLeft)
               else StillTrying(|outcomes|)
    decreases |outcomes|
  {
    if |outcomes| > 0 && !outcomes[0] && retriesLeft > 1 {
      CamInitBounded(retriesLeft - 1, outcomes[1..]);
    }
  }

  /** With a negative count the loop never gives up. */
  lemma {:induction false} CamInitNegative(retriesLeft: int, outcomes: seq<bool>)
    requires retriesLeft < 0
    ensures var k := FirstSuccess(outcomes);
            CamInit(retriesLeft, outcomes) == if k < |outcomes| then Ready(k + 1) else StillTrying(|outcomes|)
    decreases |outcomes|
  {
    if |outcomes| > 0 && !outcomes[0] {
      CamInitNegative(retriesLeft, outcomes[1..]);
    }
  }

  /** The documented "0 = retry forever" is not what the loop does: it is
      never entered, the camera is never initialised, and the task stops. */
  lemma CamInitZeroNeverTries(outcomes: seq<bool>)
    ensures CamInit(0, outcomes) == GaveUp(0)
  {
  }

  /** The loop as documented: a configured 0 retries forever. */
  function CamInitDocumented(maxRetries: int, outcomes: seq<bool>): CamResult
  {
    CamInit(if maxRetries == 0 then -1 else maxRetries, outcomes)
  }

  /** As documented, 0 never gives up and every other setting behaves as
      the loop does; with the default of 1 there is exactly one attempt. */
  lemma CamInitDocumentedFacts(maxRetries: int, outcomes: seq<bool>)
    ensures maxRetries <= 0 ==> !CamInitDocumented(maxRetries, outcomes).GaveUp?
    ensures maxRetries != 0 ==> CamInitDocumented(maxRetries, outcomes) == CamInit(maxRetries, outcomes)
    ensures |outcomes| > 0 ==>
              CamInitDocumented(CamInitMaxRetries, outcomes)
              == if outcomes[0] then Ready(1) else GaveUp(1)
  {
    if maxRetries <= 0 {
      CamInitNegative(if maxRetries == 0 then -1 else maxRetries, outcomes);
    }
  }

  /* ---------- frame_interval_ms ---------- */

  /** `frame_interval_ms()` for a configured `STREAM_FPS` of `fps`: the
      delay between frames, `1000 / fps` rounded down, or 200 when the rate
      is not positive. */
  function FrameIntervalMs(fps: int): (ms: u32)
  {
    if fps <= 0 then 200 else 1000 / fps
  }

  /** The interval is the largest whole number of milliseconds that `fps`
      frames fit into one second with; the default rate gives 200. */
  lemma FrameIntervalMeaning(fps: int)
    ensures fps > 0 ==> FrameIntervalMs(fps) * fps <= 1000 < (FrameIntervalMs(fps) + 1) * fps
    ensures fps <= 0 ==> FrameIntervalMs(fps) == 200
    ensures FrameIntervalMs(StreamFps) == 200
  {
    if fps > 0 {
      var q := 1000 / fps;
      assert q * fps + 1000 % fps == 1000;
    }
  }
}
