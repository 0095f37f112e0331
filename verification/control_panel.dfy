/** The phone's remote-control screen (`SecondFragment.kt`): the six-byte
    control array that the buttons and the steering bar write, and the
    50 ms publisher that sends it through the WebSocket client. */
module ControlPanel {
  import opened Common
  import WsClient

  /** `[UP, DOWN, LEFT, RIGHT, STOP, STEER]` */
  const PanelLen: nat := 6
  const SteerIndex: nat := 5
  /** The centre of the steering bar, and where it snaps back to. */
  const SteerCentre: byte := 5
  /** The period of the publisher, in milliseconds. */
  const SendPeriodMs: nat := 50
  /** The port in the URL the screen connects to. */
  const WsPort: string := "8888"

  const InitialControls: seq<byte> := [0, 0, 0, 0, 0, SteerCentre]

  datatype Button = UpButton | DownButton | LeftButton | RightButton | StopButton

  /** The index each button was set up with. */
  function ButtonIndex(b: Button): (i: nat)
    ensures i < SteerIndex
  {
    match b
    case UpButton => 0
    case DownButton => 1
    case LeftButton => 2
    case RightButton => 3
    case StopButton => 4
  }

  /** Each button owns its own byte. */
  lemma ButtonIndexInjective(a: Button, b: Button)
    ensures ButtonIndex(a) == ButtonIndex(b) <==> a == b
  {
  }

  /** `MotionEvent` actions: down, up, cancel, and anything else. */
  datatype TouchAction = ActionDown | ActionUp | ActionCancel | ActionOther

  /** The touch listener of `setupButton`: down sets the button's byte to 1,
      up and cancel clear it, and nothing else changes. */
  function Touch(controls: seq<byte>, b: Button, a: TouchAction): (r: seq<byte>)
    requires |controls| == PanelLen
    ensures |r| == PanelLen
    ensures forall i :: 0 <= i < PanelLen && i != ButtonIndex(b) ==> r[i] == controls[i]
    ensures a == ActionDown ==> r[ButtonIndex(b)] == 1
    ensures a == ActionUp || a == ActionCancel ==> r[ButtonIndex(b)] == 0
    ensures a == ActionOther ==> r == controls
  {
    match a
    case ActionDown => controls[ButtonIndex(b) := 1]
    case ActionUp => controls[ButtonIndex(b) := 0]
    case ActionCancel => controls[ButtonIndex(b) := 0]
    case ActionOther => controls
  }

  /** `progress.toByte()`: the low eight bits of a Kotlin `Int`. */
  function ToByte(progress: int): (b: byte)
    ensures 0 <= progress < 0x100 ==> b == progress
    ensures (b - progress) % 0x100 == 0
  {
    progress % 0x100
  }

  /** `onProgressChanged` writes the steering byte only. */
  function ProgressChanged(controls: seq<byte>, progress: int): (r: seq<byte>)
    requires |controls| == PanelLen
    ensures |r| == PanelLen && r[SteerIndex] == ToByte(progress)
    ensures forall i :: 0 <= i < SteerIndex ==> r[i] == controls[i]
  {
    controls[SteerIndex := ToByte(progress)]
  }

  /** `onStopTrackingTouch` snaps the bar and the steering byte back to the
      centre (setting the bar's progress first reports progress 5). */
  function StopTracking(controls: seq<byte>): (r: seq<byte>)
    requires |controls| == PanelLen
    ensures |r| == PanelLen && r[SteerIndex] == SteerCentre
    ensures forall i :: 0 <= i < SteerIndex ==> r[i] == controls[i]
  {
    ProgressChanged(controls, SteerCentre)[SteerIndex := SteerCentre]
  }

  /** The screen: its control array, its client once the view exists, and
      whether the publisher is posted on the handler. */
  datatype Panel = Panel(controls: seq<byte>, client: Option<WsClient.Client>, ticking: bool)

  const Fresh: Panel := Panel(InitialControls, None, false)

  datatype Event =
    | ViewCreated(ip: Option<string>)   // onViewCreated with the device_ip argument
    | Touched(button: Button, action: TouchAction)
    | Progress(progress: int)
    | StopTouch
    | Tick                              // the handler runs sendRunnable
    | DestroyView                       // onDestroyView
    | Network(e: WsClient.Event)        // a callback of the client's socket or handler

  datatype Output = Net(o: WsClient.Output) | Rearm(delayMs: nat)

  datatype Stepped = Stepped(panel: Panel, out: seq<Output>)

  function Lift(out: seq<WsClient.Output>): (r: seq<Output>)
    ensures |r| == |out| && forall i :: 0 <= i < |out| ==> r[i] == Net(out[i])
  {
    if |out| == 0 then [] else [Net(out[0])] + Lift(out[1..])
  }

  /** Passes `e` to the client, if there is one. */
  function ToClient(p: Panel, e: WsClient.Event): (r: Stepped)
    ensures r.panel.controls == p.controls && r.panel.ticking == p.ticking
    ensures r.panel.client.Some? == p.client.Some?
  {
    match p.client
    case None => Stepped(p, [])
    case Some(c) =>
      var s := WsClient.Step(c, e);
      Stepped(p.(client := Some(s.client)), Lift(s.out))
  }

  /** `ws://<ip>:8888` */
  function WsUrl(ip: string): string
  {
    "ws://" + ip + ":" + WsPort
  }

  /** Six bytes whose five button flags are each 0 or 1. */
  predicate ControlArray(s: seq<byte>)
  {
    && |s| == PanelLen
    && forall i :: 0 <= i < SteerIndex ==> s[i] == 0 || s[i] == 1
  }

  predicate WellFormed(p: Panel)
  {
    ControlArray(p.controls)
  }

  /** One event on the control screen. Every socket or handler callback is
      delivered to the current client, including those from a socket that
      belonged to an earlier view's client, which in the app reach that old
      `WebSocketClient` instance instead. This admits more runs than the app
      has, so what is proved to hold on every run also holds in the app. */
  function Step(p: Panel, e: Event): (r: Stepped)
    requires WellFormed(p)
    ensures WellFormed(r.panel)
  {
    match e
    case ViewCreated(ip) =>
      if ip.None? then Stepped(p, [])
      else
        var s := WsClient.Step(WsClient.Initial, WsClient.Connect(WsUrl(ip.value)));
        Stepped(Panel(p.controls, Some(s.client), true), Lift(s.out))
    case Touched(b, a) => Stepped(p.(controls := Touch(p.controls, b, a)), [])
    case Progress(n) => Stepped(p.(controls := ProgressChanged(p.controls, n)), [])
    case StopTouch => Stepped(p.(controls := StopTracking(p.controls)), [])
    case Tick =>
      if !p.ticking then Stepped(p, [])
      else
        var s := ToClient(p, WsClient.Send(p.controls));
        Stepped(s.panel, s.out + [Rearm(SendPeriodMs)])
    case DestroyView =>
      ToClient(p.(ticking := false), WsClient.Disconnect)
    case Network(ne) =>
      if ne.Connect? || ne.Send? || ne.Disconnect? then Stepped(p, [])
      else ToClient(p, ne)
  }

  function Run(p: Panel, events: seq<Event>): (r: Stepped)
    requires WellFormed(p)
    ensures WellFormed(r.panel)
    decreases |events|
  {
    if |events| == 0 then Stepped(p, [])
    else
      var s := Step(p, events[0]);
      var rest := Run(s.panel, events[1..]);
      Stepped(rest.panel, s.out + rest.out)
  }

  /** The initial array: every flag clear and the steering at the centre. */
  lemma FreshPanel()
    ensures WellFormed(Fresh) && |InitialControls| == PanelLen
    ensures InitialControls[SteerIndex] == SteerCentre
    ensures forall i :: 0 <= i < SteerIndex ==> InitialControls[i] == 0
  {
  }

  /** One tick with a live socket sends the whole current array once and
      re-arms the publisher 50 ms later; the array itself is untouched. */
  lemma TickSendsArray(p: Panel)
    requires WellFormed(p) && p.ticking && p.client.Some? && p.client.value.hasSocket
    ensures Step(p, Tick) == Stepped(p, [Net(WsClient.Transmit(p.controls)), Rearm(SendPeriodMs)])
  {
  }

  function Ticks(k: nat): (t: seq<Event>)
    ensures |t| == k && forall i :: 0 <= i < k ==> t[i] == Tick
  {
    if k == 0 then [] else [Tick] + Ticks(k - 1)
  }

  function Repeat(block: seq<Output>, k: nat): (r: seq<Output>)
    ensures |r| == k * |block|
  {
    if k == 0 then [] else block + Repeat(block, k - 1)
  }

  /** `k` ticks with a live socket and no other event send the same array
      `k` times, each followed by a re-arm. */
  lemma {:induction false} TicksSendRepeatedly(p: Panel, k: nat)
    requires WellFormed(p) && p.ticking && p.client.Some? && p.client.value.hasSocket
    ensures Run(p, Ticks(k)) == Stepped(p, Repeat([Net(WsClient.Transmit(p.controls)), Rearm(SendPeriodMs)], k))
    decreases k
  {
    if k > 0 {
      TickSendsArray(p);
      assert Ticks(k)[1..] == Ticks(k - 1);
      TicksSendRepeatedly(p, k - 1);
    }
  }

  /** The screen after `onDestroyView`: the publisher removed, the client
      closed by hand (or never created). */
  predicate Destroyed(p: Panel)
  {
    !p.ticking && (p.client.Some? ==> WsClient.Closed(p.client.value))
  }

  predicate Quiet(o: Output)
  {
    o.Net? && !WsClient.Active(o.o)
  }

  predicate AllQuiet(out: seq<Output>)
  {
    forall i :: 0 <= i < |out| ==> Quiet(out[i])
  }

  lemma LiftQuiet(out: seq<WsClient.Output>)
    requires forall i :: 0 <= i < |out| ==> !WsClient.Active(out[i])
    ensures AllQuiet(Lift(out))
  {
  }

  lemma AllQuietAppend(a: seq<Output>, b: seq<Output>)
    requires AllQuiet(a) && AllQuiet(b)
    ensures AllQuiet(a + b)
  {
    assert forall i :: |a| <= i < |a + b| ==> (a + b)[i] == b[i - |a|];
  }

  lemma DestroyedStep(p: Panel, e: Event)
    requires WellFormed(p) && Destroyed(p) && !e.ViewCreated?
    ensures Destroyed(Step(p, e).panel) && AllQuiet(Step(p, e).out)
  {
    if p.client.Some? {
      if e.Network? && !(e.e.Connect? || e.e.Send? || e.e.Disconnect?) {
        WsClient.ClosedStep(p.client.value, e.e);
        LiftQuiet(WsClient.Step(p.client.value, e.e).out);
      } else if e.DestroyView? {
        WsClient.ClosedStep(p.client.value, WsClient.Disconnect);
        LiftQuiet(WsClient.Step(p.client.value, WsClient.Disconnect).out);
      }
    }
  }

  /** `onDestroyView` reaches that state from any state. */
  lemma DestroyViewStops(p: Panel)
    requires WellFormed(p)
    ensures Destroyed(Step(p, DestroyView).panel)
  {
  }

  /** Once the view is destroyed, and until it is created again, no tick
      fires, nothing is sent or dialled, and no reconnect is scheduled,
      whatever the buttons, the bar or the old socket do. */
  lemma {:induction false} NothingAfterDestroy(p: Panel, events: seq<Event>)
    requires WellFormed(p) && Destroyed(p)
    requires forall i :: 0 <= i < |events| ==> !events[i].ViewCreated?
    ensures Destroyed(Run(p, events).panel) && AllQuiet(Run(p, events).out)
    decreases |events|
  {
    if |events| > 0 {
      var s := Step(p, events[0]);
      DestroyedStep(p, events[0]);
      NothingAfterDestroy(s.panel, events[1..]);
      AllQuietAppend(s.out, Run(s.panel, events[1..]).out);
    }
  }

  /** Every array the output sends is a control array. */
  predicate SendsControlArrays(out: seq<Output>)
  {
    forall i :: 0 <= i < |out| && out[i].Net? && out[i].o.Transmit? ==> ControlArray(out[i].o.payload)
  }

  lemma SendsAppend(a: seq<Output>, b: seq<Output>)
    requires SendsControlArrays(a) && SendsControlArrays(b)
    ensures SendsControlArrays(a + b)
  {
    assert forall i :: |a| <= i < |a + b| ==> (a + b)[i] == b[i - |a|];
  }

  /** A step transmits nothing but the current array. */
  lemma StepTransmits(p: Panel, e: Event)
    requires WellFormed(p)
    ensures var out := Step(p, e).out;
            forall i :: 0 <= i < |out| && out[i].Net? && out[i].o.Transmit? ==>
              out[i].o.payload == p.controls
  {
  }

  /** Everything the screen ever transmits is a whole control array: six
      bytes, whose five button flags are each 0 or 1. */
  lemma {:induction false} TransmitsAreControlArrays(p: Panel, events: seq<Event>)
    requires WellFormed(p)
    ensures SendsControlArrays(Run(p, events).out)
    decreases |events|
  {
    if |events| > 0 {
      var s := Step(p, events[0]);
      StepTransmits(p, events[0]);
      TransmitsAreControlArrays(s.panel, events[1..]);
      SendsAppend(s.out, Run(s.panel, events[1..]).out);
    }
  }
}
