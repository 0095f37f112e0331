/** The desktop test server (`server.js`) that stands in for the car: per
    connection, the change-only log of control frames and the self-pacing
    screenshot loop. Promises, `setTimeout` and the socket's callbacks are
    one serialized sequence of events. */
module TestServer {
  import opened Common

  /** The delay after a frame was sent, and after a capture failed. */
  const AfterSendMs: nat := 200
  const AfterFailureMs: nat := 1000

  const InitialControls: seq<byte> := [0, 0, 0, 0, 0]

  // ---------------------------------------------------------------------
  // `Array.prototype.toString` on byte arrays

  const Comma: char := ','

  function Digit(d: nat): (c: char)
    requires d < 10
    ensures '0' <= c <= '9'
  {
    ['0', '1', '2', '3', '4', '5', '6', '7', '8', '9'][d]
  }

  function DigitValue(c: char): (d: nat)
    requires '0' <= c <= '9'
    ensures d < 10 && Digit(d) == c
  {
    if c == '0' then 0 else if c == '1' then 1 else if c == '2' then 2
    else if c == '3' then 3 else if c == '4' then 4 else if c == '5' then 5
    else if c == '6' then 6 else if c == '7' then 7 else if c == '8' then 8 else 9
  }

  predicate AllDigits(s: string)
  {
    forall i :: 0 <= i < |s| ==> '0' <= s[i] <= '9'
  }

  /** `Number.prototype.toString()` of a non-negative integer. */
  function Decimal(n: nat): (s: string)
    ensures |s| >= 1 && AllDigits(s)
  {
    if n < 10 then [Digit(n)] else Decimal(n / 10) + [Digit(n % 10)]
  }

  function ParseDecimal(s: string): (n: nat)
    requires AllDigits(s)
  {
    if |s| == 0 then 0 else ParseDecimal(s[..|s| - 1]) * 10 + DigitValue(s[|s| - 1])
  }

  lemma {:induction false} ParseDecimalOf(n: nat)
    ensures ParseDecimal(Decimal(n)) == n
  {
    if n >= 10 {
      var q, d := n / 10, n % 10;
      ParseDecimalOf(q);
      ParseDecimalSnoc(Decimal(q), d);
      assert Decimal(n) == Decimal(q) + [Digit(d)];
    } else {
      assert Decimal(n)[..0] == [];
    }
  }

  /** Appending one digit shifts the value by one decimal place. */
  lemma ParseDecimalSnoc(x: string, d: nat)
    requires AllDigits(x) && d < 10
    ensures AllDigits(x + [Digit(d)])
    ensures ParseDecimal(x + [Digit(d)]) == ParseDecimal(x) * 10 + d
  {
    var s := x + [Digit(d)];
    assert s[..|s| - 1] == x;
  }

  /** `array.toString()`: the elements' decimals joined by commas. */
  function ToStr(a: seq<byte>): (s: string)
    ensures |a| == 0 <==> |s| == 0
  {
    if |a| == 0 then []
    else if |a| == 1 then Decimal(a[0] as nat)
    else Decimal(a[0] as nat) + [Comma] + ToStr(a[1..])
  }

  lemma SplitAtComma(x: string, y: string, x': string, y': string)
    requires AllDigits(x) && AllDigits(x')
    requires x + [Comma] + y == x' + [Comma] + y'
    ensures x == x' && y == y'
  {
    var s := x + [Comma] + y;
    assert s[|x|] == Comma && s[|x'|] == Comma;
    assert x == s[..|x|] && x' == s[..|x'|];
    assert y == s[|x| + 1..] && y' == s[|x'| + 1..];
  }

  lemma NoCommaInDigits(x: string, y: string, x': string)
    requires AllDigits(x) && AllDigits(x')
    ensures x + [Comma] + y != x'
  {
    assert (x + [Comma] + y)[|x|] == Comma;
  }

  /** Two byte arrays print the same exactly when they are equal, so the
      server's string comparison is the comparison of the arrays. */
  lemma {:induction false} ToStrInjective(a: seq<byte>, b: seq<byte>)
    ensures ToStr(a) == ToStr(b) <==> a == b
    decreases |a|
  {
    if ToStr(a) == ToStr(b) && |a| > 0 && |b| > 0 {
      var x, x' := Decimal(a[0] as nat), Decimal(b[0] as nat);
      if |a| == 1 && |b| > 1 {
        NoCommaInDigits(x', ToStr(b[1..]), x);
      } else if |a| > 1 && |b| == 1 {
        NoCommaInDigits(x, ToStr(a[1..]), x');
      } else if |a| > 1 {
        SplitAtComma(x, ToStr(a[1..]), x', ToStr(b[1..]));
        ToStrInjective(a[1..], b[1..]);
        assert a == [a[0]] + a[1..] && b == [b[0]] + b[1..];
      }
      ParseDecimalOf(a[0] as nat);
      ParseDecimalOf(b[0] as nat);
    }
  }

  // ---------------------------------------------------------------------
  // Control frames

  /** What `ws` hands the message listener: `isBuffer` is `Buffer.isBuffer(data)`. */
  datatype Message = Message(isBuffer: bool, data: seq<byte>)

  datatype LogLine = RcState(state: seq<byte>) | WsText(text: seq<byte>)

  datatype Received = Received(controls: seq<byte>, log: Option<LogLine>)

  /** The message listener: a buffer replaces and logs the current controls
      when it prints differently; anything else is logged as text. */
  function OnMessage(current: seq<byte>, m: Message): (r: Received)
  {
    if !m.isBuffer then Received(current, Some(WsText(m.data)))
    else if ToStr(current) != ToStr(m.data) then Received(m.data, Some(RcState(m.data)))
    else Received(current, None)
  }

  /** A buffer replaces the controls iff it differs from them, and is
      logged iff it replaces them; text never touches the controls. */
  lemma OnMessageChangeOnly(current: seq<byte>, m: Message)
    ensures var r := OnMessage(current, m);
            && (m.isBuffer ==> (r.log.Some? <==> m.data != current) && r.controls == m.data)
            && (m.isBuffer && r.log.Some? ==> r.log.value == RcState(m.data))
            && (!m.isBuffer ==> r.controls == current && r.log == Some(WsText(m.data)))
  {
    ToStrInjective(current, m.data);
  }

  function ReceiveAll(current: seq<byte>, ms: seq<Message>): (r: seq<LogLine>)
    decreases |ms|
  {
    if |ms| == 0 then []
    else
      var s := OnMessage(current, ms[0]);
      (if s.log.Some? then [s.log.value] else []) + ReceiveAll(s.controls, ms[1..])
  }

  /** The same control frame sent over and over, as the phone's publisher
      does while nobody touches it, is logged at most once. */
  lemma {:induction false} RepeatsLoggedOnce(current: seq<byte>, frame: seq<byte>, k: nat)
    ensures var ms := seq(k, _ => Message(true, frame));
            |ReceiveAll(current, ms)| <= 1
            && (|ReceiveAll(current, ms)| == 1 <==> k > 0 && frame != current)
  {
    var ms := seq(k, _ => Message(true, frame));
    if k > 0 {
      OnMessageChangeOnly(current, ms[0]);
      assert ms[1..] == seq(k - 1, _ => Message(true, frame));
      RepeatsSilent(frame, k - 1);
    }
  }

  lemma {:induction false} RepeatsSilent(frame: seq<byte>, k: nat)
    ensures ReceiveAll(frame, seq(k, _ => Message(true, frame))) == []
  {
    var ms := seq(k, _ => Message(true, frame));
    if k > 0 {
      OnMessageChangeOnly(frame, ms[0]);
      assert ms[1..] == seq(k - 1, _ => Message(true, frame));
      RepeatsSilent(frame, k - 1);
    }
  }

  // ---------------------------------------------------------------------
  // The screenshot loop

  /** Where `sendScreen`'s chain is: idle, waiting for the capture promise,
      or waiting for `ws.send`'s callback. `isSending` is `phase != Idle`. */
  datatype Phase = Idle | Capturing | Sending

  /** `open` is `ws.readyState === OPEN`; `timers` counts the
      `setTimeout(sendScreen, …)` callbacks not yet run. */
  datatype Loop = Loop(open: bool, phase: Phase, timers: nat)

  datatype Event =
    | CaptureDone(ok: bool)     // the screenshot promise resolves or rejects
    | SendDone                  // ws.send's callback
    | TimerFires                // a pending setTimeout runs sendScreen
    | SocketClosed              // the socket leaves OPEN; it never reopens

  datatype Action = StartCapture | SendImage | SetTimer(delayMs: nat)

  datatype Stepped = Stepped(loop: Loop, out: seq<Action>)

  /** `sendScreen()` */
  function SendScreen(l: Loop): (r: Stepped)
    ensures r.out == [] || r.out == [StartCapture]
    ensures r.out == [StartCapture] <==> l.open && l.phase == Idle
    ensures r.loop == (if l.open && l.phase == Idle then l.(phase := Capturing) else l)
  {
    if l.open && l.phase == Idle then Stepped(l.(phase := Capturing), [StartCapture])
    else Stepped(l, [])
  }

  /** A new connection: the first `sendScreen()` on an open socket. */
  function Connected(): (r: Stepped)
    ensures r == Stepped(Loop(true, Capturing, 0), [StartCapture])
  {
    SendScreen(Loop(true, Idle, 0))
  }

  function Step(l: Loop, e: Event): (r: Stepped)
  {
    match e
    case CaptureDone(ok) =>
      if l.phase != Capturing then Stepped(l, [])
      else if ok then Stepped(l.(phase := Sending), [SendImage])
      else Stepped(l.(phase := Idle, timers := l.timers + 1), [SetTimer(AfterFailureMs)])
    case SendDone =>
      if l.phase != Sending then Stepped(l, [])
      else Stepped(l.(phase := Idle, timers := l.timers + 1), [SetTimer(AfterSendMs)])
    case TimerFires =>
      if l.timers == 0 then Stepped(l, [])
      else SendScreen(l.(timers := l.timers - 1))
    case SocketClosed => Stepped(l.(open := false), [])
  }

  function Run(l: Loop, events: seq<Event>): (r: Stepped)
    decreases |events|
  {
    if |events| == 0 then Stepped(l, [])
    else
      var s := Step(l, events[0]);
      var rest := Run(s.loop, events[1..]);
      Stepped(rest.loop, s.out + rest.out)
  }

  /** The chain's links alive at once: a capture or send in flight, plus
      the timers waiting to restart it. */
  function Links(l: Loop): nat
  {
    (if l.phase == Idle then 0 else 1) + l.timers
  }

  /** Single flight: the loop is one chain, never two. */
  predicate SingleFlight(l: Loop)
  {
    Links(l) <= 1
  }

  /** A successful send schedules exactly one next attempt after 200 ms, a
      failed capture exactly one after 1000 ms, each clearing `isSending`. */
  lemma StepSchedules(l: Loop, e: Event)
    ensures var r := Step(l, e);
            && (e == SendDone && l.phase == Sending ==>
                  r.out == [SetTimer(AfterSendMs)] && r.loop.phase == Idle && r.loop.timers == l.timers + 1)
            && (e == CaptureDone(false) && l.phase == Capturing ==>
                  r.out == [SetTimer(AfterFailureMs)] && r.loop.phase == Idle && r.loop.timers == l.timers + 1)
            && (e == CaptureDone(true) && l.phase == Capturing ==>
                  r.out == [SendImage] && r.loop.phase == Sending)
  {
  }

  /** Each step keeps the chain single, and starts a capture only when the
      previous link was a timer and the socket is open. */
  lemma StepSingleFlight(l: Loop, e: Event)
    requires SingleFlight(l)
    ensures SingleFlight(Step(l, e).loop)
    ensures StartCapture in Step(l, e).out ==> e == TimerFires && l.open && l.timers == 1
  {
  }

  predicate NoCaptures(out: seq<Action>)
  {
    forall i :: 0 <= i < |out| ==> out[i] != StartCapture
  }

  function CountTimers(out: seq<Action>): nat
  {
    if |out| == 0 then 0 else (if out[0].SetTimer? then 1 else 0) + CountTimers(out[1..])
  }

  lemma {:induction false} CountTimersAppend(a: seq<Action>, b: seq<Action>)
    ensures CountTimers(a + b) == CountTimers(a) + CountTimers(b)
    decreases |a|
  {
    if |a| > 0 {
      assert (a + b)[1..] == a[1..] + b;
      CountTimersAppend(a[1..], b);
    } else {
      assert a + b == b;
    }
  }

  /** 1 while a capture or send is in flight. */
  function InFlight(l: Loop): nat
  {
    if l.phase == Idle then 0 else 1
  }

  lemma ClosedStep(l: Loop, e: Event)
    requires !l.open
    ensures var r := Step(l, e);
            && !r.loop.open && NoCaptures(r.out)
            && CountTimers(r.out) + InFlight(r.loop) <= InFlight(l)
  {
    var r := Step(l, e);
    assert CountTimers([SetTimer(AfterSendMs)]) == 1;
    assert CountTimers([SetTimer(AfterFailureMs)]) == 1;
    assert CountTimers([SendImage]) == 0;
    assert CountTimers([]) == 0;
  }

  /** Once the socket is closed no capture starts again, and at most one
      more timer is ever set: the one that finishes a capture or send
      already in flight. With nothing in flight, none is. */
  lemma {:induction false} ClosedLoopStops(l: Loop, events: seq<Event>)
    requires !l.open
    ensures var r := Run(l, events);
            && NoCaptures(r.out)
            && CountTimers(r.out) <= InFlight(l) <= 1
    decreases |events|
  {
    if |events| > 0 {
      var s := Step(l, events[0]);
      ClosedStep(l, events[0]);
      ClosedLoopStops(s.loop, events[1..]);
      var rest := Run(s.loop, events[1..]).out;
      CountTimersAppend(s.out, rest);
      assert forall i :: |s.out| <= i < |s.out + rest| ==> (s.out + rest)[i] == rest[i - |s.out|];
    }
  }

  /** From a new connection, whatever happens, the chain stays single. */
  lemma {:induction false} RunSingleFlight(l: Loop, events: seq<Event>)
    requires SingleFlight(l)
    ensures SingleFlight(Run(l, events).loop)
    decreases |events|
  {
    if |events| > 0 {
      StepSingleFlight(l, events[0]);
      RunSingleFlight(Step(l, events[0]).loop, events[1..]);
    }
  }

  lemma ConnectedSingle()
    ensures SingleFlight(Connected().loop)
  {
  }
}
