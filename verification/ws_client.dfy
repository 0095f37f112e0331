/** The phone's WebSocket client (`WebSocketClient.kt`) as a state machine.
    OkHttp's listener callbacks, the main-thread `Handler` that delays the
    reconnect, and the calls from the UI arrive as one serialized sequence
    of events; what the client does in answer is a sequence of outputs. */
module WsClient {
  import opened Common

  /** The fixed reconnect delay of `attemptReconnect`, in milliseconds. */
  const ReconnectDelayMs: nat := 2000
  /** The close code `disconnect` sends (normal closure). */
  const NormalClosure: nat := 1000

  /** `webSocket`, `isManualClose`, `currentUrl`, and the number of
      reconnect callbacks posted to the handler and not yet run. */
  datatype Client = Client(hasSocket: bool, manualClose: bool, url: Option<string>, pending: nat)

  const Initial: Client := Client(false, false, None, 0)

  datatype Event =
    | Connect(target: string)          // connect(url)
    | Opened                            // onOpen
    | TextMessage(text: string)         // onMessage(String)
    | BinaryMessage(bytes: seq<byte>, decodes: bool)
                                        // onMessage(ByteString); `decodes` is whether
                                        // BitmapFactory returns a bitmap
    | Failure                           // onFailure
    | Closing                           // onClosing
    | ReconnectDue                      // the handler runs one posted reconnect
    | Disconnect                        // disconnect()
    | Send(payload: seq<byte>)          // send(ByteArray)

  datatype Output =
    | Dial(target: string)              // client.newWebSocket
    | Status(connected: bool)           // onStatusChange
    | Telemetry(text: string)           // onMessage callback
    | Image(bytes: seq<byte>)           // onImageReceived
    | Schedule(delayMs: nat)            // handler.postDelayed
    | Transmit(payload: seq<byte>)      // webSocket.send
    | CloseSent(code: nat)              // webSocket.close

  datatype Stepped = Stepped(client: Client, out: seq<Output>)

  /** `connect(url)`: record the URL, clear the manual-close flag, dial. */
  function DoConnect(c: Client, target: string): (r: Stepped)
    ensures r.client.url == Some(target) && !r.client.manualClose && r.client.hasSocket
    ensures r.client.pending == c.pending
    ensures r.out == [Dial(target)]
  {
    Stepped(Client(true, false, Some(target), c.pending), [Dial(target)])
  }

  /** `attemptReconnect()`: nothing after a manual close, otherwise one
      callback posted with the fixed delay. */
  function AttemptReconnect(c: Client): (r: Stepped)
    ensures c.manualClose ==> r == Stepped(c, [])
    ensures !c.manualClose ==>
              r.client == c.(pending := c.pending + 1) && r.out == [Schedule(ReconnectDelayMs)]
  {
    if c.manualClose then Stepped(c, [])
    else Stepped(c.(pending := c.pending + 1), [Schedule(ReconnectDelayMs)])
  }

  function Step(c: Client, e: Event): (r: Stepped)
    ensures e.Connect? ==> r == DoConnect(c, e.target)
    ensures e.Opened? ==> r == Stepped(c, [Status(true)])
    ensures e.Failure? || e.Closing? ==>
              |r.out| >= 1 && r.out[0] == Status(false)
              && (r.out[1..] == [Schedule(ReconnectDelayMs)] <==> !c.manualClose)
    ensures e.Failure? || e.Closing? ==>
              && r.client == AttemptReconnect(c).client
              && (c.manualClose ==> r.out == [Status(false)])
    ensures e.Send? ==> r.client == c && r.out == (if c.hasSocket then [Transmit(e.payload)] else [])
    ensures e.BinaryMessage? ==> r.client == c && r.out == (if e.decodes then [Image(e.bytes)] else [])
    ensures e.Disconnect? ==> r.client == Client(false, true, c.url, 0)
    ensures e.Disconnect? ==> r.out == (if c.hasSocket then [CloseSent(NormalClosure)] else [])
    ensures e.TextMessage? ==> r == Stepped(c, [Telemetry(e.text)])
    ensures e.ReconnectDue? && c.pending == 0 ==> r == Stepped(c, [])
    ensures e.ReconnectDue? && c.pending > 0 && c.url.Some? ==>
              && r.out == [Dial(c.url.value)] && r.client.url == c.url
              && !r.client.manualClose && r.client.hasSocket && r.client.pending == c.pending - 1
    ensures e.ReconnectDue? && c.pending > 0 && c.url.None? ==>
              r == Stepped(c.(pending := c.pending - 1), [])
  {
    match e
    case Connect(target) => DoConnect(c, target)
    case Opened => Stepped(c, [Status(true)])
    case TextMessage(text) => Stepped(c, [Telemetry(text)])
    case BinaryMessage(bytes, decodes) => Stepped(c, if decodes then [Image(bytes)] else [])
    case Failure =>
      var a := AttemptReconnect(c);
      Stepped(a.client, [Status(false)] + a.out)
    case Closing =>
      if !c.manualClose then
        var a := AttemptReconnect(c);
        Stepped(a.client, [Status(false)] + a.out)
      else Stepped(c, [Status(false)])
    case ReconnectDue =>
      if c.pending == 0 then Stepped(c, [])
      else
        var c1 := c.(pending := c.pending - 1);
        if c1.url.Some? then DoConnect(c1, c1.url.value) else Stepped(c1, [])
    case Disconnect =>
      Stepped(Client(false, true, c.url, 0), if c.hasSocket then [CloseSent(NormalClosure)] else [])
    case Send(payload) => Stepped(c, if c.hasSocket then [Transmit(payload)] else [])
  }

  function Run(c: Client, events: seq<Event>): (r: Stepped)
    decreases |events|
  {
    if |events| == 0 then Stepped(c, [])
    else
      var s := Step(c, events[0]);
      var rest := Run(s.client, events[1..]);
      Stepped(rest.client, s.out + rest.out)
  }

  /** The retry the client exists for: whatever state it was in, after
      `connect(u)` a failure posts a reconnect, and when the handler runs
      it the client dials `u` again. */
  lemma FailureRedials(c: Client, u: string)
    ensures var r := Run(c, [Connect(u), Failure, ReconnectDue]);
            && r.out == [Dial(u), Status(false), Schedule(ReconnectDelayMs), Dial(u)]
            && r.client.url == Some(u) && r.client.pending == c.pending
  {
    var s0 := Step(c, Connect(u));
    var s1 := Step(s0.client, Failure);
    assert s1.out == [Status(false), Schedule(ReconnectDelayMs)];
    var s2 := Step(s1.client, ReconnectDue);
    assert s2.out == [Dial(u)];
    var events := [Connect(u), Failure, ReconnectDue];
    assert events[1..] == [Failure, ReconnectDue] && events[1..][1..] == [ReconnectDue];
    var r2 := Run(s1.client, [ReconnectDue]);
    assert r2 == Stepped(s2.client, s2.out + Run(s2.client, []).out);
    var r1 := Run(s0.client, [Failure, ReconnectDue]);
    assert r1 == Stepped(r2.client, s1.out + r2.out);
    assert Run(c, events) == Stepped(r1.client, s0.out + r1.out);
  }

  /** A manual close leaves no reconnect posted. */
  predicate Quiescent(c: Client)
  {
    c.manualClose ==> c.pending == 0
  }

  lemma StepKeepsQuiescent(c: Client, e: Event)
    requires Quiescent(c)
    ensures Quiescent(Step(c, e).client)
  {
  }

  predicate NotConnect(e: Event)
  {
    !e.Connect?
  }

  /** The state `disconnect()` leaves: closed by hand, no socket, nothing posted. */
  predicate Closed(c: Client)
  {
    c.manualClose && c.pending == 0 && !c.hasSocket
  }

  /** Output that reaches the network or re-arms a reconnect. */
  predicate Active(o: Output)
  {
    o.Dial? || o.Transmit? || o.Schedule?
  }

  /** A closed client stays closed and quiet under every event but `connect`. */
  lemma ClosedStep(c: Client, e: Event)
    requires Closed(c) && NotConnect(e)
    ensures Closed(Step(c, e).client)
    ensures forall i :: 0 <= i < |Step(c, e).out| ==> !Active(Step(c, e).out[i])
  {
  }

  /** After `disconnect()`, and until the next `connect`, nothing dials,
      nothing is sent, nothing is scheduled, and the client stays closed. */
  lemma {:induction false} NoReconnectAfterDisconnect(c: Client, events: seq<Event>)
    requires Closed(c)
    requires forall i :: 0 <= i < |events| ==> NotConnect(events[i])
    ensures var r := Run(c, events);
            Closed(r.client) && forall i :: 0 <= i < |r.out| ==> !Active(r.out[i])
    decreases |events|
  {
    if |events| > 0 {
      var s := Step(c, events[0]);
      ClosedStep(c, events[0]);
      NoReconnectAfterDisconnect(s.client, events[1..]);
      var rest := Run(s.client, events[1..]).out;
      assert Run(c, events).out == s.out + rest;
      assert forall i :: |s.out| <= i < |s.out + rest| ==> (s.out + rest)[i] == rest[i - |s.out|];
    }
  }

  /** `disconnect()` reaches that state from any state. */
  lemma DisconnectCloses(c: Client)
    ensures Closed(Step(c, Disconnect).client)
  {
  }

  predicate FixedDelays(out: seq<Output>)
  {
    forall i :: 0 <= i < |out| && out[i].Schedule? ==> out[i].delayMs == ReconnectDelayMs
  }

  lemma StepFixedDelay(c: Client, e: Event)
    ensures FixedDelays(Step(c, e).out)
  {
  }

  /** Every reconnect is scheduled with the same 2000 ms delay: there is no
      backoff, however many failures come in a row. */
  lemma {:induction false} NoBackoff(c: Client, events: seq<Event>)
    ensures FixedDelays(Run(c, events).out)
    decreases |events|
  {
    if |events| > 0 {
      var s := Step(c, events[0]);
      StepFixedDelay(c, events[0]);
      NoBackoff(s.client, events[1..]);
      var rest := Run(s.client, events[1..]).out;
      assert Run(c, events).out == s.out + rest;
      assert forall i :: |s.out| <= i < |s.out + rest| ==> (s.out + rest)[i] == rest[i - |s.out|];
    }
  }

  /** Posted reconnects are never lost or invented: each one is scheduled
      by a failure or closing and consumed by one handler run, and a
      disconnect drops them all. */
  lemma {:induction false} PendingCountsSchedules(c: Client, events: seq<Event>)
    requires forall i :: 0 <= i < |events| ==> !events[i].Disconnect?
    ensures var r := Run(c, events);
            r.client.pending == c.pending + CountSchedules(r.out) - CountDue(c, events)
    decreases |events|
  {
    if |events| > 0 {
      var s := Step(c, events[0]);
      StepPending(c, events[0]);
      PendingCountsSchedules(s.client, events[1..]);
      CountSchedulesAppend(s.out, Run(s.client, events[1..]).out);
    }
  }

  lemma StepPending(c: Client, e: Event)
    requires !e.Disconnect?
    ensures var s := Step(c, e);
            s.client.pending + (if e.ReconnectDue? && c.pending > 0 then 1 else 0)
            == c.pending + CountSchedules(s.out)
  {
    var s := Step(c, e);
    var one: seq<Output> := [Schedule(ReconnectDelayMs)];
    var two: seq<Output> := [Status(false)] + one;
    assert two[1..] == one && |one[1..]| == 0;
    assert CountSchedules(one) == 1;
    assert CountSchedules(two) == 1;
    assert CountSchedules([Status(false)]) == 0;
    if e.Connect? || e.ReconnectDue? {
      assert CountSchedules(s.out) == 0;
    }
  }

  function CountSchedules(out: seq<Output>): nat
  {
    if |out| == 0 then 0 else (if out[0].Schedule? then 1 else 0) + CountSchedules(out[1..])
  }

  /** The handler runs that found a posted reconnect to run. */
  function CountDue(c: Client, events: seq<Event>): nat
    decreases |events|
  {
    if |events| == 0 then 0
    else (if events[0].ReconnectDue? && c.pending > 0 then 1 else 0)
         + CountDue(Step(c, events[0]).client, events[1..])
  }

  lemma {:induction false} CountSchedulesAppend(a: seq<Output>, b: seq<Output>)
    ensures CountSchedules(a + b) == CountSchedules(a) + CountSchedules(b)
    decreases |a|
  {
    if |a| > 0 {
      assert (a + b)[1..] == a[1..] + b;
      CountSchedulesAppend(a[1..], b);
    } else {
      assert a + b == b;
    }
  }
}
