/** The control link end to end: what the phone's control screen transmits,
    fed to the firmware's WebSocket handler. The phone always sends six
    bytes; the firmware only accepts frames of `RC_CONTROL_LEN` bytes. */
module ControlLink {
  import opened Common
  import WsClient
  import ControlPanel
  import Firmware

  /** The frame the car's handler receives for one transmitted array. */
  function Deliver(payload: seq<byte>): (r: Firmware.Recv)
    ensures r.Frame? && r.kind == Firmware.BinaryFrame && r.payload == payload
  {
    Firmware.Frame(Firmware.BinaryFrame, payload)
  }

  /** The arrays the control screen transmits, in order. */
  predicate Transmitted(out: seq<ControlPanel.Output>, payload: seq<byte>)
  {
    exists i :: 0 <= i < |out| && out[i] == ControlPanel.Net(WsClient.Transmit(payload))
  }

  /** As written: whatever the driver does on the phone, every array the
      phone transmits leaves the car's five-byte control state unchanged. */
  lemma AsWrittenCarIgnoresPhone(p: ControlPanel.Panel, events: seq<ControlPanel.Event>,
                                  payload: seq<byte>, state: seq<byte>)
    requires ControlPanel.WellFormed(p) && |state| == Firmware.ControlLen
    requires Transmitted(ControlPanel.Run(p, events).out, payload)
    ensures Firmware.HandleRecv(Firmware.ControlLen, state, Deliver(payload)).state == state
  {
    ControlPanel.TransmitsAreControlArrays(p, events);
  }

  /** With the corrected length, every transmitted array becomes the car's
      control state. */
  lemma CorrectedCarFollowsPhone(p: ControlPanel.Panel, events: seq<ControlPanel.Event>,
                                  payload: seq<byte>, state: seq<byte>)
    requires ControlPanel.WellFormed(p) && |state| == Firmware.CorrectedControlLen
    requires Transmitted(ControlPanel.Run(p, events).out, payload)
    ensures Firmware.HandleRecv(Firmware.CorrectedControlLen, state, Deliver(payload)).state == payload
  {
    ControlPanel.TransmitsAreControlArrays(p, events);
    if payload != state {
      assert Firmware.HandleRecv(Firmware.CorrectedControlLen, state, Deliver(payload)).state != state;
    }
  }

  /** A concrete run: the screen opens on a reachable car, the driver holds
      UP and the publisher ticks once. The phone transmits
      `[1, 0, 0, 0, 0, 5]`; the car as written stays stopped, the corrected
      car drives forward. */
  lemma HoldUpOnce()
    ensures var events := [ControlPanel.ViewCreated(Some("192.168.4.1")),
                           ControlPanel.Touched(ControlPanel.UpButton, ControlPanel.ActionDown),
                           ControlPanel.Tick];
            var sent: seq<byte> := [1, 0, 0, 0, 0, 5];
            && Transmitted(ControlPanel.Run(ControlPanel.Fresh, events).out, sent)
            && Firmware.HandleRecv(Firmware.ControlLen, [0, 0, 0, 0, 0], Deliver(sent)).state
               == [0, 0, 0, 0, 0]
            && Firmware.HandleRecv(Firmware.CorrectedControlLen, [0, 0, 0, 0, 0, 5], Deliver(sent)).state
               == sent
  {
    var events := [ControlPanel.ViewCreated(Some("192.168.4.1")),
                   ControlPanel.Touched(ControlPanel.UpButton, ControlPanel.ActionDown),
                   ControlPanel.Tick];
    var sent: seq<byte> := [1, 0, 0, 0, 0, 5];
    var s0 := ControlPanel.Step(ControlPanel.Fresh, events[0]);
    var s1 := ControlPanel.Step(s0.panel, events[1]);
    assert s1.panel.controls == sent;
    var s2 := ControlPanel.Step(s1.panel, events[2]);
    assert s2.out[0] == ControlPanel.Net(WsClient.Transmit(sent));
    assert events[1..][1..] == [ControlPanel.Tick];
    var out := ControlPanel.Run(ControlPanel.Fresh, events).out;
    assert out == s0.out + s1.out + s2.out;
    assert out[|s0.out| + |s1.out|] == s2.out[0];
  }
}
