/** The list of discovered cars on the start screen (`DeviceAdapter.kt`):
    an ordered list of resolved services, deduplicated by service name. */
module DeviceList {
  import opened Common

  /** The parts of an `NsdServiceInfo` the adapter reads. */
  datatype Device = Device(serviceName: string, host: Option<string>)

  /** Some entry of `devices` carries `name`. */
  predicate HasName(devices: seq<Device>, name: string)
  {
    exists i :: 0 <= i < |devices| && devices[i].serviceName == name
  }

  /** No two entries share a service name. */
  predicate UniqueNames(devices: seq<Device>)
  {
    forall i, j :: 0 <= i < j < |devices| ==> devices[i].serviceName != devices[j].serviceName
  }

  /** `devices.none { it.serviceName == name }`, as the loop it runs. */
  function NoneNamed(devices: seq<Device>, name: string): (r: bool)
    ensures r <==> !HasName(devices, name)
    decreases |devices|
  {
    if |devices| == 0 then true
    else if devices[0].serviceName == name then false
    else
      var r := NoneNamed(devices[1..], name);
      assert HasName(devices, name) <==> HasName(devices[1..], name) by {
        if HasName(devices, name) {
          var i :| 0 <= i < |devices| && devices[i].serviceName == name;
          assert devices[1..][i - 1] == devices[i];
        }
        if HasName(devices[1..], name) {
          var i :| 0 <= i < |devices[1..]| && devices[1..][i].serviceName == name;
          assert devices[i + 1] == devices[1..][i];
        }
      }
      r
  }

  /** `addDevice`: append the service unless its name is already listed. */
  function AddDevice(devices: seq<Device>, d: Device): (r: seq<Device>)
    ensures HasName(devices, d.serviceName) ==> r == devices
    ensures !HasName(devices, d.serviceName) ==> r == devices + [d]
  {
    if NoneNamed(devices, d.serviceName) then devices + [d] else devices
  }

  /** `clear` */
  function Clear(devices: seq<Device>): (r: seq<Device>)
    ensures |r| == 0
  {
    []
  }

  /** `getItemCount` */
  function ItemCount(devices: seq<Device>): (n: nat)
    ensures n == |devices|
  {
    |devices|
  }

  /** Adding keeps the names unique. */
  lemma AddKeepsUnique(devices: seq<Device>, d: Device)
    requires UniqueNames(devices)
    ensures UniqueNames(AddDevice(devices, d))
  {
  }

  /** Afterwards the name is listed, every earlier entry is still where it
      was, and the count grew by one exactly when the name was new. */
  lemma AddFacts(devices: seq<Device>, d: Device)
    ensures var r := AddDevice(devices, d);
            && HasName(r, d.serviceName)
            && r[..|devices|] == devices
            && ItemCount(r) == ItemCount(devices) + (if HasName(devices, d.serviceName) then 0 else 1)
  {
    var r := AddDevice(devices, d);
    if !HasName(devices, d.serviceName) {
      assert r[|devices|] == d;
    }
  }

  /** Adding the same service twice is adding it once; so is adding a second
      service that shares the first one's name. */
  lemma AddIdempotent(devices: seq<Device>, d: Device, e: Device)
    requires e.serviceName == d.serviceName
    ensures AddDevice(AddDevice(devices, d), e) == AddDevice(devices, d)
  {
    AddFacts(devices, d);
  }

  /** The list built by adding services one at a time from empty. */
  function AddAll(devices: seq<Device>, added: seq<Device>): (r: seq<Device>)
    decreases |added|
  {
    if |added| == 0 then devices
    else AddAll(AddDevice(devices, added[0]), added[1..])
  }

  /** Whatever is added, names stay unique, the old entries stay in front
      in their order, and every added name ends up listed. */
  lemma {:induction false} AddAllFacts(devices: seq<Device>, added: seq<Device>)
    requires UniqueNames(devices)
    ensures var r := AddAll(devices, added);
            && UniqueNames(r)
            && |devices| <= |r| && r[..|devices|] == devices
            && forall k :: 0 <= k < |added| ==> HasName(r, added[k].serviceName)
    decreases |added|
  {
    if |added| > 0 {
      var next := AddDevice(devices, added[0]);
      AddKeepsUnique(devices, added[0]);
      AddFacts(devices, added[0]);
      AddAllFacts(next, added[1..]);
      var r := AddAll(next, added[1..]);
      assert r[..|devices|] == r[..|next|][..|devices|];
      var i :| 0 <= i < |next| && next[i].serviceName == added[0].serviceName;
      assert r[i] == next[i];
      forall k | 1 <= k < |added|
        ensures HasName(r, added[k].serviceName)
      {
        assert added[k] == added[1..][k - 1];
      }
    }
  }

  /** After `clear` the list shows nothing, and is as good as new. */
  lemma ClearEmpties(devices: seq<Device>, d: Device)
    ensures ItemCount(Clear(devices)) == 0
    ensures AddDevice(Clear(devices), d) == [d]
  {
    assert !HasName([], d.serviceName);
  }
}
