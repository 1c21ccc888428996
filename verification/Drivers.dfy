/** The device manager: devices and drivers register in any order and are bound to each other. */
module Drivers {
  import opened Common

  const MAX_DEVICES: nat := 64
  const MAX_DRIVERS: nat := 32
  const ANY_ID: nat := 0xFFFF

  datatype Bus = Platform | Pci | Usb | Virtio

  /** What drivers look at; a probe does not change it. */
  datatype Identity = Identity(bus: Bus, vendor: nat, device: nat)

  /** `driver` is the index of the driver bound to the device, -1 for none. */
  datatype Device = Device(identity: Identity, driver: int, active: bool)

  datatype Driver = Driver(bus: Bus, vendor: nat, device: nat, probeId: nat, active: bool)

  /** Whether the probe routine of a driver accepts a device: a fixed answer. */
  type Probe = (nat, Identity) -> bool

  predicate Matches(drv: Driver, dev: Identity) {
    && drv.bus == dev.bus
    && (drv.vendor == ANY_ID || drv.vendor == dev.vendor)
    && (drv.device == ANY_ID || drv.device == dev.device)
  }

  predicate Serves(drv: Driver, dev: Identity, probe: Probe) {
    drv.active && Matches(drv, dev) && probe(drv.probeId, dev)
  }

  /** The lowest driver at or after `i` that serves the device, or -1. */
  function Best(drivers: seq<Driver>, dev: Identity, probe: Probe, i: nat): (r: int)
    requires i <= |drivers|
    ensures r == -1 || (i <= r < |drivers| && Serves(drivers[r], dev, probe))
    ensures forall j :: i <= j < (if r == -1 then |drivers| else r) ==> !Serves(drivers[j], dev, probe)
    decreases |drivers| - i
  {
    if i == |drivers| then -1 else if Serves(drivers[i], dev, probe) then i else Best(drivers, dev, probe, i + 1)
  }

  datatype Registry = Registry(devices: seq<Device>, drivers: seq<Driver>)

  function FreeDevice(devices: seq<Device>, i: nat): nat
    requires i <= |devices|
  {
    FirstSuch(devices, (d: Device) => !d.active, i)
  }

  function FreeDriver(drivers: seq<Driver>, i: nat): nat
    requires i <= |drivers|
  {
    FirstSuch(drivers, (d: Driver) => !d.active, i)
  }

  /** A device that no driver serves keeps the index it arrived with. */
  function Bound(dev: Device, drivers: seq<Driver>, probe: Probe): Device {
    var best := Best(drivers, dev.identity, probe, 0);
    if best == -1 then dev else dev.(driver := best)
  }

  function WithDevice(r: Registry, dev: Device, probe: Probe): (Registry, Option<nat>) {
    var k := FreeDevice(r.devices, 0);
    if k == |r.devices| then (r, None)
    else (r.(devices := r.devices[k := Bound(dev.(active := true), r.drivers, probe)]), Some(k))
  }

  /** A new driver `i` takes an active device that is unbound and that it serves. */
  function Offered(dev: Device, drv: Driver, i: nat, probe: Probe): Device {
    if dev.active && dev.driver < 0 && Matches(drv, dev.identity) && probe(drv.probeId, dev.identity)
    then dev.(driver := i) else dev
  }

  function AllOffered(devices: seq<Device>, drv: Driver, i: nat, probe: Probe): seq<Device> {
    seq(|devices|, d requires 0 <= d < |devices| => Offered(devices[d], drv, i, probe))
  }

  function WithDriver(r: Registry, drv: Driver, probe: Probe): (Registry, Option<nat>) {
    var i := FreeDriver(r.drivers, 0);
    if i == |r.drivers| then (r, None)
    else
      (Registry(AllOffered(r.devices, drv, i, probe), r.drivers[i := drv.(active := true)]), Some(i))
  }

  /** Being active is not part of the offer. */
  lemma OfferIgnoresActive(devices: seq<Device>, drv: Driver, i: nat, probe: Probe)
    ensures AllOffered(devices, drv.(active := true), i, probe) == AllOffered(devices, drv, i, probe)
  {
  }

  /** Every active device is bound to the lowest driver that serves it, and to none exactly when none does. */
  ghost predicate WellBound(r: Registry, probe: Probe) {
    forall d :: 0 <= d < |r.devices| && r.devices[d].active ==>
      r.devices[d].driver == Best(r.drivers, r.devices[d].identity, probe, 0)
  }

  /** Drivers never leave, so they fill the table from the front. */
  ghost predicate Packed(drivers: seq<Driver>, n: nat) {
    n <= |drivers| && forall i :: 0 <= i < |drivers| ==> (drivers[i].active <==> i < n)
  }

  lemma {:induction false} NextDriver(drivers: seq<Driver>, n: nat, i: nat)
    requires Packed(drivers, n) && i <= n
    ensures FreeDriver(drivers, i) == n
    decreases n - i
  {
    if i < n {
      NextDriver(drivers, n, i + 1);
    }
  }

  /** The newest driver is the last choice for every device. */
  lemma NewestIsLast(drivers: seq<Driver>, n: nat, drv: Driver, dev: Identity, probe: Probe)
    requires Packed(drivers, n) && n < |drivers| && drv.active
    ensures Best(drivers[n := drv], dev, probe, 0) ==
      if Best(drivers, dev, probe, 0) != -1 then Best(drivers, dev, probe, 0)
      else if Serves(drv, dev, probe) then n
      else -1
  {
    var more := drivers[n := drv];
    var before, after := Best(drivers, dev, probe, 0), Best(more, dev, probe, 0);
    assert forall j :: 0 <= j < |drivers| && j != n ==> more[j] == drivers[j];
    assert more[n] == drv;
    if before != -1 {
      assert Serves(more[before], dev, probe);
    }
  }

  /** A driver serves its own bus only, and there one device, one vendor, one device id or everything, as it asks. */
  lemma WhatADriverMatches(drv: Driver, dev: Identity)
    ensures drv.vendor != 0xFFFF && drv.device != 0xFFFF ==>
      (Matches(drv, dev) <==> dev == Identity(drv.bus, drv.vendor, drv.device))
    ensures drv.vendor != 0xFFFF && drv.device == 0xFFFF ==>
      (Matches(drv, dev) <==> dev.bus == drv.bus && dev.vendor == drv.vendor)
    ensures drv.vendor == 0xFFFF && drv.device != 0xFFFF ==>
      (Matches(drv, dev) <==> dev.bus == drv.bus && dev.device == drv.device)
    ensures drv.vendor == 0xFFFF && drv.device == 0xFFFF ==> (Matches(drv, dev) <==> dev.bus == drv.bus)
  {
  }

  /** A device takes the lowest free slot, becomes active there with its identity, and nothing else changes. */
  lemma DeviceTakesLowestSlot(r: Registry, dev: Device, probe: Probe)
    ensures var (r2, k) := WithDevice(r, dev, probe);
      && (k.None? <==> forall d :: 0 <= d < |r.devices| ==> r.devices[d].active)
      && (k.None? ==> r2 == r)
      && (k.Some? ==>
            && k.value < |r.devices| == |r2.devices| && !r.devices[k.value].active
            && (forall d :: 0 <= d < k.value ==> r.devices[d].active)
            && r2.devices[k.value].active && r2.devices[k.value].identity == dev.identity
            && (forall d :: 0 <= d < |r.devices| && d != k.value ==> r2.devices[d] == r.devices[d])
            && r2.drivers == r.drivers)
  {
  }

  /** A driver takes the lowest free slot, is active there as given, and the devices keep slot and identity. */
  lemma DriverTakesLowestSlot(r: Registry, drv: Driver, probe: Probe)
    ensures var (r2, i) := WithDriver(r, drv, probe);
      && (i.None? <==> forall j :: 0 <= j < |r.drivers| ==> r.drivers[j].active)
      && (i.None? ==> r2 == r)
      && (i.Some? ==>
            && i.value < |r.drivers| == |r2.drivers| && !r.drivers[i.value].active
            && (forall j :: 0 <= j < i.value ==> r.drivers[j].active)
            && r2.drivers[i.value] == drv.(active := true)
            && (forall j :: 0 <= j < |r.drivers| && j != i.value ==> r2.drivers[j] == r.drivers[j])
            && |r2.devices| == |r.devices|
            && forall d :: 0 <= d < |r.devices| ==>
                 && r2.devices[d].active == r.devices[d].active && r2.devices[d].identity == r.devices[d].identity
                 && (r.devices[d].driver >= 0 ==> r2.devices[d] == r.devices[d]))
  {
  }

  /** A bound driver matches the device and accepts it, and no lower one does both. */
  lemma BoundDriverAccepts(r: Registry, probe: Probe, d: nat)
    requires WellBound(r, probe) && d < |r.devices| && r.devices[d].active
    ensures var i, dev := r.devices[d].driver, r.devices[d].identity;
      && -1 <= i < |r.drivers|
      && (i >= 0 ==>
            r.drivers[i].active && Matches(r.drivers[i], dev) && probe(r.drivers[i].probeId, dev))
      && forall j :: 0 <= j < (if i < 0 then |r.drivers| else i) ==>
           !(r.drivers[j].active && Matches(r.drivers[j], dev) && probe(r.drivers[j].probeId, dev))
  {
    hide Matches;
    var i, dev := r.devices[d].driver, r.devices[d].identity;
    assert i == Best(r.drivers, dev, probe, 0);
    forall j | 0 <= j < (if i < 0 then |r.drivers| else i)
      ensures !(r.drivers[j].active && Matches(r.drivers[j], dev) && probe(r.drivers[j].probeId, dev))
    {
      assert !Serves(r.drivers[j], dev, probe);
    }
  }

  datatype Op = NewDevice(device: Device) | NewDriver(driver: Driver)

  /** Devices arrive unbound. */
  predicate Enabled(op: Op) {
    op.NewDevice? ==> op.device.driver == -1
  }

  function Step(r: Registry, op: Op, probe: Probe): Registry {
    match op
    case NewDevice(dev) => WithDevice(r, dev, probe).0
    case NewDriver(drv) => WithDriver(r, drv, probe).0
  }

  function Run(r: Registry, ops: seq<Op>, probe: Probe): Registry
    decreases |ops|
  {
    if |ops| == 0 then r else Run(Step(r, ops[0], probe), ops[1..], probe)
  }

  lemma StepKeepsBinding(r: Registry, n: nat, op: Op, probe: Probe) returns (n2: nat)
    requires WellBound(r, probe) && Packed(r.drivers, n) && Enabled(op)
    ensures WellBound(Step(r, op, probe), probe) && Packed(Step(r, op, probe).drivers, n2)
  {
    n2 := n;
    match op
    case NewDevice(dev) =>
    case NewDriver(drv) =>
      NextDriver(r.drivers, n, 0);
      if n < |r.drivers| {
        n2 := n + 1;
        var s := Step(r, op, probe);
        forall d | 0 <= d < |s.devices| && s.devices[d].active
          ensures s.devices[d].driver == Best(s.drivers, s.devices[d].identity, probe, 0)
        {
          NewestIsLast(r.drivers, n, drv.(active := true), r.devices[d].identity, probe);
        }
      }
  }

  /** After any interleaving of registrations each active device has the lowest-index driver that serves it. */
  lemma {:induction false} RunKeepsBinding(r: Registry, n: nat, ops: seq<Op>, probe: Probe)
    requires WellBound(r, probe) && Packed(r.drivers, n) && forall i :: 0 <= i < |ops| ==> Enabled(ops[i])
    ensures WellBound(Run(r, ops, probe), probe)
    decreases |ops|
  {
    if |ops| != 0 {
      assert Enabled(ops[0]);
      var n2 := StepKeepsBinding(r, n, ops[0], probe);
      RunKeepsBinding(Step(r, ops[0], probe), n2, ops[1..], probe);
    }
  }

  function Blank(): Registry {
    Registry(seq(MAX_DEVICES, d => Device(Identity(Platform, 0, 0), -1, false)),
             seq(MAX_DRIVERS, i => Driver(Platform, 0, 0, 0, false)))
  }

  /** Two histories that end with the same drivers bind the same devices alike, whatever came first. */
  lemma OrderDoesNotMatter(ops: seq<Op>, others: seq<Op>, probe: Probe, d: nat, e: nat)
    requires forall i :: 0 <= i < |ops| ==> Enabled(ops[i])
    requires forall i :: 0 <= i < |others| ==> Enabled(others[i])
    requires var r, s := Run(Blank(), ops, probe), Run(Blank(), others, probe);
      && r.drivers == s.drivers && d < |r.devices| && e < |s.devices|
      && r.devices[d].active && s.devices[e].active && r.devices[d].identity == s.devices[e].identity
    ensures Run(Blank(), ops, probe).devices[d].driver == Run(Blank(), others, probe).devices[e].driver
  {
    hide Run;
    RunKeepsBinding(Blank(), 0, ops, probe);
    RunKeepsBinding(Blank(), 0, others, probe);
  }

  // ---- The calls ----

  class DeviceManager {
    const devices: array<Device>
    const drivers: array<Driver>
    const probe: Probe

    constructor (probe: Probe)
      ensures Valid() && fresh(devices) && fresh(drivers) && this.probe == probe && Value() == Blank()
    {
      this.probe := probe;
      devices := new Device[MAX_DEVICES](d => Device(Identity(Platform, 0, 0), -1, false));
      drivers := new Driver[MAX_DRIVERS](i => Driver(Platform, 0, 0, 0, false));
    }

    ghost predicate Valid() {
      devices.Length == MAX_DEVICES && drivers.Length == MAX_DRIVERS && (devices as object) != drivers
    }

    ghost function Value(): Registry
      reads devices, drivers
    {
      Registry(devices[..], drivers[..])
    }

    method RegisterDevice(dev: Device) returns (slot: Option<nat>)
      requires Valid()
      modifies devices
      ensures WithDevice(old(Value()), dev, probe) == (Value(), slot)
    {
      for i := 0 to MAX_DEVICES
        invariant FreeDevice(devices[..], 0) == FreeDevice(devices[..], i)
        invariant devices[..] == old(devices[..])
      {
        if !devices[i].active {
          devices[i] := dev.(active := true);
          TryBindDriver(i);
          assert devices[..] == old(devices[..])[i := Bound(dev.(active := true), drivers[..], probe)];
          return Some(i);
        }
      }
      return None;
    }

    method TryBindDriver(d: nat)
      requires Valid() && d < MAX_DEVICES
      modifies devices
      ensures devices[..] == old(devices[..])[d := Bound(old(devices[d]), drivers[..], probe)]
    {
      ghost var was := devices[..];
      for i := 0 to MAX_DRIVERS
        invariant devices[..] == was
        invariant Best(drivers[..], devices[d].identity, probe, 0) == Best(drivers[..], devices[d].identity, probe, i)
      {
        if drivers[i].active && Matches(drivers[i], devices[d].identity) {
          var accepted := probe(drivers[i].probeId, devices[d].identity);
          if accepted {
            devices[d] := devices[d].(driver := i);
            return;
          }
        }
      }
    }

    method RegisterDriver(drv: Driver) returns (slot: Option<nat>)
      requires Valid()
      modifies devices, drivers
      ensures WithDriver(old(Value()), drv, probe) == (Value(), slot)
    {
      for i := 0 to MAX_DRIVERS
        invariant FreeDriver(drivers[..], 0) == FreeDriver(drivers[..], i)
        invariant Value() == old(Value())
      {
        if !drivers[i].active {
          drivers[i] := drv.(active := true);
          OfferDevices(i);
          OfferIgnoresActive(old(devices[..]), drv, i, probe);
          return Some(i);
        }
      }
      return None;
    }

    method OfferDevices(i: nat)
      requires Valid() && i < MAX_DRIVERS
      modifies devices
      ensures devices[..] == AllOffered(old(devices[..]), drivers[i], i, probe)
    {
      ghost var was := devices[..];
      for d := 0 to MAX_DEVICES
        invariant forall e :: 0 <= e < MAX_DEVICES ==>
          devices[e] == if e < d then Offered(was[e], drivers[i], i, probe) else was[e]
      {
        if devices[d].active && devices[d].driver < 0 && Matches(drivers[i], devices[d].identity) {
          var accepted := probe(drivers[i].probeId, devices[d].identity);
          if accepted {
            devices[d] := devices[d].(driver := i);
          }
        }
      }
      assert devices[..] == AllOffered(was, drivers[i], i, probe);
    }
  }
}
