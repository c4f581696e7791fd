/**
 The SCSI side of a virtual machine's device list: which controllers there are, which of
 them has room, and which unit number the next disk gets.
 */
module ScsiBus {
  import opened Wrappers

  const SCSI_CONTROLLER_LIMIT: nat := 4
  const SCSI_CONTROLLER_DEVICE_LIMIT: nat := 15
  const SCSI_DEVICE_SLOTS: nat := 16
  const SCSI_RESERVED_SLOT: nat := 7

  /** The controller types counted against the limit, by the name the device library reports. */
  const SCSI_TYPES: set<string> := {"scsi", "lsilogic", "buslogic", "pvscsi", "lsilogic-sas"}

  /** Controllers carry the library's type name; disks the file behind them, when they have one. */
  datatype Kind = Controller(typeName: string) | Disk(file: Option<string>) | Other

  /** bus is the key of the controller the device hangs off. */
  datatype Device = Device(key: int, bus: Option<int>, unit: Option<int>, kind: Kind)

  predicate IsScsi(d: Device) {
    d.kind.Controller? && d.kind.typeName in SCSI_TYPES
  }

  function KeepIf(keep: bool, d: Device): seq<Device> {
    if keep then [d] else []
  }

  function OfType(devices: seq<Device>, typeName: string): seq<Device> {
    if devices == [] then []
    else KeepIf(devices[0].kind == Controller(typeName), devices[0]) + OfType(devices[1..], typeName)
  }

  function ScsiControllers(devices: seq<Device>): seq<Device> {
    if devices == [] then [] else KeepIf(IsScsi(devices[0]), devices[0]) + ScsiControllers(devices[1..])
  }

  /** The number of devices a controller lists. */
  function Load(devices: seq<Device>, key: int): nat {
    if devices == [] then 0
    else (if devices[0].bus == Some(key) then 1 else 0) + Load(devices[1..], key)
  }

  predicate HasRoom(devices: seq<Device>, controller: Device) {
    Load(devices, controller.key) < SCSI_CONTROLLER_DEVICE_LIMIT
  }

  /** The first controller of the list with room on it. */
  function FirstWithRoom(devices: seq<Device>, controllers: seq<Device>): Option<Device> {
    if controllers == [] then None
    else if HasRoom(devices, controllers[0]) then Some(controllers[0])
    else FirstWithRoom(devices, controllers[1..])
  }

  function Available(devices: seq<Device>, typeName: string): Option<Device> {
    FirstWithRoom(devices, OfType(devices, typeName))
  }

  predicate Taken(devices: seq<Device>, key: int, unit: int) {
    exists i | 0 <= i < |devices| :: devices[i].bus == Some(key) && devices[i].unit == Some(unit)
  }

  predicate IsSlot(unit: int) {
    0 <= unit < SCSI_DEVICE_SLOTS && unit != SCSI_RESERVED_SLOT
  }

  predicate Free(devices: seq<Device>, key: int, unit: int) {
    IsSlot(unit) && !Taken(devices, key, unit)
  }

  /** The lowest free slot from u on. */
  function LowestFree(devices: seq<Device>, key: int, u: nat): Option<int>
    requires u <= SCSI_DEVICE_SLOTS
    decreases SCSI_DEVICE_SLOTS - u
  {
    if u == SCSI_DEVICE_SLOTS then None
    else if Free(devices, key, u) then Some(u)
    else LowestFree(devices, key, u + 1)
  }

  lemma {:induction false} LowestFreeIsLowest(devices: seq<Device>, key: int, u: nat)
    requires u <= SCSI_DEVICE_SLOTS
    ensures var r := LowestFree(devices, key, u);
            && (r.Some? ==> u <= r.value && Free(devices, key, r.value) &&
                            forall v | u <= v < r.value :: !Free(devices, key, v))
            && (r.None? ==> forall v | u <= v < SCSI_DEVICE_SLOTS :: !Free(devices, key, v))
    decreases SCSI_DEVICE_SLOTS - u
  {
    if u < SCSI_DEVICE_SLOTS { LowestFreeIsLowest(devices, key, u + 1); }
  }

  // ---------- fewer than fifteen devices leave a slot ----------

  function UnitsOn(devices: seq<Device>, key: int): set<int> {
    if devices == [] then {}
    else (if devices[0].bus == Some(key) && devices[0].unit.Some? then {devices[0].unit.value} else {})
         + UnitsOn(devices[1..], key)
  }

  lemma {:induction false} UnitsOnCounts(devices: seq<Device>, key: int)
    ensures |UnitsOn(devices, key)| <= Load(devices, key)
    ensures forall u :: Taken(devices, key, u) ==> u in UnitsOn(devices, key)
  {
    if devices != [] {
      UnitsOnCounts(devices[1..], key);
      var head := if devices[0].bus == Some(key) && devices[0].unit.Some? then {devices[0].unit.value} else {};
      UnionSize(head, UnitsOn(devices[1..], key));
      forall u | Taken(devices, key, u)
        ensures u in UnitsOn(devices, key)
      {
        var i :| 0 <= i < |devices| && devices[i].bus == Some(key) && devices[i].unit == Some(u);
        if i > 0 {
          assert devices[1..][i - 1] == devices[i];
          assert Taken(devices[1..], key, u);
        }
      }
    }
  }

  lemma UnionSize(a: set<int>, b: set<int>)
    ensures |a + b| <= |a| + |b|
  {
    assert a + b == a + (b - a);
    assert b == (b - a) + (b * a);
  }

  function Slots(n: nat): set<int> {
    set u: int | 0 <= u < n && IsSlot(u)
  }

  lemma {:induction false} SlotCount(n: nat)
    requires n <= SCSI_DEVICE_SLOTS
    ensures |Slots(n)| == if n > SCSI_RESERVED_SLOT then n - 1 else n
  {
    if n > 0 {
      SlotCount(n - 1);
      assert Slots(n) == Slots(n - 1) + if n - 1 == SCSI_RESERVED_SLOT then {} else {n - 1};
    } else {
      assert Slots(0) == {};
    }
  }

  lemma SubsetSize(a: set<int>, b: set<int>)
    requires a <= b
    ensures |a| <= |b|
  {
    assert b == a + (b - a);
  }

  /** Pigeonhole: fifteen slots, fewer than fifteen devices. */
  lemma RoomMeansFreeSlot(devices: seq<Device>, key: int)
    requires Load(devices, key) < SCSI_CONTROLLER_DEVICE_LIMIT
    ensures LowestFree(devices, key, 0).Some?
  {
    LowestFreeIsLowest(devices, key, 0);
    UnitsOnCounts(devices, key);
    SlotCount(SCSI_DEVICE_SLOTS);
    hide LowestFree, Load, UnitsOn, Taken;
    if LowestFree(devices, key, 0).None? {
      forall u | u in Slots(SCSI_DEVICE_SLOTS) ensures u in UnitsOn(devices, key) {
        assert !Free(devices, key, u);
      }
      SubsetSize(Slots(SCSI_DEVICE_SLOTS), UnitsOn(devices, key));
      assert false;
    }
  }

  // ---------- the source's loops ----------

  method GetSCSIControllersOfType(devices: seq<Device>, typeName: string) returns (found: seq<Device>)
    ensures found == OfType(devices, typeName)
  {
    found := [];
    for i := 0 to |devices|
      invariant found + OfType(devices[i..], typeName) == OfType(devices, typeName)
    {
      if devices[i].kind == Controller(typeName) {
        found := found + [devices[i]];
      }
    }
  }

  method GetSCSIControllers(devices: seq<Device>) returns (found: seq<Device>)
    ensures found == ScsiControllers(devices)
  {
    found := [];
    for i := 0 to |devices|
      invariant found + ScsiControllers(devices[i..]) == ScsiControllers(devices)
    {
      if IsScsi(devices[i]) {
        found := found + [devices[i]];
      }
    }
  }

  method GetAvailableSCSIController(devices: seq<Device>, controllers: seq<Device>) returns (found: Option<Device>)
    ensures found == FirstWithRoom(devices, controllers)
  {
    for i := 0 to |controllers|
      invariant FirstWithRoom(devices, controllers[i..]) == FirstWithRoom(devices, controllers)
    {
      if HasRoom(devices, controllers[i]) {
        return Some(controllers[i]);
      }
    }
    return None;
  }

  /** The source indexes an array of sixteen with the unit numbers it meets. */
  ghost predicate UnitsFit(devices: seq<Device>, key: int) {
    forall i | 0 <= i < |devices| && devices[i].bus == Some(key) && devices[i].unit.Some? ::
      0 <= devices[i].unit.value < SCSI_DEVICE_SLOTS
  }

  method GetNextUnitNumber(devices: seq<Device>, key: int) returns (unit: Option<int>)
    requires UnitsFit(devices, key)
    ensures unit == LowestFree(devices, key, 0)
  {
    var taken := new bool[SCSI_DEVICE_SLOTS](_ => false);
    taken[SCSI_RESERVED_SLOT] := true;
    for i := 0 to |devices|
      invariant forall u | 0 <= u < SCSI_DEVICE_SLOTS ::
                  taken[u] <==> u == SCSI_RESERVED_SLOT || Taken(devices[..i], key, u)
    {
      var d := devices[i];
      if d.bus == Some(key) && d.unit.Some? {
        taken[d.unit.value] := true;
      }
      TakenGrows(devices, i, key);
    }
    assert devices[..|devices|] == devices;
    for u := 0 to SCSI_DEVICE_SLOTS
      invariant LowestFree(devices, key, u) == LowestFree(devices, key, 0)
    {
      if !taken[u] {
        return Some(u);
      }
    }
    return None;
  }

  lemma TakenGrows(devices: seq<Device>, i: nat, key: int)
    requires i < |devices|
    ensures forall u :: Taken(devices[..i + 1], key, u) <==>
              Taken(devices[..i], key, u) || (devices[i].bus == Some(key) && devices[i].unit == Some(u))
  {
    forall u
      ensures Taken(devices[..i + 1], key, u) <==>
              Taken(devices[..i], key, u) || (devices[i].bus == Some(key) && devices[i].unit == Some(u))
    {
      if Taken(devices[..i], key, u) {
        var j :| 0 <= j < i && devices[..i][j].bus == Some(key) && devices[..i][j].unit == Some(u);
        assert devices[..i + 1][j] == devices[..i][j];
      }
      assert devices[..i + 1][i] == devices[i];
      if Taken(devices[..i + 1], key, u) {
        var j :| 0 <= j < i + 1 && devices[..i + 1][j].bus == Some(key) && devices[..i + 1][j].unit == Some(u);
        if j < i { assert devices[..i][j] == devices[..i + 1][j]; }
      }
    }
  }
}
