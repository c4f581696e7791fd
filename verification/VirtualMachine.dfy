/**
 AttachDisk and DetachDisk over the device list a virtual machine keeps.  The list lives in
 vCenter; the source reads it afresh before most decisions, sometimes decides on a copy
 that is already stale, and undoes what it did when a later call fails.
 */
module VirtualMachine {
  import opened Sequences
  import opened Wrappers
  import opened DiskPath
  import opened DiskPathRewriting
  import opened ScsiBus

  /** Requested types the source accepts, and type names its device library can create. */
  const VALID_TYPES: set<string> := {"lsiLogic", "lsiLogic-sas", "pvscsi"}
  const LIBRARY_TYPES: set<string> := {"lsilogic", "buslogic", "pvscsi", "lsilogic-sas"}

  /** The machine as vCenter holds it; nextKey is the first device key never used. */
  datatype Machine = Machine(devices: seq<Device>, nextKey: int)

  /** Which of the external calls of one request fail. A failing call changes nothing. */
  datatype Faults = Faults(
    lookup: bool,               // device list, when looking for the disk
    policy: bool,               // storage policy service
    datastore: bool,            // datastore of the disk
    list: bool,                 // device list, when choosing a controller
    listForController: bool,    // device list, before creating a controller
    addController: bool,        // adding that controller
    listAfterController: bool,  // device list, after creating a controller
    listBeforeDisk: bool,       // device list, before adding the disk
    addDisk: bool,              // reconfigure request, or the task it started
    diskUuid: bool,             // query for the disk's UUID
    detachLookup: bool,         // device list, when cleaning up the disk
    removeDisk: bool,           // removing a disk
    removeController: bool)     // removing a controller

  const NO_FAULTS: Faults :=
    Faults(false, false, false, false, false, false, false, false, false, false, false, false, false)

  datatype Outcome = AlreadyAttached | Attached | Failed

  // ---------- the meaning of the operations ----------

  predicate BacksDisk(d: Device, path: string) {
    d.kind.Disk? && d.kind.file.Some? && Matches(d.kind.file.value, path)
  }

  /** The first disk whose file matches the path. */
  function FindDisk(devices: seq<Device>, path: string): Option<Device> {
    if devices == [] then None
    else if BacksDisk(devices[0], path) then Some(devices[0])
    else FindDisk(devices[1..], path)
  }

  function Without(devices: seq<Device>, key: int): seq<Device> {
    if devices == [] then []
    else (if devices[0].key == key then [] else [devices[0]]) + Without(devices[1..], key)
  }

  function NewController(m: Machine, typeName: string): Device {
    Device(m.nextKey, None, None, Controller(typeName))
  }

  function NewDisk(m: Machine, bus: int, unit: int, path: string): Device {
    Device(m.nextKey, Some(bus), Some(unit), Disk(Some(BackingName(path))))
  }

  function Plug(m: Machine, d: Device): Machine {
    Machine(m.devices + [d], m.nextKey + 1)
  }

  /** Removal of the last device of the type in a list read earlier. */
  function DropLast(m: Machine, read: seq<Device>, typeName: string, fails: bool): Machine {
    var same := OfType(read, typeName);
    if same == [] || fails then m else m.(devices := Without(m.devices, same[|same| - 1].key))
  }

  function AfterDetach(m: Machine, path: string, lookupFails: bool, removeFails: bool): Machine {
    var found := if lookupFails then None else FindDisk(m.devices, path);
    if found.None? || removeFails then m else m.(devices := Without(m.devices, found.value.key))
  }

  /** Where a disk is to go, on which machine, and the controller made for it. */
  datatype Place = Refused(m: Machine) | Placed(m: Machine, bus: int, unit: int, created: bool)

  function ChoosePlace(m: Machine, typeName: string, f: Faults): Place {
    if f.list then Refused(m)
    else
      match Available(m.devices, typeName)
      case Some(c) =>
        var unit := LowestFree(m.devices, c.key, 0);
        if unit.None? then Refused(m) else Placed(m, c.key, unit.value, false)
      case None =>
        if f.listForController || |ScsiControllers(m.devices)| >= SCSI_CONTROLLER_LIMIT || typeName !in LIBRARY_TYPES
        then Refused(m)
        else if f.addController
        then Refused(DropLast(m, m.devices, typeName, f.removeController))
        else if f.listAfterController
        then Refused(Plug(m, NewController(m, typeName)))
        else Placed(Plug(m, NewController(m, typeName)), m.nextKey, 0, true)
  }

  /** The clean-up of a controller this request created, by the list read before adding the disk. */
  function Undo(m: Machine, place: Place, typeName: string, f: Faults): Machine
    requires place.Placed?
  {
    if place.created then DropLast(m, place.m.devices, typeName, f.removeController) else m
  }

  function PlugDisk(place: Place, path: string): Machine
    requires place.Placed?
  {
    Plug(place.m, NewDisk(place.m, place.bus, place.unit, path))
  }

  function AfterPlace(place: Place, typeName: string, path: string, undo: string, f: Faults): (Machine, Outcome) {
    if place.Refused? || f.listBeforeDisk then (place.m, Failed)
    else if f.addDisk then (Undo(place.m, place, typeName, f), Failed)
    else if f.diskUuid then
      (Undo(AfterDetach(PlugDisk(place, path), undo, f.detachLookup, f.removeDisk), place, typeName, f), Failed)
    else (PlugDisk(place, path), Attached)
  }

  /**
   What one AttachDisk of an already normalised path does.  Its clean-up detaches by undo, the
   path normalised once more.
   */
  function AfterAttach(m: Machine, path: string, undo: string, typeName: string, f: Faults): (Machine, Outcome) {
    if typeName !in VALID_TYPES || f.lookup then (m, Failed)
    else if FindDisk(m.devices, path).Some? then (m, AlreadyAttached)
    else if f.policy || f.datastore then (m, Failed)
    else AfterPlace(ChoosePlace(m, typeName, f), typeName, path, undo, f)
  }

  // ---------- the invariant ----------

  ghost predicate KeysDistinct(devices: seq<Device>) {
    devices == [] || ((forall d | d in devices[1..] :: d.key != devices[0].key) && KeysDistinct(devices[1..]))
  }

  ghost predicate KeysUsed(m: Machine) {
    && KeysDistinct(m.devices)
    && (forall d | d in m.devices :: d.key < m.nextKey && (d.bus.Some? ==> d.bus.value < m.nextKey))
  }

  /** The device sits on a SCSI controller of the list. */
  ghost predicate OnScsi(devices: seq<Device>, d: Device) {
    d.bus.Some? && exists c | c in devices :: IsScsi(c) && c.key == d.bus.value
  }

  /** On SCSI controllers every unit is a slot, and no two devices of a controller share one. */
  ghost predicate UnitsDistinct(devices: seq<Device>) {
    && (forall d | d in devices && OnScsi(devices, d) && d.unit.Some? :: IsSlot(d.unit.value))
    && (forall d, e | d in devices && e in devices && d.key != e.key && OnScsi(devices, d) ::
          d.bus == e.bus && d.unit.Some? ==> d.unit != e.unit)
  }

  ghost predicate WithinLimits(devices: seq<Device>) {
    && |ScsiControllers(devices)| <= SCSI_CONTROLLER_LIMIT
    && (forall c | c in devices && IsScsi(c) :: Load(devices, c.key) <= SCSI_CONTROLLER_DEVICE_LIMIT)
  }

  /** No two disks are backed by the same file, up to one extension. */
  ghost predicate FilesDistinct(devices: seq<Device>) {
    forall d, e | d in devices && e in devices && d.key != e.key && d.kind.Disk? && d.kind.file.Some? ::
      !BacksDisk(e, d.kind.file.value)
  }

  /** The device library reports every controller under a lower-case name. */
  ghost predicate LibraryNames(devices: seq<Device>) {
    forall d | d in devices && d.kind.Controller? :: d.kind.typeName != "lsiLogic" && d.kind.typeName != "lsiLogic-sas"
  }

  ghost predicate WellFormed(m: Machine) {
    && LibraryNames(m.devices) && KeysUsed(m) && UnitsDistinct(m.devices)
    && WithinLimits(m.devices) && FilesDistinct(m.devices)
  }

  // ---------- device lists that grow at the end and shrink anywhere ----------

  lemma {:induction false} OfTypeAppend(devices: seq<Device>, d: Device, typeName: string)
    ensures OfType(devices + [d], typeName) == OfType(devices, typeName) + KeepIf(d.kind == Controller(typeName), d)
  {
    hide KeepIf;
    if devices == [] {
      assert devices + [d] == [d];
    } else {
      assert (devices + [d])[1..] == devices[1..] + [d];
      OfTypeAppend(devices[1..], d, typeName);
      Assoc(KeepIf(devices[0].kind == Controller(typeName), devices[0]), OfType(devices[1..], typeName),
            KeepIf(d.kind == Controller(typeName), d));
    }
  }

  lemma {:induction false} ScsiAppend(devices: seq<Device>, d: Device)
    ensures ScsiControllers(devices + [d]) == ScsiControllers(devices) + KeepIf(IsScsi(d), d)
  {
    hide KeepIf, IsScsi;
    if devices == [] {
      assert devices + [d] == [d];
    } else {
      assert (devices + [d])[1..] == devices[1..] + [d];
      ScsiAppend(devices[1..], d);
      Assoc(KeepIf(IsScsi(devices[0]), devices[0]), ScsiControllers(devices[1..]), KeepIf(IsScsi(d), d));
    }
  }

  lemma {:induction false} LoadAppend(devices: seq<Device>, d: Device, key: int)
    ensures Load(devices + [d], key) == Load(devices, key) + if d.bus == Some(key) then 1 else 0
  {
    if devices == [] {
      assert devices + [d] == [d];
    } else {
      assert (devices + [d])[1..] == devices[1..] + [d];
      LoadAppend(devices[1..], d, key);
    }
  }

  lemma {:induction false} AppendKeys(devices: seq<Device>, d: Device)
    requires KeysDistinct(devices) && forall e | e in devices :: e.key != d.key
    ensures KeysDistinct(devices + [d])
  {
    if devices == [] {
      assert devices + [d] == [d];
    } else {
      assert (devices + [d])[1..] == devices[1..] + [d];
      AppendKeys(devices[1..], d);
    }
  }

  lemma {:induction false} WithoutFacts(devices: seq<Device>, key: int, bus: int)
    ensures forall d :: d in Without(devices, key) <==> d in devices && d.key != key
    ensures KeysDistinct(devices) ==> KeysDistinct(Without(devices, key))
    ensures |ScsiControllers(Without(devices, key))| <= |ScsiControllers(devices)|
    ensures Load(Without(devices, key), bus) <= Load(devices, bus)
  {
    if devices != [] {
      WithoutFacts(devices[1..], key, bus);
      if devices[0].key != key {
        assert Without(devices, key)[1..] == Without(devices[1..], key);
      } else {
        assert Without(devices, key) == Without(devices[1..], key);
      }
    }
  }

  lemma {:induction false} WithoutUnknown(devices: seq<Device>, key: int)
    requires forall d | d in devices :: d.key != key
    ensures Without(devices, key) == devices
  {
    if devices != [] { WithoutUnknown(devices[1..], key); }
  }

  lemma {:induction false} WithoutLast(devices: seq<Device>, d: Device)
    requires forall e | e in devices :: e.key != d.key
    ensures Without(devices + [d], d.key) == devices
  {
    if devices == [] {
      assert devices + [d] == [d];
    } else {
      assert (devices + [d])[1..] == devices[1..] + [d];
      WithoutLast(devices[1..], d);
    }
  }

  lemma {:induction false} FoundDisk(devices: seq<Device>, path: string)
    ensures var r := FindDisk(devices, path);
            && (r.Some? ==> r.value in devices && BacksDisk(r.value, path))
            && (r.None? ==> forall d | d in devices :: !BacksDisk(d, path))
  {
    if devices != [] { FoundDisk(devices[1..], path); }
  }

  lemma {:induction false} FindAppend(devices: seq<Device>, d: Device, path: string)
    requires FindDisk(devices, path).None?
    ensures FindDisk(devices + [d], path) == if BacksDisk(d, path) then Some(d) else None
  {
    if devices == [] {
      assert devices + [d] == [d];
    } else {
      assert (devices + [d])[1..] == devices[1..] + [d];
      FindAppend(devices[1..], d, path);
    }
  }

  lemma {:induction false} OfTypeMembers(devices: seq<Device>, typeName: string)
    ensures forall d :: d in OfType(devices, typeName) <==> d in devices && d.kind == Controller(typeName)
  {
    if devices != [] { OfTypeMembers(devices[1..], typeName); }
  }

  lemma {:induction false} FirstWithRoomFacts(devices: seq<Device>, controllers: seq<Device>)
    ensures var r := FirstWithRoom(devices, controllers);
            && (r.Some? ==> r.value in controllers && HasRoom(devices, r.value))
            && (r.None? <==> forall c | c in controllers :: !HasRoom(devices, c))
  {
    if controllers != [] { FirstWithRoomFacts(devices, controllers[1..]); }
  }

  // ---------- what keeps a machine well formed ----------

  lemma RemovalKeepsWellFormed(m: Machine, key: int)
    requires WellFormed(m)
    ensures WellFormed(m.(devices := Without(m.devices, key)))
  {
    var left := Without(m.devices, key);
    WithoutFacts(m.devices, key, 0);
    forall c | c in left && IsScsi(c)
      ensures Load(left, c.key) <= SCSI_CONTROLLER_DEVICE_LIMIT
    {
      WithoutFacts(m.devices, key, c.key);
    }
    forall d | d in left && OnScsi(left, d) ensures OnScsi(m.devices, d) {}
  }

  lemma {:induction false} NoLoad(devices: seq<Device>, key: int)
    requires forall d | d in devices :: d.bus != Some(key)
    ensures Load(devices, key) == 0
  {
    if devices != [] { NoLoad(devices[1..], key); }
  }

  lemma ControllerKeepsWellFormed(m: Machine, typeName: string)
    requires WellFormed(m) && |ScsiControllers(m.devices)| < SCSI_CONTROLLER_LIMIT && typeName in LIBRARY_TYPES
    ensures WellFormed(Plug(m, NewController(m, typeName)))
  {
    var c := NewController(m, typeName);
    var grown := m.devices + [c];
    AppendKeys(m.devices, c);
    ScsiAppend(m.devices, c);
    LoadAppend(m.devices, c, c.key);
    NoLoad(m.devices, c.key);
    forall e | e in grown && IsScsi(e)
      ensures Load(grown, e.key) <= SCSI_CONTROLLER_DEVICE_LIMIT
    {
      LoadAppend(m.devices, c, e.key);
    }
    forall d | d in grown && OnScsi(grown, d) ensures d in m.devices && OnScsi(m.devices, d) {}
  }

  lemma DiskKeepsWellFormed(m: Machine, bus: int, unit: int, path: string)
    requires WellFormed(m) && Load(m.devices, bus) < SCSI_CONTROLLER_DEVICE_LIMIT
    requires Free(m.devices, bus, unit) && bus < m.nextKey
    requires FindDisk(m.devices, path).None?
    ensures WellFormed(Plug(m, NewDisk(m, bus, unit, path)))
  {
    var disk := NewDisk(m, bus, unit, path);
    var grown := m.devices + [disk];
    AppendKeys(m.devices, disk);
    ScsiAppend(m.devices, disk);
    forall e | e in grown && IsScsi(e)
      ensures Load(grown, e.key) <= SCSI_CONTROLLER_DEVICE_LIMIT
    {
      LoadAppend(m.devices, disk, e.key);
    }
    FreshDiskUnits(m.devices, disk);
    FreshDiskFiles(m.devices, disk, path);
  }

  lemma FreshDiskUnits(devices: seq<Device>, disk: Device)
    requires UnitsDistinct(devices)
    requires disk.bus.Some? && disk.unit.Some? && Free(devices, disk.bus.value, disk.unit.value) && !IsScsi(disk)
    ensures UnitsDistinct(devices + [disk])
  {
    var grown := devices + [disk];
    forall d | d in devices && OnScsi(grown, d) ensures OnScsi(devices, d) {}
    forall d | d in devices && d.bus == disk.bus ensures d.unit != disk.unit {
      var i :| 0 <= i < |devices| && devices[i] == d;
    }
  }

  lemma FreshDiskFiles(devices: seq<Device>, disk: Device, path: string)
    requires FilesDistinct(devices) && FindDisk(devices, path).None?
    requires disk.kind == Disk(Some(BackingName(path)))
    ensures FilesDistinct(devices + [disk])
  {
    FoundDisk(devices, path);
    forall d | d in devices && d.kind.Disk? && d.kind.file.Some?
      ensures !BacksDisk(disk, d.kind.file.value) && !BacksDisk(d, BackingName(path))
    {
      BackingMatches(path, d.kind.file.value);
      assert !BacksDisk(d, path);
    }
  }

  lemma DropKeepsWellFormed(m: Machine, read: seq<Device>, typeName: string, fails: bool)
    requires WellFormed(m)
    ensures WellFormed(DropLast(m, read, typeName, fails))
  {
    var same := OfType(read, typeName);
    if same != [] {
      RemovalKeepsWellFormed(m, same[|same| - 1].key);
    }
  }

  lemma DetachKeepsWellFormed(m: Machine, path: string, lookupFails: bool, removeFails: bool)
    requires WellFormed(m)
    ensures WellFormed(AfterDetach(m, path, lookupFails, removeFails))
  {
    var found := FindDisk(m.devices, path);
    if found.Some? {
      RemovalKeepsWellFormed(m, found.value.key);
    }
  }

  lemma NewControllerIsEmpty(m: Machine, typeName: string)
    requires KeysUsed(m)
    ensures var grown := Plug(m, NewController(m, typeName)).devices;
            && Free(grown, m.nextKey, 0) && Load(grown, m.nextKey) == 0
            && (exists c | c in grown :: c.key == m.nextKey && c.kind == Controller(typeName))
  {
    var c := NewController(m, typeName);
    NoLoad(m.devices + [c], m.nextKey);
    assert c in m.devices + [c];
  }

  /** Wherever a disk is placed there is a free slot, on a controller of the requested type. */
  lemma PlaceIsFree(m: Machine, typeName: string, f: Faults)
    requires WellFormed(m)
    ensures var place := ChoosePlace(m, typeName, f);
            && WellFormed(place.m)
            && (place.Placed? ==>
                  && Free(place.m.devices, place.bus, place.unit)
                  && Load(place.m.devices, place.bus) < SCSI_CONTROLLER_DEVICE_LIMIT
                  && (exists c | c in place.m.devices :: c.key == place.bus && c.kind == Controller(typeName))
                  && place.m == (if place.created then Plug(m, NewController(m, typeName)) else m)
                  && (place.created <==> Available(m.devices, typeName).None?))
  {
    OfTypeMembers(m.devices, typeName);
    FirstWithRoomFacts(m.devices, OfType(m.devices, typeName));
    if Available(m.devices, typeName).Some? {
      var c := Available(m.devices, typeName).value;
      RoomMeansFreeSlot(m.devices, c.key);
      LowestFreeIsLowest(m.devices, c.key, 0);
    } else if |ScsiControllers(m.devices)| < SCSI_CONTROLLER_LIMIT && typeName in LIBRARY_TYPES {
      NewControllerIsEmpty(m, typeName);
      hide WellFormed, LowestFree, OfType, Free, Load, NewController;
      DropKeepsWellFormed(m, m.devices, typeName, f.removeController);
      ControllerKeepsWellFormed(m, typeName);
    }
  }

  /** The disk a request adds is the one its path finds, and nothing found it before. */
  lemma PlacedDisk(m: Machine, typeName: string, path: string, f: Faults)
    requires WellFormed(m) && FindDisk(m.devices, path).None? && ChoosePlace(m, typeName, f).Placed?
    ensures var place := ChoosePlace(m, typeName, f);
            var disk := NewDisk(place.m, place.bus, place.unit, path);
            && WellFormed(PlugDisk(place, path))
            && FindDisk(place.m.devices, path).None?
            && FindDisk(PlugDisk(place, path).devices, path) == Some(disk)
            && (forall d | d in place.m.devices :: d.key != disk.key)
  {
    var place := ChoosePlace(m, typeName, f);
    PlaceIsFree(m, typeName, f);
    FindAppend(m.devices, NewController(m, typeName), path);
    BackingMatches(path, path);
    FindAppend(place.m.devices, NewDisk(place.m, place.bus, place.unit, path), path);
    DiskKeepsWellFormed(place.m, place.bus, place.unit, path);
  }

  lemma UndoKeepsWellFormed(m: Machine, place: Place, typeName: string, f: Faults)
    requires WellFormed(m) && place.Placed?
    ensures WellFormed(Undo(m, place, typeName, f))
  {
    DropKeepsWellFormed(m, place.m.devices, typeName, f.removeController);
  }

  lemma AttachKeepsWellFormed(m: Machine, path: string, undo: string, typeName: string, f: Faults)
    requires WellFormed(m)
    ensures WellFormed(AfterAttach(m, path, undo, typeName, f).0)
  {
    hide ChoosePlace, WellFormed, AfterDetach, Undo, PlugDisk, FindDisk, Free, Load, Available, NewController, Plug;
    var place := ChoosePlace(m, typeName, f);
    PlaceIsFree(m, typeName, f);
    if place.Placed? && FindDisk(m.devices, path).None? {
      PlacedDisk(m, typeName, path, f);
      UndoKeepsWellFormed(place.m, place, typeName, f);
      DetachKeepsWellFormed(PlugDisk(place, path), undo, f.detachLookup, f.removeDisk);
      UndoKeepsWellFormed(AfterDetach(PlugDisk(place, path), undo, f.detachLookup, f.removeDisk), place, typeName, f);
    }
  }

  // ---------- the invariant over every run, whatever fails ----------

  datatype Request =
    | Attach(path: string, undo: string, typeName: string, faults: Faults)
    | Detach(path: string, faults: Faults)

  function AfterRequest(m: Machine, r: Request): Machine {
    match r
    case Attach(path, undo, typeName, f) => AfterAttach(m, path, undo, typeName, f).0
    case Detach(path, f) => AfterDetach(m, path, f.lookup, f.removeDisk)
  }

  function AfterRun(m: Machine, requests: seq<Request>): Machine
    decreases |requests|
  {
    if requests == [] then m else AfterRun(AfterRequest(m, requests[0]), requests[1..])
  }

  lemma {:induction false} RunKeepsWellFormed(m: Machine, requests: seq<Request>)
    requires WellFormed(m)
    ensures WellFormed(AfterRun(m, requests))
    decreases |requests|
  {
    if requests != [] {
      match requests[0] {
        case Attach(path, undo, typeName, f) => AttachKeepsWellFormed(m, path, undo, typeName, f);
        case Detach(path, f) => DetachKeepsWellFormed(m, path, f.lookup, f.removeDisk);
      }
      RunKeepsWellFormed(AfterRequest(m, requests[0]), requests[1..]);
    }
  }

  // ---------- the allocator is exact ----------

  /** The machine is full for a type: its controllers are, and no controller can be added. */
  ghost predicate FullFor(devices: seq<Device>, typeName: string) {
    && (forall c | c in devices && c.kind == Controller(typeName) :: !HasRoom(devices, c))
    && |ScsiControllers(devices)| == SCSI_CONTROLLER_LIMIT
  }

  /**
   Without faults a new disk is refused exactly when the machine is full for the requested
   type or the type is not "pvscsi".  The other two accepted spellings are mixed-case: no
   device list reports them, and the library knows no controller by those names.
   */
  lemma AttachExact(m: Machine, path: string, undo: string, typeName: string)
    requires WellFormed(m) && FindDisk(m.devices, path).None?
    ensures var (m', outcome) := AfterAttach(m, path, undo, typeName, NO_FAULTS);
            && outcome != AlreadyAttached
            && (outcome == Failed <==> typeName != "pvscsi" || FullFor(m.devices, typeName))
            && (outcome == Failed ==> m' == m)
  {
    OfTypeMembers(m.devices, typeName);
    FirstWithRoomFacts(m.devices, OfType(m.devices, typeName));
    if Available(m.devices, typeName).Some? {
      RoomMeansFreeSlot(m.devices, Available(m.devices, typeName).value.key);
    }
  }

  // ---------- repeating and undoing ----------

  /** Attaching a path that is attached, even under its other spelling, changes nothing. */
  lemma AttachTwice(m: Machine, path: string, undo: string, again: string, undo': string, typeName: string,
                    f: Faults, f': Faults)
    requires WellFormed(m) && AfterAttach(m, path, undo, typeName, f).1 != Failed
    requires Matches(path, again) && !f'.lookup
    ensures var m' := AfterAttach(m, path, undo, typeName, f).0;
            AfterAttach(m', again, undo', typeName, f') == (m', AlreadyAttached)
  {
    var m' := AfterAttach(m, path, undo, typeName, f).0;
    if FindDisk(m.devices, path).None? {
      PlacedDisk(m, typeName, path, f);
    }
    SameSearch(m'.devices, path, again);
  }

  lemma {:induction false} SameSearch(devices: seq<Device>, path: string, again: string)
    requires Matches(path, again)
    ensures FindDisk(devices, path) == FindDisk(devices, again)
  {
    if devices != [] { SameSearch(devices[1..], path, again); }
  }

  /** Detaching what was just attached leaves the old devices plus at most a new, empty controller. */
  lemma AttachThenDetach(m: Machine, path: string, undo: string, typeName: string, f: Faults)
    requires WellFormed(m) && AfterAttach(m, path, undo, typeName, f).1 == Attached
    ensures var m' := AfterDetach(AfterAttach(m, path, undo, typeName, f).0, path, false, false);
            var created := Available(m.devices, typeName).None?;
            && m'.devices == (if created then m.devices + [NewController(m, typeName)] else m.devices)
            && (created ==> Load(m'.devices, m.nextKey) == 0)
  {
    hide ChoosePlace, FindDisk, UnitsDistinct, WithinLimits, FilesDistinct, LibraryNames, Free, Load, Matches;
    var place := ChoosePlace(m, typeName, f);
    PlaceIsFree(m, typeName, f);
    PlacedDisk(m, typeName, path, f);
    WithoutLast(place.m.devices, NewDisk(place.m, place.bus, place.unit, path));
    if place.created {
      NoLoad(m.devices + [NewController(m, typeName)], m.nextKey);
    }
  }

  // ---------- when a failed attach leaves no trace ----------

  /** The request gets as far as creating a controller. */
  predicate TriesController(m: Machine, path: string, typeName: string, f: Faults) {
    && typeName in VALID_TYPES && typeName in LIBRARY_TYPES
    && !f.lookup && !f.policy && !f.datastore && !f.list && !f.listForController
    && FindDisk(m.devices, path).None?
    && Available(m.devices, typeName).None?
    && |ScsiControllers(m.devices)| < SCSI_CONTROLLER_LIMIT
  }

  /** The request gets as far as adding the disk and asking for its UUID. */
  predicate AsksForUuid(m: Machine, path: string, typeName: string, f: Faults) {
    && typeName in VALID_TYPES && !f.lookup && FindDisk(m.devices, path).None? && !f.policy && !f.datastore
    && ChoosePlace(m, typeName, f).Placed? && !f.listBeforeDisk && !f.addDisk
  }

  /**
   The exits that do not restore the list.  When adding the controller fails, the clean-up works
   on the list read before and takes away an older controller of the type, unless that fails too;
   when reading the list fails after the controller was added, nothing takes it away; where the
   disk cannot be added or asked about, the controller stays if its removal fails, and the disk if
   it cannot be looked up or removed or the clean-up's path is another disk's.
   */
  predicate LeavesTrace(m: Machine, path: string, undo: string, typeName: string, f: Faults) {
    || (TriesController(m, path, typeName, f) &&
        (if f.addController then OfType(m.devices, typeName) != [] && !f.removeController
         else f.listAfterController || f.listBeforeDisk || f.removeController))
    || (AsksForUuid(m, path, typeName, f) && f.diskUuid &&
        (!Matches(path, undo) || f.detachLookup || f.removeDisk))
  }

  /** A failed attach restores the device list exactly except in those exits. */
  lemma RollbackExact(m: Machine, path: string, undo: string, typeName: string, f: Faults)
    requires WellFormed(m) && AfterAttach(m, path, undo, typeName, f).1 == Failed
    ensures AfterAttach(m, path, undo, typeName, f).0.devices == m.devices <==> !LeavesTrace(m, path, undo, typeName, f)
  {
    var place := ChoosePlace(m, typeName, f);
    if typeName !in VALID_TYPES || f.lookup || FindDisk(m.devices, path).Some? || f.policy || f.datastore {
    } else if TriesController(m, path, typeName, f) && f.addController {
      WrongControllerGoes(m, typeName);
    } else if place.Placed? {
      PlaceIsFree(m, typeName, f);
      if AsksForUuid(m, path, typeName, f) && (!Matches(path, undo) || f.detachLookup || f.removeDisk) {
        NewDiskStays(m, path, undo, typeName, f);
      } else {
        SameUndo(m, path, undo, typeName, f);
        PlacedRollsBack(m, path, typeName, f);
      }
    } else {
      assert |m.devices + [NewController(m, typeName)]| > |m.devices|;
    }
  }

  /** A clean-up by the other spelling of the path is a clean-up by the path. */
  lemma SameUndo(m: Machine, path: string, undo: string, typeName: string, f: Faults)
    requires ChoosePlace(m, typeName, f).Placed?
    requires f.listBeforeDisk || f.addDisk || !f.diskUuid || Matches(path, undo)
    ensures var place := ChoosePlace(m, typeName, f);
            AfterPlace(place, typeName, path, undo, f) == AfterPlace(place, typeName, path, path, f)
  {
    var place := ChoosePlace(m, typeName, f);
    if Matches(path, undo) {
      SameSearch(PlugDisk(place, path).devices, path, undo);
    }
    hide ChoosePlace, PlugDisk, FindDisk, Undo;
  }

  /** For a path that begins with a named datastore the clean-up looks for the disk that was added. */
  lemma CleanUpFindsDisk(vmDiskPath: string)
    requires IsDatastorePath(vmDiskPath) && DatastoreName(vmDiskPath) != ""
    ensures HasDatastore(Normalize(vmDiskPath))
    ensures Matches(Normalize(vmDiskPath), Normalize(Normalize(vmDiskPath)))
  {
    LeadingDatastoreIdempotent(vmDiskPath);
  }

  lemma NewDiskStays(m: Machine, path: string, undo: string, typeName: string, f: Faults)
    requires WellFormed(m) && AsksForUuid(m, path, typeName, f) && f.diskUuid
    requires !Matches(path, undo) || f.detachLookup || f.removeDisk
    ensures AfterPlace(ChoosePlace(m, typeName, f), typeName, path, undo, f).0.devices != m.devices
  {
    var place := ChoosePlace(m, typeName, f);
    PlaceIsFree(m, typeName, f);
    PlacedDisk(m, typeName, path, f);
    var disk := NewDisk(place.m, place.bus, place.unit, path);
    var plugged := PlugDisk(place, path);
    BackingMatches(path, undo);
    hide ChoosePlace, FindDisk, Free, Load, UnitsDistinct, WithinLimits, FilesDistinct, LibraryNames;
    assert disk in plugged.devices;
    var detached := AfterDetach(plugged, undo, f.detachLookup, f.removeDisk);
    DetachKeepsDevice(plugged, undo, f.detachLookup, f.removeDisk, disk);
    DropKeepsDevice(detached, place.m.devices, typeName, f.removeController, disk);
    assert disk in Undo(detached, place, typeName, f).devices;
    assert disk !in m.devices by { assert forall d | d in m.devices :: d in place.m.devices; }
  }

  lemma DetachKeepsDevice(m: Machine, path: string, lookupFails: bool, removeFails: bool, d: Device)
    requires KeysDistinct(m.devices) && d in m.devices && (!BacksDisk(d, path) || lookupFails || removeFails)
    ensures d in AfterDetach(m, path, lookupFails, removeFails).devices
  {
    FoundDisk(m.devices, path);
    var found := FindDisk(m.devices, path);
    if found.Some? && !lookupFails && !removeFails {
      WithoutFacts(m.devices, found.value.key, 0);
      if found.value.key == d.key { OneOfKey(m.devices, d, found.value); }
    }
  }

  lemma {:induction false} OneOfKey(devices: seq<Device>, d: Device, e: Device)
    requires KeysDistinct(devices) && d in devices && e in devices && d.key == e.key
    ensures d == e
  {
    if d != devices[0] && e != devices[0] { OneOfKey(devices[1..], d, e); }
  }

  lemma DropKeepsDevice(m: Machine, read: seq<Device>, typeName: string, fails: bool, d: Device)
    requires d in m.devices && forall e | e in read :: e.key != d.key
    ensures d in DropLast(m, read, typeName, fails).devices
  {
    OfTypeMembers(read, typeName);
    var same := OfType(read, typeName);
    hide OfType, Without;
    if same != [] {
      var last := same[|same| - 1];
      assert last in same;
      WithoutFacts(m.devices, last.key, 0);
    }
  }

  lemma WrongControllerGoes(m: Machine, typeName: string)
    ensures DropLast(m, m.devices, typeName, false).devices == m.devices <==> OfType(m.devices, typeName) == []
  {
    var same := OfType(m.devices, typeName);
    if same != [] {
      var last := same[|same| - 1];
      OfTypeMembers(m.devices, typeName);
      WithoutFacts(m.devices, last.key, 0);
      assert last in m.devices && last !in Without(m.devices, last.key);
    }
  }

  lemma PlacedRollsBack(m: Machine, path: string, typeName: string, f: Faults)
    requires WellFormed(m) && FindDisk(m.devices, path).None? && ChoosePlace(m, typeName, f).Placed?
    requires f.listBeforeDisk || f.addDisk || (!f.detachLookup && !f.removeDisk)
    requires AfterPlace(ChoosePlace(m, typeName, f), typeName, path, path, f).1 == Failed
    ensures AfterPlace(ChoosePlace(m, typeName, f), typeName, path, path, f).0.devices == m.devices <==>
            !(ChoosePlace(m, typeName, f).created && (f.listBeforeDisk || f.removeController))
  {
    var place := ChoosePlace(m, typeName, f);
    PlaceIsFree(m, typeName, f);
    DiskComesOut(m, typeName, path, f);
    hide WellFormed, ChoosePlace, FindDisk, Free, Load, PlugDisk, Available, DropLast, NewController, AfterDetach;
    if place.created { ControllerComesOut(m, typeName, f); }
  }

  /** Detaching the disk just added gives the devices back that were there before it. */
  lemma DiskComesOut(m: Machine, typeName: string, path: string, f: Faults)
    requires WellFormed(m) && FindDisk(m.devices, path).None? && ChoosePlace(m, typeName, f).Placed?
    ensures var place := ChoosePlace(m, typeName, f);
            AfterDetach(PlugDisk(place, path), path, false, false).devices == place.m.devices
  {
    var place := ChoosePlace(m, typeName, f);
    PlacedDisk(m, typeName, path, f);
    WithoutLast(place.m.devices, NewDisk(place.m, place.bus, place.unit, path));
    hide WellFormed, ChoosePlace, FindDisk;
  }

  /** The clean-up of a new controller gives back the devices before it, unless it fails. */
  lemma ControllerComesOut(m: Machine, typeName: string, f: Faults)
    requires KeysUsed(m)
    ensures var c := NewController(m, typeName);
            var grown := Plug(m, c).devices;
            && grown != m.devices
            && forall nextKey ::
                 DropLast(Machine(grown, nextKey), grown, typeName, f.removeController).devices ==
                 if f.removeController then grown else m.devices
  {
    var c := NewController(m, typeName);
    OfTypeAppend(m.devices, c, typeName);
    assert forall d | d in m.devices :: d.key != c.key;
    WithoutLast(m.devices, c);
    assert |m.devices + [c]| > |m.devices|;
    hide OfType, Without;
  }

  // ---------- both ways of leaving a trace do happen ----------

  lemma {:induction false} FullLoad(devices: seq<Device>, key: int)
    requires forall d | d in devices :: d.bus == Some(key)
    ensures Load(devices, key) == |devices|
  {
    if devices != [] { FullLoad(devices[1..], key); }
  }

  lemma {:induction false} RisingKeys(devices: seq<Device>)
    requires forall i, j | 0 <= i < j < |devices| :: devices[i].key < devices[j].key
    ensures KeysDistinct(devices)
  {
    if devices != [] { RisingKeys(devices[1..]); }
  }

  const LONE: Device := Device(0, None, None, Controller("pvscsi"))

  /** One controller with fifteen devices on it. */
  function Crowd(): seq<Device> {
    seq(SCSI_CONTROLLER_DEVICE_LIMIT, i => Device(i + 1, Some(0), None, Other))
  }

  lemma {:induction false} OnlyOthers(devices: seq<Device>, path: string)
    requires forall d | d in devices :: d.kind == Other
    ensures OfType(devices, "pvscsi") == [] && ScsiControllers(devices) == [] && FindDisk(devices, path).None?
  {
    if devices != [] { OnlyOthers(devices[1..], path); }
  }

  lemma CrowdedLists(others: seq<Device>, path: string)
    requires forall d | d in others :: d.kind == Other && d.bus == Some(0) && d.key != 0
    ensures var devices := [LONE] + others;
            && OfType(devices, "pvscsi") == [LONE] && ScsiControllers(devices) == [LONE]
            && Load(devices, 0) == |others| && FindDisk(devices, path).None? && Without(devices, 0) == others
  {
    var devices := [LONE] + others;
    assert devices[1..] == others;
    OnlyOthers(others, path);
    FullLoad(others, 0);
    WithoutUnknown(others, 0);
  }

  lemma CrowdedIsWellFormed(devices: seq<Device>)
    requires forall d | d in devices :: d.unit.None? && (d.kind == Other || d == LONE) &&
                                        d.key < 16 && (d.bus.Some? ==> d.bus.value < 16)
    requires KeysDistinct(devices) && ScsiControllers(devices) == [LONE]
    requires Load(devices, 0) == SCSI_CONTROLLER_DEVICE_LIMIT
    ensures WellFormed(Machine(devices, 16))
  {
    hide Load, ScsiControllers, KeysDistinct;
  }

  lemma CrowdedRollback(devices: seq<Device>, path: string, undo: string, f: Faults)
    requires OfType(devices, "pvscsi") == [LONE] && ScsiControllers(devices) == [LONE]
    requires Load(devices, 0) >= SCSI_CONTROLLER_DEVICE_LIMIT && FindDisk(devices, path).None?
    requires f == NO_FAULTS.(addController := true)
    ensures AfterAttach(Machine(devices, 16), path, undo, "pvscsi", f) == (Machine(Without(devices, 0), 16), Failed)
  {
    FirstWithRoomFacts(devices, [LONE]);
    assert Available(devices, "pvscsi").None?;
    hide Load, ScsiControllers, OfType, FindDisk, Without;
  }

  lemma CrowdMembers()
    ensures |Crowd()| == SCSI_CONTROLLER_DEVICE_LIMIT && KeysDistinct([LONE] + Crowd())
    ensures forall d | d in Crowd() :: d.kind == Other && d.bus == Some(0) && d.unit.None? && 0 < d.key < 16
  {
    hide KeysDistinct;
    RisingKeys([LONE] + Crowd());
  }

  lemma CrowdFacts(path: string)
    ensures WellFormed(Machine([LONE] + Crowd(), 16)) && Without([LONE] + Crowd(), 0) == Crowd()
    ensures OfType([LONE] + Crowd(), "pvscsi") == [LONE] && ScsiControllers([LONE] + Crowd()) == [LONE]
    ensures Load([LONE] + Crowd(), 0) == SCSI_CONTROLLER_DEVICE_LIMIT
    ensures FindDisk([LONE] + Crowd(), path).None?
  {
    hide Crowd, WellFormed, KeysDistinct, Load, OfType, ScsiControllers, FindDisk, Without;
    CrowdMembers();
    CrowdedLists(Crowd(), path);
    CrowdedIsWellFormed([LONE] + Crowd());
  }

  /**
   A machine on which a failed attach, of any path, takes a controller away which it did not add,
   from under its devices.
   */
  lemma FailedAttachTakesOldController(path: string, undo: string)
    ensures var m, f := Machine([LONE] + Crowd(), 16), NO_FAULTS.(addController := true);
            WellFormed(m) && AfterAttach(m, path, undo, "pvscsi", f) == (m.(devices := Crowd()), Failed)
  {
    CrowdFacts(path);
    hide *;
    CrowdedRollback([LONE] + Crowd(), path, undo, NO_FAULTS.(addController := true));
  }

  /** Failed attaches, of any path, that leave a controller behind, by either of two exits. */
  lemma FailedAttachKeepsNewController(path: string, undo: string)
    ensures var m := Machine([], 0);
            && WellFormed(m)
            && forall f | f in {NO_FAULTS.(listBeforeDisk := true), NO_FAULTS.(listAfterController := true)} ::
                 AfterAttach(m, path, undo, "pvscsi", f) == (Plug(m, NewController(m, "pvscsi")), Failed)
  {
  }

  /**
   Two of the three types the source lists as valid are refused on every machine, whatever fails
   or does not, and however much room there is; nothing changes.
   */
  lemma MixedCaseNeverAttaches(m: Machine, path: string, undo: string, typeName: string, f: Faults)
    requires WellFormed(m) && typeName in VALID_TYPES && typeName != "pvscsi" && FindDisk(m.devices, path).None?
    ensures AfterAttach(m, path, undo, typeName, f) == (m, Failed)
    ensures WellFormed(Machine([], 0)) && !FullFor([], typeName)
  {
    OfTypeMembers(m.devices, typeName);
    FirstWithRoomFacts(m.devices, OfType(m.devices, typeName));
  }

  // ---------- the methods, step by step ----------

  lemma UnitsFitOnScsi(m: Machine, c: Device)
    requires WellFormed(m) && c in m.devices && IsScsi(c)
    ensures UnitsFit(m.devices, c.key)
  {
    forall i | 0 <= i < |m.devices| && m.devices[i].bus == Some(c.key) && m.devices[i].unit.Some?
      ensures 0 <= m.devices[i].unit.value < SCSI_DEVICE_SLOTS
    {
      assert OnScsi(m.devices, m.devices[i]);
    }
  }

  class VM {
    var devices: seq<Device>
    var nextKey: int

    ghost function Value(): Machine
      reads this
    {
      Machine(devices, nextKey)
    }

    constructor (m: Machine)
      ensures Value() == m
    {
      devices, nextKey := m.devices, m.nextKey;
    }

    method AddDevice(d: Device)
      requires d.key == nextKey
      modifies this
      ensures Value() == Plug(old(Value()), d)
    {
      devices, nextKey := devices + [d], nextKey + 1;
    }

    method RemoveDevice(key: int)
      modifies this`devices
      ensures devices == Without(old(devices), key)
    {
      var left := [];
      for i := 0 to |devices|
        invariant devices == old(devices)
        invariant left + Without(devices[i..], key) == Without(devices, key)
      {
        if devices[i].key != key {
          left := left + [devices[i]];
        }
      }
      devices := left;
    }

    method GetVirtualDeviceByPath(diskPath: string) returns (found: Option<Device>)
      ensures found == FindDisk(devices, diskPath)
    {
      for i := 0 to |devices|
        invariant FindDisk(devices[i..], diskPath) == FindDisk(devices, diskPath)
      {
        if BacksDisk(devices[i], diskPath) {
          return Some(devices[i]);
        }
      }
      return None;
    }

    method DeleteController(typeName: string, read: seq<Device>, fails: bool)
      modifies this`devices
      ensures Value() == DropLast(old(Value()), read, typeName, fails)
    {
      var same := GetSCSIControllersOfType(read, typeName);
      if same != [] && !fails {
        RemoveDevice(same[|same| - 1].key);
      }
    }

    /** None when the disk cannot be removed; a disk that is not there counts as removed. */
    method DetachDisk(vmDiskPath: string, lookupFails: bool, removeFails: bool) returns (ok: bool)
      requires HasDatastore(vmDiskPath)
      modifies this`devices
      ensures Value() == AfterDetach(old(Value()), Normalize(vmDiskPath), lookupFails, removeFails)
      ensures ok <==> !lookupFails && (FindDisk(old(devices), Normalize(vmDiskPath)).Some? ==> !removeFails)
    {
      var diskPath := Normalize(vmDiskPath);
      if lookupFails {
        return false;
      }
      var device := GetVirtualDeviceByPath(diskPath);
      if device.None? {
        return true;
      }
      if removeFails {
        return false;
      }
      RemoveDevice(device.value.key);
      return true;
    }

    method CreateAndAttachSCSIController(typeName: string, f: Faults) returns (created: Option<Device>)
      modifies this
      ensures var m := old(Value());
              var allowed := !f.listForController && typeName in LIBRARY_TYPES &&
                             |ScsiControllers(m.devices)| < SCSI_CONTROLLER_LIMIT;
              && (created.Some? <==> allowed && !f.addController)
              && (created.Some? ==> created.value == NewController(m, typeName) && Value() == Plug(m, created.value))
              && (created.None? ==>
                    Value() == if allowed then DropLast(m, m.devices, typeName, f.removeController) else m)
    {
      if f.listForController {
        return None;
      }
      var read := devices;
      var all := GetSCSIControllers(read);
      if |all| >= SCSI_CONTROLLER_LIMIT || typeName !in LIBRARY_TYPES {
        return None;
      }
      var controller := Device(nextKey, None, None, Controller(typeName));
      if f.addController {
        DeleteController(typeName, read, f.removeController);
        return None;
      }
      AddDevice(controller);
      return Some(controller);
    }

    /**
     Chooses the controller and the unit.  The unit is computed from the list read at the
     start even when a controller has been added since.
     */
    method CreateDiskSpec(typeName: string, f: Faults) returns (spec: Option<(int, int)>, created: bool)
      requires WellFormed(Value()) && typeName in VALID_TYPES
      modifies this
      ensures var place := ChoosePlace(old(Value()), typeName, f);
              && Value() == place.m
              && (spec.Some? <==> place.Placed?)
              && (place.Placed? ==> spec.value == (place.bus, place.unit) && created == place.created)
    {
      ghost var m := Value();
      OfTypeMembers(m.devices, typeName);
      FirstWithRoomFacts(m.devices, OfType(m.devices, typeName));
      created := false;
      if f.list {
        return None, created;
      }
      var read := devices;
      var controllers := GetSCSIControllersOfType(read, typeName);
      var controller := GetAvailableSCSIController(read, controllers);
      if controller.None? {
        var added := CreateAndAttachSCSIController(typeName, f);
        if added.None? {
          return None, created;
        }
        created := true;
        if f.listAfterController {
          return None, created;
        }
        var reread := devices;
        controllers := GetSCSIControllersOfType(reread, typeName);
        controller := GetAvailableSCSIController(reread, controllers);
        NewControllerIsChosen(m, typeName);
        if controller.None? {
          assert false;
        }
        NoLoad(m.devices, m.nextKey);
        assert !Taken(read, m.nextKey, 0);
        assert LowestFree(read, m.nextKey, 0) == Some(0);
      } else {
        UnitsFitOnScsi(m, controller.value);
      }
      var unit := GetNextUnitNumber(read, controller.value.key);
      if unit.None? {
        return None, created;
      }
      return Some((controller.value.key, unit.value)), created;
    }

    method AttachDisk(vmDiskPath: string, typeName: string, f: Faults) returns (outcome: Outcome)
      requires WellFormed(Value())
      requires HasDatastore(vmDiskPath)
      modifies this
      ensures WellFormed(Value()) && HasDatastore(Normalize(vmDiskPath))
      ensures var path := Normalize(vmDiskPath);
              (Value(), outcome) == AfterAttach(old(Value()), path, Normalize(path), typeName, f)
    {
      var diskPath := Normalize(vmDiskPath);
      NormalizeKeepsDatastore(vmDiskPath);
      AttachKeepsWellFormed(Value(), diskPath, Normalize(diskPath), typeName, f);
      if typeName !in VALID_TYPES || f.lookup {
        return Failed;
      }
      var attached := GetVirtualDeviceByPath(diskPath);
      if attached.Some? {
        return AlreadyAttached;
      }
      if f.policy || f.datastore {
        return Failed;
      }
      var spec, created := CreateDiskSpec(typeName, f);
      if spec.None? || f.listBeforeDisk {
        return Failed;
      }
      var read := devices;
      if f.addDisk {
        if created {
          DeleteController(typeName, read, f.removeController);
        }
        return Failed;
      }
      AddDevice(Device(nextKey, Some(spec.value.0), Some(spec.value.1), Disk(Some(BackingName(diskPath)))));
      if f.diskUuid {
        var _ := DetachDisk(diskPath, f.detachLookup, f.removeDisk);
        if created {
          DeleteController(typeName, read, f.removeController);
        }
        return Failed;
      }
      return Attached;
    }
  }

  /** After every controller of the type was full, the one just added is the one with room. */
  lemma NewControllerIsChosen(m: Machine, typeName: string)
    requires WellFormed(m) && Available(m.devices, typeName).None?
    ensures Available(m.devices + [NewController(m, typeName)], typeName) == Some(NewController(m, typeName))
  {
    var c := NewController(m, typeName);
    OfTypeAppend(m.devices, c, typeName);
    NoLoad(m.devices, c.key);
    LoadAppend(m.devices, c, c.key);
    FullThenNew(m.devices, c, OfType(m.devices, typeName));
  }

  lemma {:induction false} FullThenNew(devices: seq<Device>, c: Device, controllers: seq<Device>)
    requires FirstWithRoom(devices, controllers).None? && HasRoom(devices + [c], c) && c.bus.None?
    ensures FirstWithRoom(devices + [c], controllers + [c]) == Some(c)
  {
    if controllers == [] {
      assert controllers + [c] == [c];
    } else {
      assert (controllers + [c])[1..] == controllers[1..] + [c];
      LoadAppend(devices, c, controllers[0].key);
      FullThenNew(devices, c, controllers[1..]);
    }
  }
}
