/**
 What attaching and detaching do to the device list, said in terms of the list itself: where a new
 disk sits, when a request is refused whichever calls fail, and what a detach takes out.
 */
module DiskPlacement {
  import opened Wrappers
  import opened DiskPath
  import opened ScsiBus
  import opened VirtualMachine

  // ---------- counting and choosing ----------

  predicate IsScsiName(typeName: string) {
    typeName == "scsi" || typeName == "lsilogic" || typeName == "buslogic" || typeName == "pvscsi" ||
    typeName == "lsilogic-sas"
  }

  /** Where the devices of a controller, and the SCSI controllers, stand in the list. */
  function OnBus(devices: seq<Device>, key: int): set<int> {
    set i | 0 <= i < |devices| && devices[i].bus == Some(key)
  }

  function ScsiAt(devices: seq<Device>): set<int> {
    set i | 0 <= i < |devices| && devices[i].kind.Controller? && IsScsiName(devices[i].kind.typeName)
  }

  lemma {:induction false} LoadCounts(devices: seq<Device>, key: int)
    ensures Load(devices, key) == |OnBus(devices, key)|
  {
    if devices != [] {
      var n := |devices| - 1;
      LoadCounts(devices[..n], key);
      OneMoreOnBus(devices[..n], devices[n], key);
      LoadAppend(devices[..n], devices[n], key);
      assert devices == devices[..n] + [devices[n]];
      hide Load, OnBus;
    }
  }

  lemma OneMoreOnBus(devices: seq<Device>, d: Device, key: int)
    ensures |OnBus(devices + [d], key)| == |OnBus(devices, key)| + if d.bus == Some(key) then 1 else 0
  {
    assert OnBus(devices + [d], key) == OnBus(devices, key) + if d.bus == Some(key) then {|devices|} else {};
  }

  lemma {:induction false} ScsiCounts(devices: seq<Device>)
    ensures |ScsiControllers(devices)| == |ScsiAt(devices)|
  {
    if devices != [] {
      var n := |devices| - 1;
      ScsiCounts(devices[..n]);
      OneMoreScsi(devices[..n], devices[n]);
      ScsiAppend(devices[..n], devices[n]);
      assert devices == devices[..n] + [devices[n]];
      hide ScsiControllers, ScsiAt, IsScsi;
    }
  }

  lemma OneMoreScsi(devices: seq<Device>, d: Device)
    ensures |ScsiAt(devices + [d])| == |ScsiAt(devices)| + if IsScsi(d) then 1 else 0
  {
    assert ScsiAt(devices + [d]) == ScsiAt(devices) + if IsScsi(d) then {|devices|} else {};
  }

  /** The first controller of the type in the list with fewer than fifteen devices on it. */
  ghost predicate IsFirstWithRoom(devices: seq<Device>, typeName: string, k: int) {
    && 0 <= k < |devices| && devices[k].kind == Controller(typeName) && |OnBus(devices, devices[k].key)| < 15
    && forall j | 0 <= j < k && devices[j].kind == Controller(typeName) :: |OnBus(devices, devices[j].key)| >= 15
  }

  ghost predicate NoneHasRoom(devices: seq<Device>, typeName: string) {
    forall j | 0 <= j < |devices| && devices[j].kind == Controller(typeName) :: |OnBus(devices, devices[j].key)| >= 15
  }

  lemma {:induction false} FirstOfRest(all: seq<Device>, devices: seq<Device>, typeName: string)
    ensures var r := FirstWithRoom(all, OfType(devices, typeName));
            && (r.Some? ==> exists k | 0 <= k < |devices| && devices[k] == r.value ::
                  && devices[k].kind == Controller(typeName) && HasRoom(all, devices[k])
                  && forall j | 0 <= j < k && devices[j].kind == Controller(typeName) :: !HasRoom(all, devices[j]))
            && (r.None? ==> forall j | 0 <= j < |devices| && devices[j].kind == Controller(typeName) ::
                  !HasRoom(all, devices[j]))
  {
    hide HasRoom;
    if devices != [] {
      var head, rest := devices[0], devices[1..];
      FirstOfRest(all, rest, typeName);
      if head.kind == Controller(typeName) {
        assert OfType(devices, typeName)[0] == head && OfType(devices, typeName)[1..] == OfType(rest, typeName);
      } else {
        assert OfType(devices, typeName) == OfType(rest, typeName);
      }
      var r := FirstWithRoom(all, OfType(devices, typeName));
      if r.Some? && !(head.kind == Controller(typeName) && HasRoom(all, head)) {
        var k :| 0 <= k < |rest| && rest[k] == r.value &&
          rest[k].kind == Controller(typeName) && HasRoom(all, rest[k]) &&
          forall j | 0 <= j < k && rest[j].kind == Controller(typeName) :: !HasRoom(all, rest[j]);
        assert devices[k + 1] == r.value;
        forall j | 0 <= j < k + 1 && devices[j].kind == Controller(typeName) ensures !HasRoom(all, devices[j]) {
          if j > 0 { assert rest[j - 1] == devices[j]; }
        }
      }
      if r.None? {
        forall j | 0 <= j < |devices| && devices[j].kind == Controller(typeName) ensures !HasRoom(all, devices[j]) {
          if j > 0 { assert rest[j - 1] == devices[j]; }
        }
      }
    }
  }

  lemma AvailableIsFirst(devices: seq<Device>, typeName: string)
    ensures var r := Available(devices, typeName);
            && (r.Some? ==> exists k | IsFirstWithRoom(devices, typeName, k) :: devices[k] == r.value)
            && (r.None? <==> NoneHasRoom(devices, typeName))
  {
    FirstOfRest(devices, devices, typeName);
    forall key ensures Load(devices, key) == |OnBus(devices, key)| { LoadCounts(devices, key); }
    hide Load, OnBus, OfType, FirstWithRoom;
    var r := Available(devices, typeName);
    if r.Some? {
      var k :| 0 <= k < |devices| && devices[k] == r.value && devices[k].kind == Controller(typeName) &&
        HasRoom(devices, devices[k]) &&
        forall j | 0 <= j < k && devices[j].kind == Controller(typeName) :: !HasRoom(devices, devices[j]);
      assert IsFirstWithRoom(devices, typeName, k);
    }
  }

  // ---------- where a new disk sits ----------

  /** Unit numbers run from 0 to 15, and 7 is the controller's own. */
  predicate IsUnit(unit: int) {
    0 <= unit <= 15 && unit != 7
  }

  ghost predicate UnitTaken(devices: seq<Device>, key: int, unit: int) {
    exists d | d in devices :: d.bus == Some(key) && d.unit == Some(unit)
  }

  lemma TakenMeans(devices: seq<Device>, key: int, unit: int)
    ensures Taken(devices, key, unit) <==> UnitTaken(devices, key, unit)
  {
    if i :| 0 <= i < |devices| && devices[i].bus == Some(key) && devices[i].unit == Some(unit) {
      assert devices[i] in devices;
    }
  }

  /** The disk has the lowest unit of the controller at k that no device of the list has. */
  ghost predicate HasLowestUnit(devices: seq<Device>, k: int, disk: Device)
    requires 0 <= k < |devices|
  {
    && disk.bus == Some(devices[k].key) && disk.unit.Some? && IsUnit(disk.unit.value)
    && !UnitTaken(devices, devices[k].key, disk.unit.value)
    && forall u | 0 <= u < disk.unit.value && u != 7 :: UnitTaken(devices, devices[k].key, u)
  }

  /** The file of a new disk has the extension, once if the path had it. */
  ghost predicate IsFileOf(file: string, path: string) {
    if path == "" || exists stem :: path == stem + ".vmdk" then file == path else file == path + ".vmdk"
  }

  lemma BackingIsFile(path: string)
    ensures IsFileOf(BackingName(path), path)
  {
    if HasExtension(path) { assert path == path[..|path| - 5] + ".vmdk"; }
    if stem :| path == stem + ".vmdk" { assert path[|path| - 5..] == ".vmdk"; }
  }

  ghost predicate IsNewController(devices: seq<Device>, typeName: string, c: Device) {
    c.kind == Controller(typeName) && c.bus.None? && c.unit.None? && forall d | d in devices :: d.key != c.key
  }

  /** The list the disk is added to: the old one, with a new controller exactly where no other of the type has room. */
  ghost predicate IsListBefore(m: Machine, typeName: string, before: seq<Device>) {
    if NoneHasRoom(m.devices, typeName)
    then exists c: Device :: IsNewController(m.devices, typeName, c) && before == m.devices + [c]
    else before == m.devices
  }

  lemma LowestMeans(devices: seq<Device>, key: int, unit: int)
    requires LowestFree(devices, key, 0) == Some(unit)
    ensures IsUnit(unit) && !UnitTaken(devices, key, unit)
    ensures forall u | 0 <= u < unit && u != 7 :: UnitTaken(devices, key, u)
  {
    LowestFreeIsLowest(devices, key, 0);
    forall u ensures Taken(devices, key, u) <==> UnitTaken(devices, key, u) { TakenMeans(devices, key, u); }
    hide Taken, UnitTaken, LowestFree;
    forall u | 0 <= u < unit && u != 7 ensures UnitTaken(devices, key, u) { assert !Free(devices, key, u); }
  }

  /** A new controller gets the disk on unit 0, another one on its lowest free unit. */
  lemma PlacedUnit(m: Machine, typeName: string, f: Faults)
    requires ChoosePlace(m, typeName, f).Placed?
    ensures var place := ChoosePlace(m, typeName, f);
            if place.created then place.unit == 0
            else place.m == m && LowestFree(m.devices, place.bus, 0) == Some(place.unit)
  {
    hide LowestFree, OfType, FirstWithRoom, ScsiControllers;
  }

  lemma PlaceIsLowest(m: Machine, typeName: string, f: Faults)
    requires WellFormed(m) && ChoosePlace(m, typeName, f).Placed?
    ensures var place := ChoosePlace(m, typeName, f);
            && IsUnit(place.unit) && !UnitTaken(place.m.devices, place.bus, place.unit)
            && forall u | 0 <= u < place.unit && u != 7 :: UnitTaken(place.m.devices, place.bus, u)
  {
    var place := ChoosePlace(m, typeName, f);
    PlaceIsFree(m, typeName, f);
    PlacedUnit(m, typeName, f);
    hide WellFormed, ChoosePlace, UnitTaken, LowestFree, Load, Taken;
    if place.created {
      TakenMeans(place.m.devices, place.bus, place.unit);
    } else {
      LowestMeans(m.devices, place.bus, place.unit);
    }
  }

  lemma PlaceIsFirst(m: Machine, typeName: string, f: Faults) returns (k: int)
    requires WellFormed(m) && ChoosePlace(m, typeName, f).Placed?
    ensures var place := ChoosePlace(m, typeName, f);
            && IsListBefore(m, typeName, place.m.devices) && IsFirstWithRoom(place.m.devices, typeName, k)
            && place.m.devices[k].key == place.bus
  {
    var place := ChoosePlace(m, typeName, f);
    PlaceIsFree(m, typeName, f);
    AvailableIsFirst(m.devices, typeName);
    PlacedBus(m, typeName, f);
    if place.created {
      var c := NewController(m, typeName);
      NewControllerIsChosen(m, typeName);
      AvailableIsFirst(m.devices + [c], typeName);
      assert IsNewController(m.devices, typeName, c);
      hide WellFormed, ChoosePlace, IsFirstWithRoom, NoneHasRoom, Available, Load, Free;
      k :| IsFirstWithRoom(m.devices + [c], typeName, k) && (m.devices + [c])[k] == c;
    } else {
      hide WellFormed, ChoosePlace, IsFirstWithRoom, NoneHasRoom, Available, Load, Free;
      k :| IsFirstWithRoom(m.devices, typeName, k) && m.devices[k] == Available(m.devices, typeName).value;
    }
  }

  lemma PlacedBus(m: Machine, typeName: string, f: Faults)
    requires ChoosePlace(m, typeName, f).Placed?
    ensures var place := ChoosePlace(m, typeName, f);
            if place.created then place.bus == m.nextKey
            else Available(m.devices, typeName).Some? && place.bus == Available(m.devices, typeName).value.key
  {
    hide LowestFree, Available, ScsiControllers;
  }

  /** One device more, on that controller and on no other. */
  lemma OneMoreDevice(before: seq<Device>, disk: Device)
    ensures forall key :: |OnBus(before + [disk], key)| == |OnBus(before, key)| + if disk.bus == Some(key) then 1 else 0
  {
    forall key
      ensures |OnBus(before + [disk], key)| == |OnBus(before, key)| + if disk.bus == Some(key) then 1 else 0
    {
      OneMoreOnBus(before, disk, key);
    }
  }

  /**
   What a successful attach adds: one disk with the file of the path, under a new key, on the lowest
   free unit of the first controller of the type with fewer than fifteen devices, which then has one
   more; that controller is a new one exactly where no other has room.
   */
  lemma AttachedDisk(m: Machine, path: string, undo: string, typeName: string, f: Faults)
    returns (before: seq<Device>, disk: Device, k: int)
    requires WellFormed(m) && AfterAttach(m, path, undo, typeName, f).1 == Attached
    ensures AfterAttach(m, path, undo, typeName, f).0.devices == before + [disk] && IsListBefore(m, typeName, before)
    ensures BacksDisk(disk, path) && forall d | d in before :: d.key != disk.key && !BacksDisk(d, path)
    ensures disk.kind.Disk? && disk.kind.file.Some? && IsFileOf(disk.kind.file.value, path)
    ensures IsFirstWithRoom(before, typeName, k) && HasLowestUnit(before, k, disk)
    ensures |OnBus(before + [disk], before[k].key)| == |OnBus(before, before[k].key)| + 1
  {
    var place := ChoosePlace(m, typeName, f);
    k := PlaceIsFirst(m, typeName, f);
    PlaceIsLowest(m, typeName, f);
    PlacedDisk(m, typeName, path, f);
    BackingIsFile(path);
    BackingMatches(path, path);
    FoundDisk(place.m.devices, path);
    before, disk := place.m.devices, NewDisk(place.m, place.bus, place.unit, path);
    OneMoreDevice(before, disk);
    hide WellFormed, ChoosePlace, FindDisk, IsFirstWithRoom, UnitTaken, OnBus, IsFileOf, IsListBefore;
  }

  // ---------- when a request succeeds ----------

  /** A disk of the list is backed by the path's file. */
  ghost predicate IsAttached(devices: seq<Device>, path: string) {
    exists d | d in devices :: d.kind.Disk? && d.kind.file.Some? && Matches(d.kind.file.value, path)
  }

  /** A controller of the type can be added: fewer than four SCSI controllers, and the calls for it work. */
  ghost predicate CanAddController(devices: seq<Device>, f: Faults) {
    |ScsiAt(devices)| < 4 && !f.listForController && !f.addController && !f.listAfterController
  }

  /** The outcome of an attach, whichever of its calls fail. */
  lemma OutcomeExactly(m: Machine, path: string, undo: string, typeName: string, f: Faults)
    requires WellFormed(m)
    ensures AfterAttach(m, path, undo, typeName, f).1 ==
            if f.lookup || (typeName != "pvscsi" && typeName != "lsiLogic" && typeName != "lsiLogic-sas") then Failed
            else if IsAttached(m.devices, path) then AlreadyAttached
            else if typeName != "pvscsi" || f.policy || f.datastore || f.list then Failed
            else if NoneHasRoom(m.devices, typeName) && !CanAddController(m.devices, f) then Failed
            else if f.listBeforeDisk || f.addDisk || f.diskUuid then Failed
            else Attached
    ensures AfterAttach(m, path, undo, typeName, f).1 == AlreadyAttached ==>
              AfterAttach(m, path, undo, typeName, f).0 == m
  {
    FoundDisk(m.devices, path);
    assert FindDisk(m.devices, path).Some? <==> IsAttached(m.devices, path);
    if typeName == "pvscsi" {
      PlacedExactly(m, f);
    } else if typeName in VALID_TYPES && !IsAttached(m.devices, path) {
      MixedCaseNeverAttaches(m, path, undo, typeName, f);
    }
    hide WellFormed, ChoosePlace, FindDisk, IsAttached, NoneHasRoom, CanAddController, PlugDisk, Undo, AfterDetach;
  }

  lemma PlacedExactly(m: Machine, f: Faults)
    requires WellFormed(m)
    ensures ChoosePlace(m, "pvscsi", f).Placed? <==>
            !f.list && (NoneHasRoom(m.devices, "pvscsi") ==> CanAddController(m.devices, f))
  {
    AvailableIsFirst(m.devices, "pvscsi");
    ScsiCounts(m.devices);
    OfTypeMembers(m.devices, "pvscsi");
    FirstWithRoomFacts(m.devices, OfType(m.devices, "pvscsi"));
    hide WellFormed, NoneHasRoom, OfType, FirstWithRoom, Load, LowestFree, IsFirstWithRoom, ScsiAt, ScsiControllers;
    if Available(m.devices, "pvscsi").Some? {
      RoomMeansFreeSlot(m.devices, Available(m.devices, "pvscsi").value.key);
    }
  }

  /** The disk a look-up by path finds is the first of that file in the list. */
  lemma {:induction false} FoundIsFirst(devices: seq<Device>, path: string)
    ensures FindDisk(devices, path).Some? ==>
              exists k | 0 <= k < |devices| && BacksDisk(devices[k], path) ::
                devices[k] == FindDisk(devices, path).value && forall j | 0 <= j < k :: !BacksDisk(devices[j], path)
  {
    if devices != [] && !BacksDisk(devices[0], path) && FindDisk(devices, path).Some? {
      var rest := devices[1..];
      FoundIsFirst(rest, path);
      hide BacksDisk;
      var k :| 0 <= k < |rest| && BacksDisk(rest[k], path) && rest[k] == FindDisk(rest, path).value &&
        forall j | 0 <= j < k :: !BacksDisk(rest[j], path);
      assert BacksDisk(devices[k + 1], path);
      forall j | 0 <= j < k + 1 ensures !BacksDisk(devices[j], path) {
        if j > 0 { assert rest[j - 1] == devices[j]; }
      }
    }
  }

  // ---------- what is taken out ----------

  lemma {:induction false} WithoutOne(devices: seq<Device>, k: int)
    requires KeysDistinct(devices) && 0 <= k < |devices|
    ensures Without(devices, devices[k].key) == devices[..k] + devices[k + 1..]
  {
    if k == 0 {
      WithoutUnknown(devices[1..], devices[0].key);
    } else {
      assert devices[1..][k - 1] == devices[k];
      WithoutOne(devices[1..], k - 1);
      assert devices[..k] == [devices[0]] + devices[1..][..k - 1];
      assert devices[1..][k..] == devices[k + 1..];
    }
  }

  /** The only disk backed by the path's file stands at k. */
  ghost predicate OnlyDiskAt(devices: seq<Device>, path: string, k: int) {
    && 0 <= k < |devices| && BacksDisk(devices[k], path)
    && forall j | 0 <= j < |devices| && j != k :: !BacksDisk(devices[j], path)
  }

  /** A detach takes the one disk of the path out of the list and leaves the rest in place, or it changes nothing. */
  lemma DetachExactly(m: Machine, path: string, lookupFails: bool, removeFails: bool)
    requires WellFormed(m)
    ensures var m' := AfterDetach(m, path, lookupFails, removeFails);
            && m'.nextKey == m.nextKey
            && if lookupFails || removeFails || !IsAttached(m.devices, path) then m' == m
               else exists k | OnlyDiskAt(m.devices, path, k) :: m'.devices == m.devices[..k] + m.devices[k + 1..]
  {
    FoundDisk(m.devices, path);
    if IsAttached(m.devices, path) {
      var found := FindDisk(m.devices, path).value;
      var k :| 0 <= k < |m.devices| && m.devices[k] == found;
      WithoutOne(m.devices, k);
      OnlyOne(m, path, k);
    }
  }

  lemma OnlyOne(m: Machine, path: string, k: int)
    requires WellFormed(m) && 0 <= k < |m.devices| && BacksDisk(m.devices[k], path)
    ensures OnlyDiskAt(m.devices, path, k)
  {
    forall j | 0 <= j < |m.devices| && j != k ensures !BacksDisk(m.devices[j], path) {
      KeysDiffer(m.devices, j, k);
      assert m.devices[j] in m.devices && m.devices[k] in m.devices;
      hide UnitsDistinct, WithinLimits, LibraryNames, KeysDistinct;
    }
  }

  lemma {:induction false} KeysDiffer(devices: seq<Device>, i: int, j: int)
    requires KeysDistinct(devices) && 0 <= i < |devices| && 0 <= j < |devices| && i != j
    ensures devices[i].key != devices[j].key
  {
    if i > 0 && j > 0 {
      KeysDiffer(devices[1..], i - 1, j - 1);
    } else {
      assert devices[if i == 0 then j else i] in devices[1..];
    }
  }

  /** The last controller of the type in the list stands at k. */
  ghost predicate IsLastOfType(devices: seq<Device>, typeName: string, k: int) {
    && 0 <= k < |devices| && devices[k].kind == Controller(typeName)
    && forall j | k < j < |devices| :: devices[j].kind != Controller(typeName)
  }

  lemma {:induction false} LastOfTypeAt(devices: seq<Device>, typeName: string) returns (k: int)
    requires OfType(devices, typeName) != []
    ensures IsLastOfType(devices, typeName, k)
    ensures var same := OfType(devices, typeName); same[|same| - 1] == devices[k]
  {
    var n := |devices| - 1;
    assert devices == devices[..n] + [devices[n]];
    OfTypeAppend(devices[..n], devices[n], typeName);
    if devices[n].kind == Controller(typeName) {
      k := n;
    } else {
      k := LastOfTypeAt(devices[..n], typeName);
      assert forall j | 0 <= j < n :: devices[..n][j] == devices[j];
    }
  }

  /** A clean-up by the list as it is takes the last controller of the type out, and leaves the rest in place. */
  lemma CleanUpExactly(m: Machine, typeName: string)
    requires KeysDistinct(m.devices)
    ensures var m' := DropLast(m, m.devices, typeName, false);
            if forall d | d in m.devices :: d.kind != Controller(typeName) then m' == m
            else exists k | IsLastOfType(m.devices, typeName, k) :: m'.devices == m.devices[..k] + m.devices[k + 1..]
  {
    OfTypeMembers(m.devices, typeName);
    var same := OfType(m.devices, typeName);
    if same == [] {
      assert forall d | d in m.devices :: d.kind == Controller(typeName) ==> d in same;
    } else {
      assert same[0] in same;
      var k := LastOfTypeAt(m.devices, typeName);
      WithoutOne(m.devices, k);
    }
  }
}
