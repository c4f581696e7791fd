/**
 What a listing of the volumes is good for: when it is complete, when it depends on the order in
 which Go walks its maps, and hence when page tokens stay valid between calls.
 */
module FcdListingExact {
  import opened ListTokens
  import opened Strings
  import opened Wrappers
  import opened FcdListing

  // ---------- a listing is determined by the inventory ----------

  lemma {:induction false} SortedSetsAgree(a: seq<Disk>, b: seq<Disk>)
    requires Descending(a) && NoRepeats(a) && Descending(b) && NoRepeats(b)
    requires forall d :: d in a <==> d in b
    requires forall d, e | d in a && e in a && d.id == e.id :: d == e
    ensures a == b
  {
    if b != [] { assert b[0] in a; }
    if a != [] {
      assert a[0] in b && b != [];
      assert b[0] in a;
      HeadIsGreatest(a, b[0]);
      HeadIsGreatest(b, a[0]);
      LessIsStrict(a[0].id, b[0].id);
      assert a[0] == b[0];
      forall d ensures d in a[1..] <==> d in b[1..] {
        TailMembers(a, d);
        TailMembers(b, d);
      }
      SortedSetsAgree(a[1..], b[1..]);
      assert a == [a[0]] + a[1..] && b == [b[0]] + b[1..];
    }
  }

  lemma HeadIsGreatest(disks: seq<Disk>, d: Disk)
    requires Descending(disks) && d in disks
    ensures d == disks[0] || !Less(disks[0].id, d.id)
  {
  }

  lemma TailMembers(disks: seq<Disk>, d: Disk)
    requires disks != [] && NoRepeats(disks)
    ensures d in disks[1..] <==> d in disks && d != disks[0]
  {
    if d in disks[1..] {
      var i :| 0 <= i < |disks[1..]| && disks[1..][i] == d;
      assert disks[i + 1] == d;
    }
    if d in disks && d != disks[0] {
      var i :| 0 <= i < |disks| && disks[i] == d;
      assert disks[1..][i - 1] == d;
    }
  }

  /** Whatever order the maps were walked in, two listings of one inventory are the same list. */
  lemma ListingIsUnique(inventory: Inventory, a: seq<Disk>, b: seq<Disk>)
    requires WellPlaced(inventory) && IsListing(inventory, a) && IsListing(inventory, b)
    ensures a == b
  {
    forall d ensures d in a <==> d in b {
      assert d in a <==> Lists(inventory, d);
    }
    SortedSetsAgree(a, b);
  }

  lemma CountsMatter(a: seq<Disk>, b: seq<Disk>)
    requires NoRepeats(a) && multiset(a) == multiset(b)
    ensures NoRepeats(b)
  {
    forall i, j | 0 <= i < j < |b| ensures b[i] != b[j] {
      if b[i] == b[j] {
        assert b == b[..i] + [b[i]] + b[i + 1..j] + [b[j]] + b[j + 1..];
        assert multiset(b)[b[i]] >= 2;
        OnceOnly(a, b[i]);
        assert false;
      }
    }
  }

  lemma {:induction false} OnceOnly(a: seq<Disk>, d: Disk)
    requires NoRepeats(a)
    ensures multiset(a)[d] <= 1
  {
    if a != [] {
      assert a == [a[0]] + a[1..];
      OnceOnly(a[1..], d);
      if a[0] == d {
        assert d !in a[1..];
      }
    }
  }

  // ---------- what any walk gathers ----------

  lemma {:induction false} ConcatMembers(parts: seq<seq<Disk>>, d: Disk)
    ensures d in Concat(parts) <==> exists i | 0 <= i < |parts| :: d in parts[i]
  {
    if parts != [] {
      var front := parts[..|parts| - 1];
      ConcatMembers(front, d);
      if i :| 0 <= i < |parts| && d in parts[i] {
        assert i < |front| ==> d in front[i];
      }
    }
  }

  /** Disks of one place, each once. */
  ghost predicate Placed(v: string, i: int, disks: seq<Disk>) {
    NoRepeats(disks) && forall d | d in disks :: d.home.vc == v && d.home.datacenter == i
  }

  lemma DatacenterGiven(v: string, i: int, dc: Datacenter, disks: seq<Disk>)
    requires DatacenterGives(dc, disks) && (dc.datastores.Some? ==> AtHome(v, i, dc.datastores.value))
    ensures Placed(v, i, disks) && (forall d | d in disks :: DatacenterLists(dc, d))
    ensures dc.clusters.NoClusters? && dc.datastores.Some? && NamesFoldApart(dc.datastores.value) ==>
              forall d :: d in disks <==> DatacenterLists(dc, d)
  {
    if dc.clusters.NoClusters? && dc.datastores.Some? {
      var order :| IsOrder(order, dc.datastores.value) && disks == Gathered(order, dc.datastores.value);
      GatheredOnce(v, i, order, dc.datastores.value);
      forall d | d in disks ensures DatacenterLists(dc, d) {
        GatheredMembers(order, dc.datastores.value, d);
      }
      if NamesFoldApart(dc.datastores.value) {
        GatheredIsAll(order, dc.datastores.value);
      }
    }
  }

  lemma {:induction false} DatacentersGiven(v: string, datacenters: seq<Datacenter>, parts: seq<seq<Disk>>)
    requires DatacenterParts(datacenters, parts)
    requires forall i | 0 <= i < |datacenters| && datacenters[i].datastores.Some? ::
               AtHome(v, i, datacenters[i].datastores.value)
    ensures NoRepeats(Concat(parts))
    ensures forall d | d in Concat(parts) :: d.home.vc == v && 0 <= d.home.datacenter < |parts|
  {
    if parts != [] {
      var n := |parts| - 1;
      DatacentersGiven(v, datacenters[..n], parts[..n]);
      DatacenterGiven(v, n, datacenters[n], parts[n]);
      AppendNoRepeats(Concat(parts[..n]), parts[n]);
    }
  }

  /** A vCenter's disks, and the datacenter each comes from. */
  lemma VCenterGiven(inventory: Inventory, v: string, disks: seq<Disk>)
    requires AllAtHome(inventory) && v in inventory && VCenterGives(inventory[v], disks)
    ensures NoRepeats(disks) && forall d | d in disks :: d.home.vc == v
  {
    hide DatacenterGives, AtHome;
    if inventory[v].refusals < CONNECTION_ATTEMPTS && inventory[v].datacenters.Some? {
      var dcs := inventory[v].datacenters.value;
      var parts :| DatacenterParts(dcs, parts) && disks == Concat(parts);
      forall i | 0 <= i < |dcs| && dcs[i].datastores.Some? ensures AtHome(v, i, dcs[i].datastores.value) {
        assert Reachable(inventory, v, i) && DatacenterAt(inventory, v, i) == dcs[i];
      }
      DatacentersGiven(v, dcs, parts);
    }
  }

  /** The disks a walk gives at one place are what the datacenter there gives. */
  lemma VCenterPart(inventory: Inventory, v: string, disks: seq<Disk>, i: int) returns (part: seq<Disk>)
    requires AllAtHome(inventory) && Reachable(inventory, v, i) && VCenterGives(inventory[v], disks)
    ensures DatacenterGives(DatacenterAt(inventory, v, i), part)
    ensures forall d :: d in part <==> d in disks && d.home.datacenter == i
  {
    hide DatacenterGives, AtHome;
    var dcs := inventory[v].datacenters.value;
    var parts :| DatacenterParts(dcs, parts) && disks == Concat(parts);
    part := parts[i];
    forall j | 0 <= j < |dcs| ensures Placed(v, j, parts[j]) {
      assert Reachable(inventory, v, j) && DatacenterAt(inventory, v, j) == dcs[j];
      DatacenterGiven(v, j, dcs[j], parts[j]);
    }
    forall d ensures d in part <==> d in disks && d.home.datacenter == i {
      ConcatMembers(parts, d);
    }
  }

  lemma {:induction false} VCentersGiven(inventory: Inventory, order: seq<string>, parts: seq<seq<Disk>>)
    requires AllAtHome(inventory) && |parts| == |order|
    requires forall i, j | 0 <= i < j < |order| :: order[i] != order[j]
    requires forall i | 0 <= i < |order| :: order[i] in inventory && VCenterGives(inventory[order[i]], parts[i])
    ensures NoRepeats(Concat(parts)) && forall d | d in Concat(parts) :: d.home.vc in order
  {
    hide VCenterGives, AllAtHome;
    if parts != [] {
      var n := |parts| - 1;
      VCentersGiven(inventory, order[..n], parts[..n]);
      VCenterGiven(inventory, order[n], parts[n]);
      AppendNoRepeats(Concat(parts[..n]), parts[n]);
    }
  }

  lemma InventoryPart(inventory: Inventory, disks: seq<Disk>, v: string, i: int) returns (part: seq<Disk>)
    requires AllAtHome(inventory) && InventoryGives(inventory, disks) && Reachable(inventory, v, i)
    ensures DatacenterGives(DatacenterAt(inventory, v, i), part)
    ensures forall d :: d in part <==> d in disks && d.home.vc == v && d.home.datacenter == i
  {
    hide VCenterGives, AllAtHome, DatacenterGives;
    var order, parts :| VCenterParts(inventory, order, parts) && disks == Concat(parts);
    var k :| 0 <= k < |order| && order[k] == v;
    part := VCenterPart(inventory, v, parts[k], i);
    forall j: int, d: Disk | 0 <= j < |order| && d in parts[j] ensures d.home.vc == order[j] {
      VCenterGiven(inventory, order[j], parts[j]);
    }
    forall d ensures d in part <==> d in disks && d.home.vc == v && d.home.datacenter == i {
      ConcatMembers(parts, d);
    }
  }

  /** Every disk a walk gives is listed at its place. */
  lemma GivenIsListed(inventory: Inventory, disks: seq<Disk>, d: Disk)
    requires AllAtHome(inventory) && InventoryGives(inventory, disks) && d in disks
    ensures NoRepeats(disks) && Lists(inventory, d)
    ensures Reachable(inventory, d.home.vc, d.home.datacenter)
  {
    var order, parts :| VCenterParts(inventory, order, parts) && disks == Concat(parts);
    hide VCenterGives, AllAtHome, Lists;
    VCentersGiven(inventory, order, parts);
    ConcatMembers(parts, d);
    var k :| 0 <= k < |parts| && d in parts[k];
    VCenterListed(inventory, order[k], parts[k], d);
  }

  lemma VCenterListed(inventory: Inventory, v: string, disks: seq<Disk>, d: Disk)
    requires AllAtHome(inventory) && v in inventory && VCenterGives(inventory[v], disks) && d in disks
    ensures Lists(inventory, d) && Reachable(inventory, d.home.vc, d.home.datacenter)
  {
    hide DatacenterGives, AtHome;
    var dcs := inventory[v].datacenters.value;
    var parts :| DatacenterParts(dcs, parts) && disks == Concat(parts);
    ConcatMembers(parts, d);
    var i :| 0 <= i < |parts| && d in parts[i];
    assert Reachable(inventory, v, i) && DatacenterAt(inventory, v, i) == dcs[i];
    DatacenterGiven(v, i, dcs[i], parts[i]);
  }

  // ---------- a listing of a well-placed inventory ----------

  /** Whatever the walk, the list holds each listed disk once, the greatest ID first. */
  lemma MayListIsListing(inventory: Inventory, disks: seq<Disk>)
    requires WellPlaced(inventory) && MayList(inventory, disks)
    ensures IsListing(inventory, disks)
  {
    hide InventoryGives, AllAtHome, NamesFoldApart;
    var found :| InventoryGives(inventory, found) && multiset(found) == multiset(disks);
    forall d ensures d in disks <==> d in found { assert d in multiset(disks) <==> d in multiset(found); }
    forall d ensures d in found <==> Lists(inventory, d) {
      if d in found { GivenIsListed(inventory, found, d); }
      if v, i :| Reachable(inventory, v, i) && DatacenterLists(DatacenterAt(inventory, v, i), d) {
        ListedIsGiven(inventory, found, v, i, d);
      }
    }
    if found != [] { GivenIsListed(inventory, found, found[0]); }
    CountsMatter(found, disks);
  }

  lemma ListedIsGiven(inventory: Inventory, found: seq<Disk>, v: string, i: int, d: Disk)
    requires AllAtHome(inventory) && InventoryGives(inventory, found) && Reachable(inventory, v, i)
    requires DatacenterLists(DatacenterAt(inventory, v, i), d)
    requires NamesFoldApart(DatacenterAt(inventory, v, i).datastores.value)
    ensures d in found
  {
    var part := InventoryPart(inventory, found, v, i);
    DatacenterGiven(v, i, DatacenterAt(inventory, v, i), part);
    hide InventoryGives, DatacenterGives;
    assert d in part;
  }

  // ---------- walks that are chosen at one place ----------

  lemma AnyOrder(keys: set<string>) returns (order: seq<string>)
    ensures Enumerates(order, keys)
  {
    order := [];
    var rest := keys;
    while rest != {}
      invariant rest <= keys && (forall k :: k in order <==> k in keys && k !in rest)
      invariant forall i, j | 0 <= i < j < |order| :: order[i] != order[j]
    {
      var k :| k in rest;
      order, rest := order + [k], rest - {k};
    }
  }

  lemma SomeDisks(dc: Datacenter) returns (disks: seq<Disk>)
    ensures DatacenterGives(dc, disks)
  {
    disks := [];
    if dc.clusters.NoClusters? && dc.datastores.Some? {
      var order := AnyOrder(dc.datastores.value.Keys);
      disks := Gathered(order, dc.datastores.value);
      assert IsOrder(order, dc.datastores.value);
    }
  }

  lemma SomeDisksEach(datacenters: seq<Datacenter>) returns (parts: seq<seq<Disk>>)
    ensures DatacenterParts(datacenters, parts)
  {
    hide DatacenterGives;
    parts := [];
    while |parts| < |datacenters|
      invariant |parts| <= |datacenters| && forall j | 0 <= j < |parts| :: DatacenterGives(datacenters[j], parts[j])
    {
      var next := SomeDisks(datacenters[|parts|]);
      parts := parts + [next];
    }
  }

  lemma SomeWalk(vc: VCenter) returns (disks: seq<Disk>)
    ensures VCenterGives(vc, disks)
  {
    disks := [];
    if vc.refusals < CONNECTION_ATTEMPTS && vc.datacenters.Some? {
      var parts := SomeDisksEach(vc.datacenters.value);
      disks := Concat(parts);
    }
  }

  /** Some walk of the vCenter takes exactly the given disks at datacenter i. */
  lemma ChooseInVCenter(inventory: Inventory, v: string, i: int, part: seq<Disk>) returns (disks: seq<Disk>)
    requires AllAtHome(inventory) && Reachable(inventory, v, i)
    requires DatacenterGives(DatacenterAt(inventory, v, i), part)
    ensures VCenterGives(inventory[v], disks)
    ensures forall d: Disk | d.home.datacenter == i :: d in disks <==> d in part
  {
    hide DatacenterGives, AtHome;
    var dcs := inventory[v].datacenters.value;
    var some := SomeDisksEach(dcs);
    var parts := some[i := part];
    disks := Concat(parts);
    assert DatacenterParts(dcs, parts);
    forall j | 0 <= j < |dcs| ensures Placed(v, j, parts[j]) {
      assert Reachable(inventory, v, j) && DatacenterAt(inventory, v, j) == dcs[j];
      DatacenterGiven(v, j, dcs[j], parts[j]);
    }
    forall d: Disk | d.home.datacenter == i ensures d in disks <==> d in part {
      ConcatMembers(parts, d);
      assert parts[i] == part;
    }
  }

  /** Some walk of the inventory takes exactly the given disks at one place. */
  lemma Choose(inventory: Inventory, v: string, i: int, part: seq<Disk>) returns (disks: seq<Disk>)
    requires AllAtHome(inventory) && Reachable(inventory, v, i)
    requires DatacenterGives(DatacenterAt(inventory, v, i), part)
    ensures InventoryGives(inventory, disks)
    ensures forall d: Disk | d.home.vc == v && d.home.datacenter == i :: d in disks <==> d in part
  {
    hide DatacenterGives, VCenterGives, AllAtHome;
    var order := AnyOrder(inventory.Keys);
    var here := ChooseInVCenter(inventory, v, i, part);
    var parts: seq<seq<Disk>> := [];
    while |parts| < |order|
      invariant |parts| <= |order|
      invariant forall j | 0 <= j < |parts| :: VCenterGives(inventory[order[j]], parts[j])
      invariant forall j | 0 <= j < |parts| && order[j] == v :: parts[j] == here
    {
      var next := here;
      if order[|parts|] != v {
        next := SomeWalk(inventory[order[|parts|]]);
      }
      parts := parts + [next];
    }
    disks := Concat(parts);
    assert VCenterParts(inventory, order, parts);
    forall j: int, d: Disk | 0 <= j < |order| && d in parts[j] ensures d.home.vc == order[j] {
      VCenterGiven(inventory, order[j], parts[j]);
    }
    var k :| 0 <= k < |order| && order[k] == v;
    forall d: Disk | d.home.vc == v && d.home.datacenter == i ensures d in disks <==> d in part {
      ConcatMembers(parts, d);
      assert d in part ==> d in parts[k];
    }
  }

  lemma {:induction false} Sorted(found: seq<Disk>) returns (disks: seq<Disk>)
    ensures Descending(disks) && multiset(disks) == multiset(found)
  {
    disks := [];
    if found != [] {
      var n := |found| - 1;
      var front := Sorted(found[..n]);
      assert found == found[..n] + [found[n]];
      var k := 0;
      while k < |front| && !Less(front[k].id, found[n].id)
        invariant 0 <= k <= |front| && forall i | 0 <= i < k :: !Less(front[i].id, found[n].id)
      {
        k := k + 1;
      }
      InsertAt(front, k, found[n]);
      disks := front[..k] + [found[n]] + front[k..];
    }
  }

  /** A walk can be listed, with the same disks. */
  lemma ListIt(inventory: Inventory, found: seq<Disk>) returns (disks: seq<Disk>)
    requires InventoryGives(inventory, found)
    ensures MayList(inventory, disks) && forall d :: d in disks <==> d in found
  {
    hide InventoryGives;
    disks := Sorted(found);
    forall d ensures d in disks <==> d in found { assert d in multiset(disks) <==> d in multiset(found); }
  }

  // ---------- when a listing is complete ----------

  ghost predicate DiskFree(dc: Datacenter) {
    dc.datastores.Some? ==> forall url | url in dc.datastores.value :: ListsNothing(dc.datastores.value[url])
  }

  /** There are no disks to lose, or no datastore clusters and no two datastores of one name. */
  ghost predicate LosesNothing(dc: Datacenter) {
    DiskFree(dc) || (dc.clusters.NoClusters? && dc.datastores.Some? && NamesFoldApart(dc.datastores.value))
  }

  ghost predicate HoldsAll(dc: Datacenter, disks: seq<Disk>) {
    forall d :: d in disks <==> DatacenterHas(dc, d)
  }

  lemma LosesNothingHoldsAll(v: string, i: int, dc: Datacenter, disks: seq<Disk>)
    requires dc.datastores.Some? ==> AtHome(v, i, dc.datastores.value)
    requires DatacenterGives(dc, disks) && LosesNothing(dc)
    ensures HoldsAll(dc, disks)
  {
    DatacenterGiven(v, i, dc, disks);
    if DiskFree(dc) {
      forall d ensures !DatacenterHas(dc, d) {}
    }
  }

  /** Otherwise some order of the datastores leaves a disk out. */
  lemma SomethingIsLost(v: string, i: int, dc: Datacenter) returns (disks: seq<Disk>, lost: Disk)
    requires (dc.datastores.Some? ==> AtHome(v, i, dc.datastores.value)) && !LosesNothing(dc)
    ensures DatacenterGives(dc, disks) && DatacenterHas(dc, lost) && lost !in disks
    ensures lost.home.vc == v && lost.home.datacenter == i
  {
    var datastores := dc.datastores.value;
    if dc.clusters.NoClusters? {
      DatastoreOrderMatters(v, i, datastores);
      hide ToLower, NamesFoldApart;
      var o, o' :| IsOrder(o, datastores) && IsOrder(o', datastores) &&
        !SameMembers(Gathered(o, datastores), Gathered(o', datastores));
      var a, b := Gathered(o, datastores), Gathered(o', datastores);
      assert DatacenterGives(dc, a) && DatacenterGives(dc, b);
      DatacenterGiven(v, i, dc, a);
      DatacenterGiven(v, i, dc, b);
      hide Gathered, DatacenterGives;
      lost :| (lost in a) != (lost in b);
      disks := if lost in a then b else a;
    } else {
      var url :| url in datastores && !ListsNothing(datastores[url]);
      disks, lost := [], datastores[url].disks.value[0];
      assert DatastoreLists(datastores[url], lost);
    }
  }

  /**
   A datacenter's listing holds all its disks, in every order, exactly when it has no disks, or no
   datastore clusters and no disk on a datastore that shares its name with another.
   */
  lemma DatacenterCompleteExactly(v: string, i: int, dc: Datacenter)
    requires dc.datastores.Some? ==> AtHome(v, i, dc.datastores.value)
    ensures (forall disks | DatacenterGives(dc, disks) :: HoldsAll(dc, disks)) <==> LosesNothing(dc)
  {
    hide AtHome, DatacenterGives;
    if LosesNothing(dc) {
      forall disks | DatacenterGives(dc, disks) ensures HoldsAll(dc, disks) { LosesNothingHoldsAll(v, i, dc, disks); }
    } else {
      var disks, lost := SomethingIsLost(v, i, dc);
      assert !HoldsAll(dc, disks);
    }
  }

  ghost predicate Complete(inventory: Inventory, disks: seq<Disk>) {
    forall d :: d in disks <==> Has(inventory, d)
  }

  ghost predicate NothingLost(inventory: Inventory) {
    forall v, i | Reachable(inventory, v, i) :: LosesNothing(DatacenterAt(inventory, v, i))
  }

  /** The same for the listing of all vCenters. */
  lemma ListingCompleteExactly(inventory: Inventory)
    requires AllAtHome(inventory)
    ensures (forall disks | MayList(inventory, disks) :: Complete(inventory, disks)) <==> NothingLost(inventory)
  {
    hide InventoryGives, AllAtHome, LosesNothing, DatacenterHas, DatacenterGives;
    if NothingLost(inventory) {
      forall disks | MayList(inventory, disks) ensures Complete(inventory, disks) {
        AllIsListed(inventory, disks);
      }
    } else {
      var v, i :| Reachable(inventory, v, i) && !LosesNothing(DatacenterAt(inventory, v, i));
      PlacedAtHome(inventory, v, i);
      var part, lost := SomethingIsLost(v, i, DatacenterAt(inventory, v, i));
      var disks := ListChosen(inventory, v, i, part);
      assert Has(inventory, lost) && lost !in disks;
      assert !Complete(inventory, disks);
    }
  }

  lemma PlacedAtHome(inventory: Inventory, v: string, i: int)
    requires AllAtHome(inventory) && Reachable(inventory, v, i)
    ensures var dc := DatacenterAt(inventory, v, i); dc.datastores.Some? ==> AtHome(v, i, dc.datastores.value)
  {
  }

  lemma AllIsListed(inventory: Inventory, disks: seq<Disk>)
    requires AllAtHome(inventory) && NothingLost(inventory) && MayList(inventory, disks)
    ensures Complete(inventory, disks)
  {
    hide InventoryGives, AllAtHome, LosesNothing, DatacenterHas, DatacenterGives;
    var found :| InventoryGives(inventory, found) && multiset(found) == multiset(disks);
    forall d ensures d in disks <==> Has(inventory, d) {
      assert d in disks <==> d in found by { assert d in multiset(disks) <==> d in multiset(found); }
      if d in found { GivenIsListed(inventory, found, d); }
      if v, i :| Reachable(inventory, v, i) && DatacenterHas(DatacenterAt(inventory, v, i), d) {
        PlacedAtHome(inventory, v, i);
        var part := InventoryPart(inventory, found, v, i);
        LosesNothingHoldsAll(v, i, DatacenterAt(inventory, v, i), part);
        assert d in part;
      }
    }
  }

  /** Some list has, of one place, exactly the disks chosen there. */
  lemma ListChosen(inventory: Inventory, v: string, i: int, part: seq<Disk>) returns (disks: seq<Disk>)
    requires AllAtHome(inventory) && Reachable(inventory, v, i) && DatacenterGives(DatacenterAt(inventory, v, i), part)
    ensures MayList(inventory, disks)
    ensures forall d: Disk | d.home.vc == v && d.home.datacenter == i :: d in disks <==> d in part
  {
    hide MayList, InventoryGives, AllAtHome, DatacenterGives;
    var found := Choose(inventory, v, i, part);
    disks := ListIt(inventory, found);
  }

  const HIDDEN: Disk := Disk("id", "vol", 1024, Home("vc", 0, "url"))

  /** A datacenter with a datastore cluster, whose one disk no listing holds. */
  function Clustered(): Datacenter {
    Datacenter(SomeClusters, Some(map["url" := Datastore("ds", Some([HIDDEN]))]))
  }

  function ClusteredInventory(): Inventory {
    map["vc" := VCenter(0, Some([Clustered()]))]
  }

  lemma ClusteredFacts()
    ensures AllAtHome(ClusteredInventory()) && Has(ClusteredInventory(), HIDDEN)
    ensures forall d :: !Lists(ClusteredInventory(), d)
  {
    var inventory := ClusteredInventory();
    assert Reachable(inventory, "vc", 0) && DatacenterAt(inventory, "vc", 0) == Clustered();
    assert DatastoreLists(Clustered().datastores.value["url"], HIDDEN);
  }

  lemma ClustersHideDisks(disks: seq<Disk>)
    requires MayList(ClusteredInventory(), disks)
    ensures disks == [] && Has(ClusteredInventory(), HIDDEN)
  {
    ClusteredFacts();
    hide Has, Lists, AllAtHome, InventoryGives, ClusteredInventory;
    var inventory := ClusteredInventory();
    var found :| InventoryGives(inventory, found) && multiset(found) == multiset(disks);
    if found != [] { GivenIsListed(inventory, found, found[0]); }
    assert |multiset(disks)| == |multiset(found)| == |found|;
  }

  // ---------- when a listing does not depend on the order of the maps ----------

  /** Two disks of one ID may change places. */
  lemma SwappedList(inventory: Inventory, a: seq<Disk>, i: int, j: int) returns (b: seq<Disk>)
    requires MayList(inventory, a) && 0 <= i < j < |a| && a[i].id == a[j].id && a[i] != a[j]
    ensures MayList(inventory, b) && b != a
  {
    hide InventoryGives, Less;
    b := a[i := a[j]][j := a[i]];
    assert multiset(b) == multiset(a);
    assert forall k | 0 <= k < |a| :: b[k].id == a[k].id;
    assert b[i] != a[i];
  }

  ghost predicate Determined(inventory: Inventory) {
    forall a, b | MayList(inventory, a) && MayList(inventory, b) :: a == b
  }

  /**
   Two calls list the same, whatever the orders, exactly when no disk is on a datastore that shares
   its name with another and no two listed disks share an ID.
   */
  lemma ListingDeterminedExactly(inventory: Inventory)
    requires AllAtHome(inventory)
    ensures Determined(inventory) <==> AllFoldApart(inventory) && IdsDistinct(inventory)
  {
    if AllFoldApart(inventory) && IdsDistinct(inventory) {
      hide MayList, IsListing;
      forall a, b | MayList(inventory, a) && MayList(inventory, b) ensures a == b {
        MayListIsListing(inventory, a);
        MayListIsListing(inventory, b);
        ListingIsUnique(inventory, a, b);
      }
    } else if AllFoldApart(inventory) {
      SameIdIsUndetermined(inventory);
    } else {
      SameNameIsUndetermined(inventory);
    }
  }

  /** A disk that is listed, the place it is listed at. */
  lemma PlaceOf(inventory: Inventory, d: Disk) returns (v: string, i: int)
    requires Lists(inventory, d)
    ensures Reachable(inventory, v, i) && DatacenterLists(DatacenterAt(inventory, v, i), d)
  {
    hide Reachable, DatacenterLists, DatacenterAt;
    v, i :| Reachable(inventory, v, i) && DatacenterLists(DatacenterAt(inventory, v, i), d);
  }

  lemma SomeListing(inventory: Inventory, v: string, i: int) returns (a: seq<Disk>)
    requires AllAtHome(inventory) && Reachable(inventory, v, i)
    ensures MayList(inventory, a)
  {
    hide *;
    var part := SomeDisks(DatacenterAt(inventory, v, i));
    var found := Choose(inventory, v, i, part);
    a := ListIt(inventory, found);
  }

  /** Where names fold apart every list holds every listed disk. */
  lemma ListedIsThere(inventory: Inventory, a: seq<Disk>, d: Disk)
    requires AllAtHome(inventory) && AllFoldApart(inventory) && MayList(inventory, a) && Lists(inventory, d)
    ensures d in a
  {
    var v, i := PlaceOf(inventory, d);
    hide AllAtHome, NamesFoldApart, Descending, InventoryGives, Lists, DatacenterGives;
    var found :| InventoryGives(inventory, found) && multiset(found) == multiset(a);
    ListedIsGiven(inventory, found, v, i, d);
    assert d in multiset(found);
  }

  lemma SameIdIsUndetermined(inventory: Inventory)
    requires AllAtHome(inventory) && AllFoldApart(inventory) && !IdsDistinct(inventory)
    ensures !Determined(inventory)
  {
    var d, e :| Lists(inventory, d) && Lists(inventory, e) && d.id == e.id && d != e;
    hide AllAtHome, AllFoldApart, Lists, MayList, Reachable, DatacenterLists, IdsDistinct;
    var v, k := PlaceOf(inventory, d);
    var a := SomeListing(inventory, v, k);
    ListedIsThere(inventory, a, d);
    ListedIsThere(inventory, a, e);
    var b := OtherList(inventory, a, d, e);
    assert a != b;
  }

  lemma OtherList(inventory: Inventory, a: seq<Disk>, d: Disk, e: Disk) returns (b: seq<Disk>)
    requires MayList(inventory, a) && d in a && e in a && d.id == e.id && d != e
    ensures MayList(inventory, b) && b != a
  {
    hide MayList;
    var i :| 0 <= i < |a| && a[i] == d;
    var j :| 0 <= j < |a| && a[j] == e;
    if i < j {
      b := SwappedList(inventory, a, i, j);
    } else {
      b := SwappedList(inventory, a, j, i);
    }
  }

  lemma SameNameIsUndetermined(inventory: Inventory)
    requires AllAtHome(inventory) && !AllFoldApart(inventory)
    ensures !Determined(inventory)
  {
    var v, i :| Reachable(inventory, v, i) && DatacenterAt(inventory, v, i).clusters.NoClusters? &&
                DatacenterAt(inventory, v, i).datastores.Some? &&
                !NamesFoldApart(DatacenterAt(inventory, v, i).datastores.value);
    var datastores := DatacenterAt(inventory, v, i).datastores.value;
    PlacedAtHome(inventory, v, i);
    DatastoreOrderMatters(v, i, datastores);
    hide ToLower, NamesFoldApart, MayList, AllAtHome;
    var o, o' :| IsOrder(o, datastores) && IsOrder(o', datastores) &&
      !SameMembers(Gathered(o, datastores), Gathered(o', datastores));
    GatheredOnce(v, i, o, datastores);
    GatheredOnce(v, i, o', datastores);
    var a := ListChosen(inventory, v, i, Gathered(o, datastores));
    var b := ListChosen(inventory, v, i, Gathered(o', datastores));
    hide Gathered;
    var d :| (d in Gathered(o, datastores)) != (d in Gathered(o', datastores));
    assert (d in a) != (d in b);
  }

  /** Each call of a walk gathers the list anew; its token still means the same place. */
  lemma PagesAreStable(inventory: Inventory, a: seq<Disk>, b: seq<Disk>, start: nat, maxEntries: nat)
    requires WellPlaced(inventory) && MayList(inventory, a) && MayList(inventory, b)
    ensures PageAt(a, start, maxEntries) == PageAt(b, start, maxEntries)
  {
    MayListIsListing(inventory, a);
    MayListIsListing(inventory, b);
    ListingIsUnique(inventory, a, b);
  }
}
