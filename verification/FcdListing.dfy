/**
 ListVolumes: the disks of every vCenter, datacenter and datastore, gathered in whatever
 order Go walks its maps, sorted by ID and handed out in pages.
 */
module FcdListing {
  import opened ListTokens
  import opened Strings
  import opened Wrappers

  /** The controller's own constant, apart from the one of the parallel search. */
  const CONNECTION_ATTEMPTS: nat := 3
  const MB_IN_BYTES: int := 1024 * 1024

  /** Where a disk lives: vCenter, position of the datacenter on it, datastore URL. */
  datatype Home = Home(vc: string, datacenter: int, url: string)

  datatype Disk = Disk(id: string, name: string, capacityMB: int, home: Home)

  /** disks is what listing and retrieving answer; None when one of those calls fails. */
  datatype Datastore = Datastore(name: string, disks: Option<seq<Disk>>)

  /**
   What looking for datastore clusters answers.  Only NoClusters lets the source go on to
   the datastores: when clusters exist it returns an empty list, and no error.
   */
  datatype ClusterLookup = NoClusters | SomeClusters | LookupFails

  datatype Datacenter = Datacenter(clusters: ClusterLookup, datastores: Option<map<string, Datastore>>)

  /** refusals is the number of connection attempts refused before one is accepted. */
  datatype VCenter = VCenter(refusals: nat, datacenters: Option<seq<Datacenter>>)

  type Inventory = map<string, VCenter>

  // ---------- the order of strings ----------

  /** Byte order of strings, as Go compares them. */
  predicate Less(a: string, b: string) {
    b != "" && (a == "" || a[0] < b[0] || (a[0] == b[0] && Less(a[1..], b[1..])))
  }

  lemma {:induction false} LessIsStrict(a: string, b: string)
    ensures !(Less(a, b) && Less(b, a))
    ensures a == b || Less(a, b) || Less(b, a)
  {
    if a != "" && b != "" && a[0] == b[0] {
      LessIsStrict(a[1..], b[1..]);
      assert a == [a[0]] + a[1..] && b == [b[0]] + b[1..];
    }
  }

  lemma {:induction false} LessIsTransitive(a: string, b: string, c: string)
    requires Less(a, b) && Less(b, c)
    ensures Less(a, c)
  {
    if a != "" && a[0] == b[0] && b[0] == c[0] {
      LessIsTransitive(a[1..], b[1..], c[1..]);
    }
  }

  /** The strings agree up to k, where a ends or has the smaller character. */
  ghost predicate IsLessAt(a: string, b: string, k: int) {
    0 <= k <= |a| && k < |b| && a[..k] == b[..k] && (k == |a| || a[k] < b[k])
  }

  /** One string is less than another exactly when it is so where they first differ. */
  lemma {:induction false} LessExactly(a: string, b: string)
    ensures Less(a, b) <==> exists k :: IsLessAt(a, b, k)
  {
    forall k | IsLessAt(a, b, k) && k > 0 ensures a != "" && a[0] == b[0] { SameStart(a, b, k); }
    if b != "" && (a == "" || a[0] != b[0]) {
      if a == "" || a[0] < b[0] { assert IsLessAt(a, b, 0); }
    } else if b != "" {
      LessExactly(a[1..], b[1..]);
      assert a == [a[0]] + a[1..] && b == [b[0]] + b[1..];
      if k :| IsLessAt(a[1..], b[1..], k) {
        assert a[..k + 1] == [a[0]] + a[1..][..k] && b[..k + 1] == [b[0]] + b[1..][..k];
        assert IsLessAt(a, b, k + 1);
      }
      if k :| IsLessAt(a, b, k) {
        assert a[1..][..k - 1] == a[..k][1..] && b[1..][..k - 1] == b[..k][1..];
        assert IsLessAt(a[1..], b[1..], k - 1);
      }
    }
  }

  lemma SameStart(a: string, b: string, k: int)
    requires IsLessAt(a, b, k) && k > 0
    ensures a != "" && a[0] == b[0]
  {
    assert a[..k][0] == b[..k][0];
  }

  // ---------- what there is to list, and what is listed ----------

  predicate DatastoreLists(ds: Datastore, d: Disk) {
    ds.disks.Some? && d in ds.disks.value
  }

  predicate ListsNothing(ds: Datastore) {
    ds.disks.None? || ds.disks.value == []
  }

  /** The disk is on a datastore of the datacenter, in a datastore cluster or not. */
  ghost predicate DatacenterHas(dc: Datacenter, d: Disk) {
    dc.datastores.Some? && exists url | url in dc.datastores.value :: DatastoreLists(dc.datastores.value[url], d)
  }

  /** What the source gets to see: nothing of a datacenter in which it finds datastore clusters. */
  ghost predicate DatacenterLists(dc: Datacenter, d: Disk) {
    dc.clusters.NoClusters? && DatacenterHas(dc, d)
  }

  /** The vCenter refuses fewer than three connection attempts and lists its datacenters, of which this is number i. */
  predicate Reachable(inventory: Inventory, v: string, i: int) {
    && v in inventory && inventory[v].refusals < 3
    && inventory[v].datacenters.Some? && 0 <= i < |inventory[v].datacenters.value|
  }

  function DatacenterAt(inventory: Inventory, v: string, i: int): Datacenter
    requires Reachable(inventory, v, i)
  {
    inventory[v].datacenters.value[i]
  }

  /** The disk exists: every call on the way to it succeeds. */
  ghost predicate Has(inventory: Inventory, d: Disk) {
    exists v, i :: Reachable(inventory, v, i) && DatacenterHas(DatacenterAt(inventory, v, i), d)
  }

  ghost predicate Lists(inventory: Inventory, d: Disk) {
    exists v, i :: Reachable(inventory, v, i) && DatacenterLists(DatacenterAt(inventory, v, i), d)
  }

  predicate SameName(a: Datastore, b: Datastore) {
    ToLower(a.name) == ToLower(b.name)
  }

  /** Datastores of a datacenter whose names differ in case only have no disks. */
  ghost predicate NamesFoldApart(datastores: map<string, Datastore>) {
    forall u, v | u in datastores && v in datastores && u != v && SameName(datastores[u], datastores[v]) ::
      ListsNothing(datastores[u])
  }

  predicate NoRepeats(disks: seq<Disk>) {
    forall i, j | 0 <= i < j < |disks| :: disks[i] != disks[j]
  }

  /** Disks carry the place they are at, and no datastore lists one twice. */
  ghost predicate AtHome(vcName: string, k: int, datastores: map<string, Datastore>) {
    forall url | url in datastores && datastores[url].disks.Some? ::
      var disks := datastores[url].disks.value;
      NoRepeats(disks) && forall d | d in disks :: d.home == Home(vcName, k, url)
  }

  ghost predicate AllAtHome(inventory: Inventory) {
    forall v, i | Reachable(inventory, v, i) && DatacenterAt(inventory, v, i).datastores.Some? ::
      AtHome(v, i, DatacenterAt(inventory, v, i).datastores.value)
  }

  /** Where datastores are listed at all, none with disks shares its name, up to case, with another. */
  ghost predicate AllFoldApart(inventory: Inventory) {
    forall v, i | Reachable(inventory, v, i) && DatacenterAt(inventory, v, i).clusters.NoClusters? &&
                  DatacenterAt(inventory, v, i).datastores.Some? ::
      NamesFoldApart(DatacenterAt(inventory, v, i).datastores.value)
  }

  ghost predicate IdsDistinct(inventory: Inventory) {
    forall d, e | Lists(inventory, d) && Lists(inventory, e) && d.id == e.id :: d == e
  }

  ghost predicate WellPlaced(inventory: Inventory) {
    AllAtHome(inventory) && AllFoldApart(inventory) && IdsDistinct(inventory)
  }

  predicate Descending(disks: seq<Disk>) {
    forall i, j | 0 <= i < j < |disks| :: !Less(disks[i].id, disks[j].id)
  }

  /** The disks that are listed, each once, the greatest ID first. */
  ghost predicate IsListing(inventory: Inventory, disks: seq<Disk>) {
    && Descending(disks)
    && NoRepeats(disks)
    && (forall d :: d in disks <==> Lists(inventory, d))
  }

  // ---------- gathering ----------

  /** The name is in the list, whatever the case. */
  ghost predicate Visited(names: seq<string>, name: string) {
    exists i | 0 <= i < |names| :: ToLower(names[i]) == ToLower(name)
  }

  method ExistsInList(needle: string, haystack: seq<string>, caseSensitive: bool) returns (found: bool)
    ensures found <==> if caseSensitive then needle in haystack else Visited(haystack, needle)
  {
    for i := 0 to |haystack|
      invariant forall j | 0 <= j < i ::
                  if caseSensitive then haystack[j] != needle else ToLower(haystack[j]) != ToLower(needle)
    {
      if caseSensitive {
        if haystack[i] == needle {
          return true;
        }
      } else if ToLower(haystack[i]) == ToLower(needle) {
        return true;
      }
    }
    return false;
  }

  ghost predicate NoneShared(a: seq<Disk>, b: seq<Disk>) {
    forall d | d in a :: d !in b
  }

  lemma AppendNoRepeats(a: seq<Disk>, b: seq<Disk>)
    requires NoRepeats(a) && NoRepeats(b) && NoneShared(a, b)
    ensures NoRepeats(a + b)
  {
    forall i, j | 0 <= i < j < |a + b| ensures (a + b)[i] != (a + b)[j] {
      if i < |a| <= j {
        assert a[i] in a && b[j - |a|] in b;
      }
    }
  }

  // ---------- one datacenter, its datastores walked in one given order ----------

  ghost predicate IsOrder(order: seq<string>, datastores: map<string, Datastore>) {
    && (forall i, j | 0 <= i < j < |order| :: order[i] != order[j])
    && (forall u :: u in order <==> u in datastores)
  }

  /** The datastore at i is the first of its name, whatever the case. */
  ghost predicate FirstOfName(order: seq<string>, i: int, datastores: map<string, Datastore>)
    requires forall u | u in order :: u in datastores
  {
    0 <= i < |order| && forall j | 0 <= j < i :: !SameName(datastores[order[j]], datastores[order[i]])
  }

  lemma FirstOfNameInFront(order: seq<string>, n: nat, datastores: map<string, Datastore>)
    requires n <= |order| && forall u | u in order :: u in datastores
    ensures forall u | u in order[..n] :: u in datastores
    ensures forall i | 0 <= i < n :: order[..n][i] == order[i]
    ensures forall i | 0 <= i < n :: FirstOfName(order[..n], i, datastores) <==> FirstOfName(order, i, datastores)
  {
    hide SameName;
    assert forall j | 0 <= j < n :: order[..n][j] == order[j];
  }

  function DisksOf(ds: Datastore): seq<Disk> {
    if ds.disks.Some? then ds.disks.value else []
  }

  /** Each name is visited once, so only its first datastore gives disks. */
  ghost function Gathered(order: seq<string>, datastores: map<string, Datastore>): seq<Disk>
    requires forall u | u in order :: u in datastores
  {
    if order == [] then []
    else
      var n := |order| - 1;
      Gathered(order[..n], datastores) + if FirstOfName(order, n, datastores) then DisksOf(datastores[order[n]]) else []
  }

  lemma {:induction false} GatheredMembers(order: seq<string>, datastores: map<string, Datastore>, d: Disk)
    requires forall u | u in order :: u in datastores
    ensures d in Gathered(order, datastores) <==>
            exists i | 0 <= i < |order| && FirstOfName(order, i, datastores) :: DatastoreLists(datastores[order[i]], d)
  {
    hide FirstOfName, DatastoreLists;
    if order != [] {
      var n := |order| - 1;
      var front := order[..n];
      GatheredMembers(front, datastores, d);
      FirstOfNameInFront(order, n, datastores);
      LastGathered(order, datastores, d);
      hide Gathered;
      if i :| 0 <= i < n && FirstOfName(front, i, datastores) && DatastoreLists(datastores[front[i]], d) {
        assert FirstOfName(order, i, datastores);
      }
      if i :| 0 <= i < n && FirstOfName(order, i, datastores) && DatastoreLists(datastores[order[i]], d) {
        assert FirstOfName(front, i, datastores) && front[i] == order[i];
      }
    }
  }

  lemma LastGathered(order: seq<string>, datastores: map<string, Datastore>, d: Disk)
    requires order != [] && forall u | u in order :: u in datastores
    ensures var n := |order| - 1;
            d in Gathered(order, datastores) <==>
            d in Gathered(order[..n], datastores) ||
            (FirstOfName(order, n, datastores) && DatastoreLists(datastores[order[n]], d))
  {
    hide FirstOfName;
  }

  /** Without two datastores of one name to choose from, every disk is gathered. */
  lemma GatheredIsAll(order: seq<string>, datastores: map<string, Datastore>)
    requires IsOrder(order, datastores) && NamesFoldApart(datastores)
    ensures forall d :: d in Gathered(order, datastores) <==>
              exists u | u in datastores :: DatastoreLists(datastores[u], d)
  {
    hide ToLower, Gathered;
    forall d ensures d in Gathered(order, datastores) <==>
                     exists u | u in datastores :: DatastoreLists(datastores[u], d)
    {
      GatheredMembers(order, datastores, d);
      if u :| u in datastores && DatastoreLists(datastores[u], d) {
        assert u in order;
        var i :| 0 <= i < |order| && order[i] == u;
        assert FirstOfName(order, i, datastores);
      }
    }
  }

  ghost predicate SameMembers(a: seq<Disk>, b: seq<Disk>) {
    forall d :: d in a <==> d in b
  }

  lemma {:induction false} OrderFrom(datastores: map<string, Datastore>, first: string) returns (order: seq<string>)
    requires first in datastores
    ensures IsOrder(order, datastores) && order[0] == first
  {
    order := [first];
    var rest := datastores.Keys - {first};
    while rest != {}
      invariant rest <= datastores.Keys && order != [] && order[0] == first
      invariant forall u :: u in order <==> u in datastores && u !in rest
      invariant forall i, j | 0 <= i < j < |order| :: order[i] != order[j]
    {
      var u :| u in rest;
      order, rest := order + [u], rest - {u};
    }
  }

  /**
   The disks gathered from a datacenter are the same in every order of its map exactly when
   no disk is on a datastore whose name another one has in a different case.
   */
  lemma DatastoreOrderMatters(vcName: string, k: int, datastores: map<string, Datastore>)
    requires AtHome(vcName, k, datastores)
    ensures (forall o, o' | IsOrder(o, datastores) && IsOrder(o', datastores) ::
               SameMembers(Gathered(o, datastores), Gathered(o', datastores))) <==> NamesFoldApart(datastores)
  {
    if NamesFoldApart(datastores) {
      forall o, o' | IsOrder(o, datastores) && IsOrder(o', datastores)
        ensures SameMembers(Gathered(o, datastores), Gathered(o', datastores))
      {
        GatheredIsAll(o, datastores);
        GatheredIsAll(o', datastores);
      }
    } else {
      var u, v :| u in datastores && v in datastores && u != v && SameName(datastores[u], datastores[v]) &&
        !ListsNothing(datastores[u]);
      var d := datastores[u].disks.value[0];
      var o := OrderFrom(datastores, u);
      var o' := OrderFrom(datastores, v);
      GatheredMembers(o, datastores, d);
      assert FirstOfName(o, 0, datastores) && DatastoreLists(datastores[o[0]], d);
      GatheredMembers(o', datastores, d);
      forall i | 0 <= i < |o'| && DatastoreLists(datastores[o'[i]], d) ensures !FirstOfName(o', i, datastores) {
        assert o'[i] in datastores && o'[i] == d.home.url == u;
      }
      assert !SameMembers(Gathered(o, datastores), Gathered(o', datastores));
    }
  }

  lemma {:induction false} GatheredOnce(vcName: string, k: int, order: seq<string>, datastores: map<string, Datastore>)
    requires AtHome(vcName, k, datastores) && (forall u | u in order :: u in datastores)
    requires forall i, j | 0 <= i < j < |order| :: order[i] != order[j]
    ensures NoRepeats(Gathered(order, datastores))
    ensures forall d | d in Gathered(order, datastores) ::
              d.home.vc == vcName && d.home.datacenter == k && d.home.url in order
  {
    if order != [] {
      var n := |order| - 1;
      var last := DisksOf(datastores[order[n]]);
      GatheredOnce(vcName, k, order[..n], datastores);
      AppendNoRepeats(Gathered(order[..n], datastores), last);
    }
  }

  /** A datastore of that name has been walked. */
  ghost predicate Walked(order: seq<string>, datastores: map<string, Datastore>, name: string)
    requires forall u | u in order :: u in datastores
  {
    exists j | 0 <= j < |order| :: ToLower(datastores[order[j]].name) == ToLower(name)
  }

  lemma OneMoreWalked(order: seq<string>, datastores: map<string, Datastore>, url: string)
    requires url in datastores && forall u | u in order :: u in datastores
    ensures var seen := Walked(order, datastores, datastores[url].name);
            && Gathered(order + [url], datastores) ==
               Gathered(order, datastores) + (if seen then [] else DisksOf(datastores[url]))
            && forall name :: Walked(order + [url], datastores, name) <==>
                 Walked(order, datastores, name) || (!seen && ToLower(datastores[url].name) == ToLower(name))
  {
    hide ToLower;
    var more := order + [url];
    assert more[..|order|] == order && more[|order|] == url;
    assert FirstOfName(more, |order|, datastores) <==> !Walked(order, datastores, datastores[url].name) by {
      hide Gathered;
      assert forall j | 0 <= j < |order| :: more[j] == order[j];
    }
    forall name ensures Walked(more, datastores, name) <==>
                        Walked(order, datastores, name) || ToLower(datastores[url].name) == ToLower(name) {
      hide Gathered;
      if j :| 0 <= j < |order| && ToLower(datastores[order[j]].name) == ToLower(name) { assert more[j] == order[j]; }
    }
    hide FirstOfName;
  }

  lemma OneMoreVisited(names: seq<string>, more: string)
    ensures forall name :: Visited(names + [more], name) <==> Visited(names, name) || ToLower(more) == ToLower(name)
  {
    forall name ensures Visited(names + [more], name) <==> Visited(names, name) || ToLower(more) == ToLower(name) {
      if i :| 0 <= i < |names| && ToLower(names[i]) == ToLower(name) { assert (names + [more])[i] == names[i]; }
      assert (names + [more])[|names|] == more;
    }
  }

  lemma Nothing(dc: Datacenter)
    ensures dc.datastores.Some? ==>
              && Gathered([], dc.datastores.value) == []
              && forall name :: !Visited([], name) && !Walked([], dc.datastores.value, name)
  {
  }

  // ---------- what a walk may gather ----------

  /** The disks one datacenter gives in some order of its map. */
  ghost predicate DatacenterGives(dc: Datacenter, disks: seq<Disk>) {
    if dc.clusters.NoClusters? && dc.datastores.Some?
    then exists order :: IsOrder(order, dc.datastores.value) && disks == Gathered(order, dc.datastores.value)
    else disks == []
  }

  function Concat(parts: seq<seq<Disk>>): seq<Disk> {
    if parts == [] then [] else Concat(parts[..|parts| - 1]) + parts[|parts| - 1]
  }

  lemma ConcatMore(parts: seq<seq<Disk>>, part: seq<Disk>)
    ensures Concat(parts + [part]) == Concat(parts) + part
  {
    assert (parts + [part])[..|parts|] == parts;
  }

  ghost predicate DatacenterParts(datacenters: seq<Datacenter>, parts: seq<seq<Disk>>) {
    |parts| == |datacenters| && forall i | 0 <= i < |parts| :: DatacenterGives(datacenters[i], parts[i])
  }

  /** A vCenter that cannot be reached, or does not list its datacenters, gives nothing. */
  ghost predicate VCenterGives(vc: VCenter, disks: seq<Disk>) {
    if vc.refusals < CONNECTION_ATTEMPTS && vc.datacenters.Some?
    then exists parts :: DatacenterParts(vc.datacenters.value, parts) && disks == Concat(parts)
    else disks == []
  }

  ghost predicate Enumerates(order: seq<string>, keys: set<string>) {
    (forall i, j | 0 <= i < j < |order| :: order[i] != order[j]) && (forall k :: k in order <==> k in keys)
  }

  ghost predicate VCenterParts(inventory: Inventory, order: seq<string>, parts: seq<seq<Disk>>) {
    && Enumerates(order, inventory.Keys) && |parts| == |order|
    && forall i | 0 <= i < |order| :: order[i] in inventory && VCenterGives(inventory[order[i]], parts[i])
  }

  ghost predicate InventoryGives(inventory: Inventory, disks: seq<Disk>) {
    exists order, parts :: VCenterParts(inventory, order, parts) && disks == Concat(parts)
  }

  /** A list the source may answer with: any sorting of any walk. */
  ghost predicate MayList(inventory: Inventory, disks: seq<Disk>) {
    Descending(disks) && exists found :: InventoryGives(inventory, found) && multiset(found) == multiset(disks)
  }

  /** Datastores are visited in any order, and each name once, however it is spelled. */
  method GetAllFirstClassDisks(dc: Datacenter) returns (disks: Option<seq<Disk>>)
    ensures disks.None? <==> dc.clusters.LookupFails? || (dc.clusters.NoClusters? && dc.datastores.None?)
    ensures DatacenterGives(dc, if disks.Some? then disks.value else [])
  {
    ghost var order: seq<string>;
    hide ToLower, Visited, Walked, Gathered, FirstOfName;
    Nothing(dc);
    order := [];
    match dc.clusters
    case SomeClusters => return Some([]);
    case LookupFails => return None;
    case NoClusters =>
    if dc.datastores.None? {
      return None;
    }
    var datastores := dc.datastores.value;
    var alreadyVisited: seq<string> := [];
    var found: seq<Disk> := [];
    var left := datastores.Keys;
    while left != {}
      invariant left <= datastores.Keys
      invariant forall u :: u in order <==> u in datastores && u !in left
      invariant forall i, j | 0 <= i < j < |order| :: order[i] != order[j]
      invariant found == Gathered(order, datastores)
      invariant forall name :: Visited(alreadyVisited, name) <==> Walked(order, datastores, name)
      decreases left
    {
      var url :| url in left;
      left := left - {url};
      var datastore := datastores[url];
      var visited := ExistsInList(datastore.name, alreadyVisited, false);
      OneMoreVisited(alreadyVisited, datastore.name);
      OneMoreWalked(order, datastores, url);
      order := order + [url];
      if !visited {
        alreadyVisited := alreadyVisited + [datastore.name];
        if datastore.disks.Some? {
          found := found + datastore.disks.value;
        }
      }
    }
    return Some(found);
  }

  /** Connects, with retries, and collects the disks of one vCenter. */
  method GatherVCenter(vc: VCenter) returns (disks: seq<Disk>)
    ensures VCenterGives(vc, disks)
  {
    hide DatacenterGives;
    disks := [];
    var connected := false;
    for attempt := 0 to CONNECTION_ATTEMPTS
      invariant connected <==> attempt > vc.refusals
    {
      if attempt >= vc.refusals {
        connected := true;
      }
    }
    if !connected || vc.datacenters.None? {
      return;
    }
    var datacenters := vc.datacenters.value;
    ghost var parts: seq<seq<Disk>> := [];
    for i := 0 to |datacenters|
      invariant disks == Concat(parts) && |parts| == i
      invariant forall j | 0 <= j < i :: DatacenterGives(datacenters[j], parts[j])
    {
      var subset := GetAllFirstClassDisks(datacenters[i]);
      ghost var part := if subset.Some? then subset.value else [];
      ConcatMore(parts, part);
      parts := parts + [part];
      if subset.Some? {
        disks := disks + subset.value;
      }
    }
    assert DatacenterParts(datacenters, parts);
  }

  /** Stands for sort.Slice, of which only the contract matters: any sorted permutation. */
  method SortByIdDescending(disks: seq<Disk>) returns (sorted: seq<Disk>)
    ensures Descending(sorted) && multiset(sorted) == multiset(disks)
  {
    sorted := [];
    for i := 0 to |disks|
      invariant Descending(sorted) && multiset(sorted) == multiset(disks[..i])
    {
      assert disks[..i + 1] == disks[..i] + [disks[i]];
      sorted := Insert(sorted, disks[i]);
    }
    assert disks[..|disks|] == disks;
  }

  method Insert(sorted: seq<Disk>, d: Disk) returns (longer: seq<Disk>)
    requires Descending(sorted)
    ensures Descending(longer) && multiset(longer) == multiset(sorted) + multiset{d}
  {
    var k := 0;
    while k < |sorted| && !Less(sorted[k].id, d.id)
      invariant 0 <= k <= |sorted|
      invariant forall i | 0 <= i < k :: !Less(sorted[i].id, d.id)
    {
      k := k + 1;
    }
    longer := sorted[..k] + [d] + sorted[k..];
    InsertAt(sorted, k, d);
  }

  lemma InsertAt(sorted: seq<Disk>, k: nat, d: Disk)
    requires Descending(sorted) && k <= |sorted|
    requires forall i | 0 <= i < k :: !Less(sorted[i].id, d.id)
    requires k < |sorted| ==> Less(sorted[k].id, d.id)
    ensures Descending(sorted[..k] + [d] + sorted[k..])
    ensures multiset(sorted[..k] + [d] + sorted[k..]) == multiset(sorted) + multiset{d}
  {
    assert sorted == sorted[..k] + sorted[k..];
    forall j | k <= j < |sorted| ensures !Less(d.id, sorted[j].id) {
      LessIsStrict(d.id, sorted[k].id);
      if Less(d.id, sorted[j].id) {
        LessIsTransitive(sorted[k].id, d.id, sorted[j].id);
      }
    }
  }

  /** The whole listing, with vCenters walked in any order. */
  method GetAllFCDs(inventory: Inventory) returns (disks: seq<Disk>)
    ensures MayList(inventory, disks)
  {
    hide VCenterGives;
    var found: seq<Disk> := [];
    var left := inventory.Keys;
    ghost var order: seq<string>, parts: seq<seq<Disk>> := [], [];
    while left != {}
      invariant left <= inventory.Keys && found == Concat(parts) && |parts| == |order|
      invariant forall k :: k in order <==> k in inventory.Keys && k !in left
      invariant forall i, j | 0 <= i < j < |order| :: order[i] != order[j]
      invariant forall i | 0 <= i < |order| :: VCenterGives(inventory[order[i]], parts[i])
      decreases left
    {
      var vc :| vc in left;
      left := left - {vc};
      var subset := GatherVCenter(inventory[vc]);
      ConcatMore(parts, subset);
      order, parts := order + [vc], parts + [subset];
      found := found + subset;
    }
    assert VCenterParts(inventory, order, parts);
    disks := SortByIdDescending(found);
    assert InventoryGives(inventory, found) && multiset(found) == multiset(disks);
  }

  /** Whatever list is answered with, a disk never comes after one whose ID is smaller. */
  lemma GreatestFirst(inventory: Inventory, disks: seq<Disk>, i: int, j: int)
    requires MayList(inventory, disks) && 0 <= i < j < |disks|
    ensures disks[i].id == disks[j].id || exists k :: IsLessAt(disks[j].id, disks[i].id, k)
  {
    hide InventoryGives, Less;
    LessIsStrict(disks[i].id, disks[j].id);
    LessExactly(disks[j].id, disks[i].id);
  }

  // ---------- pages ----------

  datatype Page = Page(entries: seq<Disk>, nextToken: string)

  datatype ListError = InvalidToken | TokenPastEnd

  function StartOf(token: string): Option<int> {
    if token == "" then Some(0) else Atoi(token)
  }

  /** A negative position or limit crashes the source in a slice expression. */
  predicate IsRequest(token: string, maxEntries: int) {
    maxEntries >= 0 && (StartOf(token).Some? ==> StartOf(token).value >= 0)
  }

  function PageAt(disks: seq<Disk>, start: nat, maxEntries: nat): Result<Page, ListError> {
    var total := |disks|;
    var stop := if maxEntries != 0 && total > maxEntries then start + maxEntries - 1 else total;
    if start > total then Err(TokenPastEnd)
    else
      Ok(Page(if stop >= total then disks[start..] else disks[start..stop + 1],
              if stop < total then Itoa(stop + 1) else ""))
  }

  method ListVolumes(inventory: Inventory, token: string, maxEntries: int)
    returns (r: Result<Page, ListError>)
    requires IsRequest(token, maxEntries)
    ensures exists disks ::
              MayList(inventory, disks) &&
              r == if StartOf(token).None? then Err(InvalidToken)
                   else PageAt(disks, StartOf(token).value, maxEntries)
  {
    hide MayList, Itoa, Atoi;
    var all := GetAllFCDs(inventory);
    var total := |all|;
    var start := 0;
    if token != "" {
      var parsed := Atoi(token);
      if parsed.None? {
        return Err(InvalidToken);
      }
      start := parsed.value;
    }
    var stop := total;
    if maxEntries != 0 && stop > maxEntries {
      stop := start + maxEntries - 1;
    }
    var subset := all;
    if start > total {
      return Err(TokenPastEnd);
    } else if stop >= total {
      subset := all[start..];
    } else {
      subset := all[start..stop + 1];
    }
    var entries := [];
    for i := 0 to |subset|
      invariant entries == subset[..i]
    {
      entries := entries + [subset[i]];
    }
    var nextToken := "";
    if stop < total {
      nextToken := Itoa(stop + 1);
    }
    assert subset[..|subset|] == subset;
    return Ok(Page(entries, nextToken));
  }

  /**
   What a page is and what it hands on: as many disks as the limit allows, none at the end of the
   list, and a token for the place right after it unless all of the rest fits, or all of the list.
   */
  lemma PageFacts(disks: seq<Disk>, start: nat, maxEntries: nat)
    requires |disks| <= MAX_INT
    ensures start > |disks| <==> PageAt(disks, start, maxEntries) == Err(TokenPastEnd)
    ensures start <= |disks| ==>
              && PageAt(disks, start, maxEntries).Ok?
              && var page, left := PageAt(disks, start, maxEntries).value, |disks| - start;
                 && |page.entries| == (if maxEntries == 0 || left <= maxEntries then left else maxEntries)
                 && page.entries == disks[start..start + |page.entries|]
                 && (page.nextToken == "" <==> maxEntries == 0 || left < maxEntries || |disks| <= maxEntries)
                 && (page.nextToken != "" ==>
                       page.entries != [] && StartOf(page.nextToken) == Some(start + |page.entries|))
  {
    hide Itoa, Atoi;
    if start <= |disks| && maxEntries != 0 && |disks| > maxEntries && start + maxEntries - 1 < |disks| {
      TokenRoundTrip(start + maxEntries);
    }
  }

  /** A client's walk: page number i is asked for with limit(i), until no token comes back. */
  function Walk(disks: seq<Disk>, start: nat, limit: nat -> nat, i: nat): (pages: seq<Page>)
    requires start <= |disks| <= MAX_INT
    decreases |disks| - start
  {
    PageFacts(disks, start, limit(i));
    var page := PageAt(disks, start, limit(i)).value;
    if page.nextToken == "" then [page]
    else [page] + Walk(disks, StartOf(page.nextToken).value, limit, i + 1)
  }

  function Flatten(pages: seq<Page>): seq<Disk> {
    if pages == [] then [] else pages[0].entries + Flatten(pages[1..])
  }

  /** What the walk does after its first page. */
  lemma WalkStep(disks: seq<Disk>, start: nat, limit: nat -> nat, i: nat) returns (page: Page, next: nat)
    requires start <= |disks| <= MAX_INT
    ensures page == PageAt(disks, start, limit(i)).value && next == start + |page.entries| <= |disks|
    ensures page.entries == disks[start..next] && (limit(i) > 0 ==> |page.entries| <= limit(i))
    ensures page.nextToken == "" ==> next == |disks| && Walk(disks, start, limit, i) == [page]
    ensures page.nextToken != "" ==>
              start < next && Walk(disks, start, limit, i) == [page] + Walk(disks, next, limit, i + 1)
  {
    PageFacts(disks, start, limit(i));
    page := PageAt(disks, start, limit(i)).value;
    next := start + |page.entries|;
    hide PageAt;
  }

  lemma FlattenOne(page: Page)
    ensures Flatten([page]) == page.entries
  {
    assert Flatten([page]) == page.entries + Flatten([]);
  }

  lemma FlattenMore(page: Page, rest: seq<Page>)
    ensures Flatten([page] + rest) == page.entries + Flatten(rest)
  {
    assert ([page] + rest)[1..] == rest;
  }

  /** Following the tokens gives back the rest of the list, in order, nothing missing or repeated. */
  lemma {:induction false} WalkCoversList(disks: seq<Disk>, start: nat, limit: nat -> nat, i: nat)
    requires start <= |disks| <= MAX_INT
    ensures Flatten(Walk(disks, start, limit, i)) == disks[start..]
    decreases |disks| - start
  {
    hide Walk, PageAt, Flatten;
    var page, next := WalkStep(disks, start, limit, i);
    if page.nextToken == "" {
      FlattenOne(page);
    } else {
      WalkCoversList(disks, next, limit, i + 1);
      FlattenMore(page, Walk(disks, next, limit, i + 1));
      assert disks[start..] == disks[start..next] + disks[next..];
    }
  }

  /** Page number k of the walk is no longer than its limit, and empty only if it is the last. */
  ghost predicate WithinLimits(pages: seq<Page>, limit: nat -> nat, i: nat)
    decreases |pages|
  {
    pages == [] ||
    ((limit(i) > 0 ==> |pages[0].entries| <= limit(i)) && (pages[0].entries == [] ==> |pages| == 1) &&
     WithinLimits(pages[1..], limit, i + 1))
  }

  /** The walk ends after at most one page per disk and one more, and keeps to every limit. */
  lemma {:induction false} WalkKeepsLimits(disks: seq<Disk>, start: nat, limit: nat -> nat, i: nat)
    requires start <= |disks| <= MAX_INT
    ensures 1 <= |Walk(disks, start, limit, i)| <= |disks| - start + 1
    ensures WithinLimits(Walk(disks, start, limit, i), limit, i)
    decreases |disks| - start
  {
    var page, next := WalkStep(disks, start, limit, i);
    hide Walk, PageAt;
    if page.nextToken != "" {
      WalkKeepsLimits(disks, next, limit, i + 1);
      assert ([page] + Walk(disks, next, limit, i + 1))[1..] == Walk(disks, next, limit, i + 1);
    }
  }
}
