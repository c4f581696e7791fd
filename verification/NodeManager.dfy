/**
 The node manager's indices over the cluster's virtual machines, by name, by UUID and by
 vCenter, datacenter and UUID, and the export of nodes from the last of them.  Its maps are
 exported in an arbitrary order.
 */
module NodeManager {
  import opened Sequences
  import opened Wrappers

  datatype AddressKind = ExternalIP | InternalIP | HostName

  datatype Address = Address(kind: AddressKind, value: string)

  datatype NodeInfo = NodeInfo(name: string, uuid: string, vcServer: string, datacenter: string,
                               addresses: seq<Address>)

  /** A node as clients see it. */
  datatype ExportedNode = ExportedNode(vcenter: string, datacenter: string, name: string, uuid: string,
                                       dnsNames: seq<string>, addresses: seq<string>)

  type Tree = map<string, map<string, map<string, NodeInfo>>>

  datatype Place = Place(vc: string, dc: string, uuid: string)

  datatype Fault = VCenterNotFound | DatacenterNotFound | VMNotFound

  datatype Indices = Indices(names: map<string, NodeInfo>, uuids: map<string, NodeInfo>, tree: Tree,
                             registered: map<string, string>)

  const EMPTY: Indices := Indices(map[], map[], map[], map[])

  /** Register and Unregister carry the node's UUID; what is registered is the node's name. */
  datatype Event = Discover(node: NodeInfo) | Register(uuid: string, name: string) | Unregister(uuid: string)

  function PlaceOf(n: NodeInfo): Place {
    Place(n.vcServer, n.datacenter, n.uuid)
  }

  predicate In(tree: Tree, p: Place) {
    p.vc in tree && p.dc in tree[p.vc] && p.uuid in tree[p.vc][p.dc]
  }

  function At(tree: Tree, p: Place): NodeInfo
    requires In(tree, p)
  {
    tree[p.vc][p.dc][p.uuid]
  }

  /** Missing levels of the tree are made on the way. */
  function Grown(tree: Tree, n: NodeInfo): Tree {
    var vc := if n.vcServer in tree then tree[n.vcServer] else map[];
    var dc := if n.datacenter in vc then vc[n.datacenter] else map[];
    tree[n.vcServer := vc[n.datacenter := dc[n.uuid := n]]]
  }

  function After(s: Indices, e: Event): Indices {
    match e
    case Discover(n) => s.(names := s.names[n.name := n], uuids := s.uuids[n.uuid := n], tree := Grown(s.tree, n))
    case Register(uuid, name) => s.(registered := s.registered[uuid := name])
    case Unregister(uuid) => s.(registered := s.registered - {uuid})
  }

  function AfterAll(events: seq<Event>): Indices {
    if events == [] then EMPTY else After(AfterAll(events[..|events| - 1]), events[|events| - 1])
  }

  // ---------- what the indices say about the past ----------

  /** The three ways of looking a node up. */
  datatype Key = ByName(name: string) | ByUuid(uuid: string) | ByPlace(place: Place)

  predicate Fits(n: NodeInfo, k: Key) {
    match k
    case ByName(name) => n.name == name
    case ByUuid(uuid) => n.uuid == uuid
    case ByPlace(place) => PlaceOf(n) == place
  }

  function Found(s: Indices, k: Key): Option<NodeInfo> {
    match k
    case ByName(name) => if name in s.names then Some(s.names[name]) else None
    case ByUuid(uuid) => if uuid in s.uuids then Some(s.uuids[uuid]) else None
    case ByPlace(place) => if In(s.tree, place) then Some(At(s.tree, place)) else None
  }

  /** The position of the latest discovery of a node that fits the key. */
  ghost predicate LatestAt(events: seq<Event>, i: int, k: Key) {
    && 0 <= i < |events| && events[i].Discover? && Fits(events[i].node, k)
    && forall j | i < j < |events| && events[j].Discover? :: !Fits(events[j].node, k)
  }

  ghost predicate Discovered(events: seq<Event>, n: NodeInfo) {
    Discover(n) in events
  }

  lemma GrownFacts(tree: Tree, n: NodeInfo)
    ensures forall p :: In(Grown(tree, n), p) <==> p == PlaceOf(n) || In(tree, p)
    ensures forall p | In(Grown(tree, n), p) :: At(Grown(tree, n), p) == if p == PlaceOf(n) then n else At(tree, p)
    ensures forall vc :: vc in Grown(tree, n) <==> vc == n.vcServer || vc in tree
    ensures forall vc, dc :: (vc in Grown(tree, n) && dc in Grown(tree, n)[vc]) <==>
                             (vc == n.vcServer && dc == n.datacenter) || (vc in tree && dc in tree[vc])
  {
  }

  /** Every index answers with the node discovered last under its key, and with nothing else. */
  lemma {:induction false} LatestDiscoveryWins(events: seq<Event>, k: Key)
    ensures Found(AfterAll(events), k).None? <==> forall n | Discovered(events, n) :: !Fits(n, k)
    ensures forall i | LatestAt(events, i, k) :: Found(AfterAll(events), k) == Some(events[i].node)
  {
    if events != [] {
      var front, last := events[..|events| - 1], events[|events| - 1];
      LatestDiscoveryWins(front, k);
      assert events == front + [last];
      forall i | LatestAt(events, i, k) && i < |front| ensures LatestAt(front, i, k) {
        assert front[i] == events[i];
      }
      FoundAfter(AfterAll(front), last, k);
      if last.Discover? { assert Discovered(events, last.node); }
      forall n | Discovered(events, n) ensures Discovered(front, n) || last == Discover(n) {}
      forall n | Discovered(front, n) ensures Discovered(events, n) {}
    }
  }

  lemma FoundAfter(s: Indices, e: Event, k: Key)
    ensures Found(After(s, e), k) == if e.Discover? && Fits(e.node, k) then Some(e.node) else Found(s, k)
  {
    if e.Discover? { GrownFacts(s.tree, e.node); }
  }

  ghost predicate RegisteredAt(events: seq<Event>, i: int, uuid: string) {
    && 0 <= i < |events| && events[i].Register? && events[i].uuid == uuid
    && forall j | i < j < |events| :: events[j] != Unregister(uuid)
  }

  /** The registered UUIDs are those registered and not unregistered since. */
  lemma {:induction false} RegisteredMeans(events: seq<Event>, uuid: string)
    ensures uuid in AfterAll(events).registered <==> exists i :: RegisteredAt(events, i, uuid)
  {
    if events != [] {
      var n := |events| - 1;
      var front, last := events[..n], events[n];
      RegisteredMeans(front, uuid);
      if i :| RegisteredAt(front, i, uuid) {
        assert forall j | 0 <= j < n :: events[j] == front[j];
        assert last != Unregister(uuid) ==> RegisteredAt(events, i, uuid);
      }
      if last.Register? && last.uuid == uuid { assert RegisteredAt(events, n, uuid); }
      if i :| RegisteredAt(events, i, uuid) {
        assert i < n ==> RegisteredAt(front, i, uuid);
      }
    }
  }

  /** The UUID was registered at i and neither registered again nor unregistered since. */
  ghost predicate LastRegisteredAt(events: seq<Event>, i: int, uuid: string) {
    && 0 <= i < |events| && events[i].Register? && events[i].uuid == uuid
    && forall j | i < j < |events| && !events[j].Discover? :: events[j].uuid != uuid
  }

  /** What is registered for a UUID is the name it was registered with last. */
  lemma {:induction false} RegisteredName(events: seq<Event>, i: int, uuid: string)
    requires LastRegisteredAt(events, i, uuid)
    ensures uuid in AfterAll(events).registered && AfterAll(events).registered[uuid] == events[i].name
  {
    hide Grown;
    var n := |events| - 1;
    var front := events[..n];
    if i < n {
      assert forall j | 0 <= j < n :: front[j] == events[j];
      RegisteredName(front, i, uuid);
    }
  }

  /**
   The indices agree after every run: keys match the fields of their nodes, and the node
   stored for a UUID is the one the tree has at that node's place.
   */
  ghost predicate Consistent(s: Indices) {
    && (forall k | Found(s, k).Some? :: Fits(Found(s, k).value, k))
    && (forall u | u in s.uuids :: Found(s, ByPlace(PlaceOf(s.uuids[u]))) == Some(s.uuids[u]))
    && (forall n | n in s.names :: s.names[n].uuid in s.uuids && In(s.tree, PlaceOf(s.names[n])))
  }

  lemma {:induction false} RunsKeepIndicesConsistent(events: seq<Event>)
    ensures Consistent(AfterAll(events))
  {
    if events != [] {
      RunsKeepIndicesConsistent(events[..|events| - 1]);
      EventKeepsConsistent(AfterAll(events[..|events| - 1]), events[|events| - 1]);
    }
  }

  lemma EventKeepsConsistent(s: Indices, e: Event)
    requires Consistent(s)
    ensures Consistent(After(s, e))
  {
    var s' := After(s, e);
    hide After, Grown;
    forall k ensures Found(s', k) == if e.Discover? && Fits(e.node, k) then Some(e.node) else Found(s, k) {
      FoundAfter(s, e, k);
    }
    forall u | u in s'.uuids ensures Found(s', ByPlace(PlaceOf(s'.uuids[u]))) == Some(s'.uuids[u]) {
      assert Found(s', ByUuid(u)) == Some(s'.uuids[u]);
      if !(e.Discover? && e.node.uuid == u) { assert Found(s, ByUuid(u)) == Some(s.uuids[u]); }
    }
    forall n | n in s'.names ensures s'.names[n].uuid in s'.uuids && In(s'.tree, PlaceOf(s'.names[n])) {
      assert Found(s', ByName(n)) == Some(s'.names[n]);
      var u := s'.names[n].uuid;
      assert Found(s', ByUuid(u)).Some? && Found(s', ByPlace(PlaceOf(s'.names[n]))).Some?;
    }
  }

  // ---------- the export ----------

  function ValuesOf(addresses: seq<Address>, kind: AddressKind): seq<string> {
    if addresses == [] then [] else IfOf(addresses[0], kind) + ValuesOf(addresses[1..], kind)
  }

  function IfOf(a: Address, kind: AddressKind): seq<string> {
    if a.kind == kind then [a.value] else []
  }

  function Exported(n: NodeInfo): ExportedNode {
    ExportedNode(n.vcServer, n.datacenter, n.name, n.uuid,
                 ValuesOf(n.addresses, HostName), ValuesOf(n.addresses, ExternalIP))
  }

  /** A datacenter without a vCenter selects nothing in particular: everything is exported. */
  predicate Selected(p: Place, vcenter: string, datacenter: string) {
    vcenter != "" ==> p.vc == vcenter && (datacenter != "" ==> p.dc == datacenter)
  }

  ghost predicate Distinct<T>(s: seq<T>) {
    forall i, j | 0 <= i < j < |s| :: s[i] != s[j]
  }

  /** The list names the nodes at the selected places, each once, in the order given. */
  ghost predicate IsExport(list: seq<ExportedNode>, order: seq<Place>, tree: Tree,
                           vcenter: string, datacenter: string) {
    && Distinct(order)
    && (forall p :: p in order <==> In(tree, p) && Selected(p, vcenter, datacenter))
    && |list| == |order|
    && forall i | 0 <= i < |list| :: list[i] == Exported(At(tree, order[i]))
  }

  function ExportFault(tree: Tree, vcenter: string, datacenter: string): Option<Fault> {
    if vcenter == "" then None
    else if vcenter !in tree then Some(VCenterNotFound)
    else if datacenter != "" && datacenter !in tree[vcenter] then Some(DatacenterNotFound)
    else None
  }

  /** An export is refused exactly when no node was ever discovered where it looks, and says what is missing. */
  lemma RefusedExactly(events: seq<Event>, vcenter: string, datacenter: string)
    ensures ExportFault(AfterAll(events).tree, vcenter, datacenter) ==
            if vcenter == "" then None
            else if forall n | Discovered(events, n) :: n.vcServer != vcenter then Some(VCenterNotFound)
            else if datacenter != "" && forall n | Discovered(events, n) ::
                      !(n.vcServer == vcenter && n.datacenter == datacenter) then Some(DatacenterNotFound)
            else None
  {
    TreeGrowsByDiscovery(events, vcenter, datacenter);
  }

  lemma {:induction false} TreeGrowsByDiscovery(events: seq<Event>, vc: string, dc: string)
    ensures var tree := AfterAll(events).tree;
            && (vc in tree <==> exists n | Discovered(events, n) :: n.vcServer == vc)
            && (vc in tree && dc in tree[vc] <==>
                exists n | Discovered(events, n) :: n.vcServer == vc && n.datacenter == dc)
  {
    if events != [] {
      var front, last := events[..|events| - 1], events[|events| - 1];
      TreeGrowsByDiscovery(front, vc, dc);
      assert events == front + [last];
      forall n ensures Discovered(events, n) <==> Discovered(front, n) || last == Discover(n) {}
      if last.Discover? { GrownFacts(AfterAll(front).tree, last.node); }
    }
  }

  lemma ExportedFields(list: seq<ExportedNode>, order: seq<Place>, s: Indices, vcenter: string, datacenter: string)
    requires Consistent(s) && IsExport(list, order, s.tree, vcenter, datacenter)
    ensures forall i | 0 <= i < |list| :: Place(list[i].vcenter, list[i].datacenter, list[i].uuid) == order[i]
  {
    forall i | 0 <= i < |list| ensures Place(list[i].vcenter, list[i].datacenter, list[i].uuid) == order[i] {
      assert order[i] in order;
      assert Found(s, ByPlace(order[i])).Some?;
    }
  }

  /**
   An export lists every place once, and the part of a full export that a filter selects is
   the filtered export, up to the order.
   */
  lemma FilteredIsPartOfFull(all: seq<ExportedNode>, order: seq<Place>, some: seq<ExportedNode>, order': seq<Place>,
                             s: Indices, vcenter: string, datacenter: string)
    requires Consistent(s)
    requires IsExport(all, order, s.tree, "", "") && IsExport(some, order', s.tree, vcenter, datacenter)
    ensures Distinct(all) && Distinct(some)
    ensures forall e :: e in some <==> e in all && Selected(Place(e.vcenter, e.datacenter, e.uuid), vcenter, datacenter)
  {
    ExportedFields(all, order, s, "", "");
    ExportedFields(some, order', s, vcenter, datacenter);
    forall e | e in some ensures e in all && Selected(Place(e.vcenter, e.datacenter, e.uuid), vcenter, datacenter) {
      var i :| 0 <= i < |some| && some[i] == e;
      assert order'[i] in order' && order'[i] in order;
      var j :| 0 <= j < |order| && order[j] == order'[i];
      assert all[j] == e;
    }
    forall e | e in all && Selected(Place(e.vcenter, e.datacenter, e.uuid), vcenter, datacenter) ensures e in some {
      var i :| 0 <= i < |all| && all[i] == e;
      assert order[i] in order && order[i] in order';
      var j :| 0 <= j < |order'| && order'[j] == order[i];
      assert some[j] == e;
    }
  }

  lemma {:induction false} DistinctPermutation<T>(a: seq<T>, b: seq<T>)
    requires Distinct(a) && Distinct(b) && forall x :: x in a <==> x in b
    ensures multiset(a) == multiset(b)
  {
    CountOnce(a);
    CountOnce(b);
    forall x ensures multiset(a)[x] == multiset(b)[x] {
      assert (x in multiset(a) <==> x in a) && (x in multiset(b) <==> x in b);
    }
  }

  lemma {:induction false} CountOnce<T>(a: seq<T>)
    requires Distinct(a)
    ensures forall x | x in a :: multiset(a)[x] == 1
  {
    if a != [] {
      var front, last := a[..|a| - 1], a[|a| - 1];
      CountOnce(front);
      assert a == front + [last];
      assert last !in front;
      assert multiset(a) == multiset(front) + multiset{last};
      forall x | x in a ensures multiset(a)[x] == 1 {
        if x != last { assert x in front; } else { assert multiset(front)[last] == 0; }
      }
    }
  }

  /** Two exports of the same selection are the same up to the order of the maps. */
  lemma ExportsArePermutations(a: seq<ExportedNode>, order: seq<Place>, b: seq<ExportedNode>, order': seq<Place>,
                               s: Indices, vcenter: string, datacenter: string)
    requires Consistent(s)
    requires IsExport(a, order, s.tree, vcenter, datacenter) && IsExport(b, order', s.tree, vcenter, datacenter)
    ensures multiset(a) == multiset(b)
  {
    ExportedFields(a, order, s, vcenter, datacenter);
    ExportedFields(b, order', s, vcenter, datacenter);
    SameEntries(a, order, b, order', s, vcenter, datacenter);
    SameEntries(b, order', a, order, s, vcenter, datacenter);
    DistinctPermutation(a, b);
  }

  lemma SameEntries(a: seq<ExportedNode>, order: seq<Place>, b: seq<ExportedNode>, order': seq<Place>,
                    s: Indices, vcenter: string, datacenter: string)
    requires IsExport(a, order, s.tree, vcenter, datacenter) && IsExport(b, order', s.tree, vcenter, datacenter)
    ensures forall e | e in a :: e in b
  {
    forall e | e in a ensures e in b {
      var i :| 0 <= i < |a| && a[i] == e;
      assert order[i] in order && order[i] in order';
      var j :| 0 <= j < |order'| && order'[j] == order[i];
      assert b[j] == e;
    }
  }

  /**
   A node is never taken out of the tree.  So a full export lists each virtual machine once
   exactly when no machine was ever discovered at two places.
   */
  lemma ListedOnceExactly(events: seq<Event>, all: seq<ExportedNode>, order: seq<Place>)
    requires IsExport(all, order, AfterAll(events).tree, "", "")
    ensures (forall i, j | 0 <= i < j < |all| :: all[i].uuid != all[j].uuid) <==>
            (forall n, m | Discovered(events, n) && Discovered(events, m) && n.uuid == m.uuid ::
               PlaceOf(n) == PlaceOf(m))
  {
    var s := AfterAll(events);
    RunsKeepIndicesConsistent(events);
    ExportedFields(all, order, s, "", "");
    hide Consistent, AfterAll, IsExport, Discovered, PlaceOf;
    if forall i, j | 0 <= i < j < |all| :: all[i].uuid != all[j].uuid {
      forall n, m | Discovered(events, n) && Discovered(events, m) && n.uuid == m.uuid
        ensures PlaceOf(n) == PlaceOf(m)
      {
        BothListed(events, all, order, n, m);
      }
    } else {
      var i, j :| 0 <= i < j < |all| && all[i].uuid == all[j].uuid;
      OrderIsThere(events, all, order, i, j);
      var n := PlaceWasDiscovered(events, order[i]);
      var m := PlaceWasDiscovered(events, order[j]);
      assert PlaceOf(n).uuid == PlaceOf(m).uuid;
      UuidOfPlace(n);
      UuidOfPlace(m);
    }
  }

  lemma UuidOfPlace(n: NodeInfo)
    ensures PlaceOf(n).uuid == n.uuid
  {
  }

  lemma OrderIsThere(events: seq<Event>, all: seq<ExportedNode>, order: seq<Place>, i: nat, j: nat)
    requires IsExport(all, order, AfterAll(events).tree, "", "") && i < j < |all|
    ensures |order| == |all| && order[i] != order[j]
    ensures In(AfterAll(events).tree, order[i]) && In(AfterAll(events).tree, order[j])
  {
    hide AfterAll;
    assert order[i] in order && order[j] in order;
  }

  lemma DiscoveredIsListed(events: seq<Event>, all: seq<ExportedNode>, order: seq<Place>, n: NodeInfo)
    requires IsExport(all, order, AfterAll(events).tree, "", "") && Discovered(events, n)
    ensures PlaceOf(n) in order
  {
    LatestDiscoveryWins(events, ByPlace(PlaceOf(n)));
    hide AfterAll, LatestAt;
    assert Fits(n, ByPlace(PlaceOf(n)));
  }

  /** Two discovered nodes of one UUID at two places are two entries of one UUID. */
  lemma BothListed(events: seq<Event>, all: seq<ExportedNode>, order: seq<Place>, n: NodeInfo, m: NodeInfo)
    requires IsExport(all, order, AfterAll(events).tree, "", "")
    requires |all| == |order| &&
             forall i | 0 <= i < |all| :: Place(all[i].vcenter, all[i].datacenter, all[i].uuid) == order[i]
    requires forall i, j | 0 <= i < j < |all| :: all[i].uuid != all[j].uuid
    requires Discovered(events, n) && Discovered(events, m) && n.uuid == m.uuid
    ensures PlaceOf(n) == PlaceOf(m)
  {
    hide AfterAll, IsExport, Discovered;
    DiscoveredIsListed(events, all, order, n);
    DiscoveredIsListed(events, all, order, m);
    var i :| 0 <= i < |order| && order[i] == PlaceOf(n);
    var j :| 0 <= j < |order| && order[j] == PlaceOf(m);
    assert all[i].uuid == all[j].uuid;
  }

  /** A machine that moves to another datacenter between two discoveries is exported at both. */
  lemma MovedNodeIsListedTwice(all: seq<ExportedNode>, order: seq<Place>)
    requires var before, after := NodeInfo("n", "u", "vc", "dc0", []), NodeInfo("n", "u", "vc", "dc1", []);
             IsExport(all, order, AfterAll([Discover(before), Discover(after)]).tree, "", "")
    ensures exists i, j | 0 <= i < j < |all| :: all[i].uuid == all[j].uuid
  {
    var before, after := NodeInfo("n", "u", "vc", "dc0", []), NodeInfo("n", "u", "vc", "dc1", []);
    var events := [Discover(before), Discover(after)];
    assert events[0] in events && events[1] in events;
    assert Discovered(events, before) && Discovered(events, after) && PlaceOf(before) != PlaceOf(after);
    hide AfterAll, IsExport;
    ListedOnceExactly(events, all, order);
  }

  lemma PlaceWasDiscovered(events: seq<Event>, p: Place) returns (n: NodeInfo)
    requires In(AfterAll(events).tree, p)
    ensures Discovered(events, n) && PlaceOf(n) == p
  {
    LatestDiscoveryWins(events, ByPlace(p));
    assert !(forall n | Discovered(events, n) :: !Fits(n, ByPlace(p)));
    n :| Discovered(events, n) && Fits(n, ByPlace(p));
  }

  // ---------- what an export tells ----------

  lemma {:induction false} ValuesOfAppend(addresses: seq<Address>, a: Address, kind: AddressKind)
    ensures ValuesOf(addresses + [a], kind) == ValuesOf(addresses, kind) + IfOf(a, kind)
  {
    if addresses == [] {
      assert addresses + [a] == [a];
    } else {
      assert (addresses + [a])[1..] == addresses[1..] + [a];
      ValuesOfAppend(addresses[1..], a, kind);
      Assoc(IfOf(addresses[0], kind), ValuesOf(addresses[1..], kind), IfOf(a, kind));
    }
  }

  /** The values at some positions, in order: all those of addresses of the kind. */
  ghost predicate IsSelection(addresses: seq<Address>, kind: AddressKind, values: seq<string>, at: seq<int>) {
    && |at| == |values|
    && (forall k | 0 <= k < |at| :: 0 <= at[k] < |addresses| && addresses[at[k]] == Address(kind, values[k]))
    && (forall j, k | 0 <= j < k < |at| :: at[j] < at[k])
    && (forall i | 0 <= i < |addresses| && addresses[i].kind == kind :: i in at)
  }

  ghost predicate Selects(addresses: seq<Address>, kind: AddressKind, values: seq<string>) {
    exists at :: IsSelection(addresses, kind, values, at)
  }

  lemma {:induction false} ValuesAreSelected(addresses: seq<Address>, kind: AddressKind)
    ensures Selects(addresses, kind, ValuesOf(addresses, kind))
  {
    if addresses == [] {
      assert IsSelection([], kind, [], []);
    } else {
      var n := |addresses| - 1;
      var front, last := addresses[..n], addresses[n];
      assert addresses == front + [last];
      hide Selects, ValuesOf;
      ValuesAreSelected(front, kind);
      ValuesOfAppend(front, last, kind);
      OneMoreSelected(front, last, kind, ValuesOf(front, kind));
    }
  }

  lemma OneMoreSelected(front: seq<Address>, last: Address, kind: AddressKind, values: seq<string>)
    requires Selects(front, kind, values)
    ensures Selects(front + [last], kind, values + IfOf(last, kind))
  {
    hide IsSelection;
    var at :| IsSelection(front, kind, values, at);
    if last.kind == kind {
      SelectsLast(front, last, kind, values, at);
    } else {
      assert values + [] == values;
      SkipsLast(front, last, kind, values, at);
    }
  }

  lemma SkipsLast(front: seq<Address>, last: Address, kind: AddressKind, values: seq<string>, at: seq<int>)
    requires IsSelection(front, kind, values, at) && last.kind != kind
    ensures IsSelection(front + [last], kind, values, at)
  {
  }

  lemma SelectsLast(front: seq<Address>, last: Address, kind: AddressKind, values: seq<string>, at: seq<int>)
    requires IsSelection(front, kind, values, at) && last.kind == kind
    ensures Selects(front + [last], kind, values + [last.value])
  {
    var more := at + [|front|];
    assert forall i | i in at :: i in more;
    assert |front| in more;
    assert IsSelection(front + [last], kind, values + [last.value], more);
  }

  /** An exported entry tells what was discovered: all fields, the host names and the external addresses in order. */
  ghost predicate Tells(e: ExportedNode, n: NodeInfo) {
    && e.vcenter == n.vcServer && e.datacenter == n.datacenter && e.name == n.name && e.uuid == n.uuid
    && Selects(n.addresses, HostName, e.dnsNames) && Selects(n.addresses, ExternalIP, e.addresses)
  }

  /** The node is where an export looks: everywhere, on one vCenter, or in one of its datacenters. */
  predicate IsAskedFor(n: NodeInfo, vcenter: string, datacenter: string) {
    vcenter == "" || (n.vcServer == vcenter && (datacenter == "" || n.datacenter == datacenter))
  }

  /**
   After any run, every entry of an export tells the latest discovery of a node at some place that
   was asked for, and every discovered node that was asked for has an entry at its place.
   */
  lemma ExportTells(events: seq<Event>, list: seq<ExportedNode>, order: seq<Place>, vcenter: string, datacenter: string)
    requires IsExport(list, order, AfterAll(events).tree, vcenter, datacenter)
    ensures forall e | e in list :: exists i | 0 <= i < |events| && events[i].Discover? ::
              && LatestAt(events, i, ByPlace(PlaceOf(events[i].node)))
              && IsAskedFor(events[i].node, vcenter, datacenter) && Tells(e, events[i].node)
    ensures forall n | Discovered(events, n) && IsAskedFor(n, vcenter, datacenter) ::
              exists e | e in list :: Place(e.vcenter, e.datacenter, e.uuid) == PlaceOf(n)
  {
    var tree := AfterAll(events).tree;
    hide AfterAll, Tells, Exported, LatestAt;
    forall e | e in list ensures exists i | 0 <= i < |events| && events[i].Discover? ::
      LatestAt(events, i, ByPlace(PlaceOf(events[i].node))) && IsAskedFor(events[i].node, vcenter, datacenter) &&
      Tells(e, events[i].node)
    {
      var k :| 0 <= k < |list| && list[k] == e;
      assert order[k] in order;
      var i := LatestAtPlace(events, order[k]);
      ExportedTells(events[i].node);
    }
    forall n | Discovered(events, n) && IsAskedFor(n, vcenter, datacenter)
      ensures exists e | e in list :: Place(e.vcenter, e.datacenter, e.uuid) == PlaceOf(n)
    {
      LatestDiscoveryWins(events, ByPlace(PlaceOf(n)));
      assert Fits(n, ByPlace(PlaceOf(n)));
      assert PlaceOf(n) in order;
      var k :| 0 <= k < |order| && order[k] == PlaceOf(n);
      var i := LatestAtPlace(events, order[k]);
      ExportedTells(events[i].node);
      assert list[k] in list && Place(list[k].vcenter, list[k].datacenter, list[k].uuid) == PlaceOf(n) by {
        assert Tells(list[k], events[i].node) && PlaceOf(events[i].node) == order[k];
        PlaceTold(list[k], events[i].node);
      }
    }
  }

  lemma PlaceTold(e: ExportedNode, n: NodeInfo)
    requires Tells(e, n)
    ensures Place(e.vcenter, e.datacenter, e.uuid) == PlaceOf(n)
  {
  }

  lemma ExportedTells(n: NodeInfo)
    ensures Tells(Exported(n), n)
  {
    ValuesAreSelected(n.addresses, HostName);
    ValuesAreSelected(n.addresses, ExternalIP);
  }

  /** What the tree has at a place is the latest discovery there. */
  lemma LatestAtPlace(events: seq<Event>, p: Place) returns (i: int)
    requires In(AfterAll(events).tree, p)
    ensures 0 <= i < |events| && events[i].Discover? && PlaceOf(events[i].node) == p
    ensures LatestAt(events, i, ByPlace(p)) && At(AfterAll(events).tree, p) == events[i].node
  {
    LatestDiscoveryWins(events, ByPlace(p));
    hide AfterAll;
    var n :| Discovered(events, n) && Fits(n, ByPlace(p));
    i := LatestFit(events, n, ByPlace(p));
  }

  lemma {:induction false} LatestFit(events: seq<Event>, n: NodeInfo, k: Key) returns (i: int)
    requires Discovered(events, n) && Fits(n, k)
    ensures LatestAt(events, i, k)
  {
    hide Fits;
    var last, front := events[|events| - 1], events[..|events| - 1];
    assert events == front + [last];
    if last.Discover? && Fits(last.node, k) {
      i := |front|;
    } else {
      i := LatestFit(front, n, k);
      assert forall j | 0 <= j < |front| :: events[j] == front[j];
    }
  }

  // ---------- the manager ----------

  /** Part of an export: the nodes at the places of order. */
  ghost predicate Lists(list: seq<ExportedNode>, order: seq<Place>, tree: Tree) {
    && Distinct(order)
    && (forall p | p in order :: In(tree, p))
    && |list| == |order|
    && forall i | 0 <= i < |list| :: list[i] == Exported(At(tree, order[i]))
  }

  lemma ListsMore(list: seq<ExportedNode>, order: seq<Place>, tree: Tree, p: Place)
    requires Lists(list, order, tree) && In(tree, p) && p !in order
    ensures Lists(list + [Exported(At(tree, p))], order + [p], tree)
  {
  }

  class Manager {
    var names: map<string, NodeInfo>
    var uuids: map<string, NodeInfo>
    var tree: Tree
    var registered: map<string, string>

    constructor ()
      ensures State() == EMPTY
    {
      names, uuids, tree, registered := map[], map[], map[], map[];
    }

    ghost function State(): Indices
      reads this
    {
      Indices(names, uuids, tree, registered)
    }

    method AddNodeInfo(n: NodeInfo)
      modifies this
      ensures State() == After(old(State()), Discover(n))
    {
      names := names[n.name := n];
      uuids := uuids[n.uuid := n];
      AddNodeInfoToVCList(n.vcServer, n.datacenter, n);
    }

    method AddNodeInfoToVCList(vcenter: string, datacenter: string, n: NodeInfo)
      requires vcenter == n.vcServer && datacenter == n.datacenter
      modifies `tree
      ensures tree == Grown(old(tree), n)
    {
      ghost var dcs := if vcenter in tree then tree[vcenter] else map[];
      ghost var vms := if datacenter in dcs then dcs[datacenter] else map[];
      if vcenter !in tree {
        tree := tree[vcenter := map[]];
      }
      if datacenter !in tree[vcenter] {
        tree := tree[vcenter := tree[vcenter][datacenter := map[]]];
      }
      assert tree[vcenter][datacenter := vms[n.uuid := n]] == dcs[datacenter := vms[n.uuid := n]];
      tree := tree[vcenter := tree[vcenter][datacenter := tree[vcenter][datacenter][n.uuid := n]]];
    }

    method AddNode(uuid: string, name: string)
      modifies this
      ensures State() == After(old(State()), Register(uuid, name))
    {
      registered := registered[uuid := name];
    }

    method RemoveNode(uuid: string)
      modifies this
      ensures State() == After(old(State()), Unregister(uuid))
    {
      registered := registered - {uuid};
    }

    method FindDatacenterInfoInVCList(vcenter: string, datacenter: string)
      returns (r: Result<map<string, NodeInfo>, Fault>)
      ensures r == if vcenter !in tree then Err(VCenterNotFound)
                   else if datacenter !in tree[vcenter] then Err(DatacenterNotFound)
                   else Ok(tree[vcenter][datacenter])
    {
      if vcenter !in tree { return Err(VCenterNotFound); }
      if datacenter !in tree[vcenter] { return Err(DatacenterNotFound); }
      return Ok(tree[vcenter][datacenter]);
    }

    method FindNodeInfoInVCList(vcenter: string, datacenter: string, uuid: string) returns (r: Result<NodeInfo, Fault>)
      ensures r.Ok? <==> In(tree, Place(vcenter, datacenter, uuid))
      ensures r.Ok? ==> Found(State(), ByPlace(Place(vcenter, datacenter, uuid))) == Some(r.value)
      ensures r == Err(VMNotFound) ==> vcenter in tree && datacenter in tree[vcenter]
    {
      var dc := FindDatacenterInfoInVCList(vcenter, datacenter);
      if dc.Err? { return Err(dc.error); }
      if uuid !in dc.value { return Err(VMNotFound); }
      return Ok(dc.value[uuid]);
    }

    method ExportNode(n: NodeInfo) returns (e: ExportedNode)
      ensures e == Exported(n)
    {
      var dnsNames, addresses := [], [];
      for i := 0 to |n.addresses|
        invariant dnsNames == ValuesOf(n.addresses[..i], HostName)
        invariant addresses == ValuesOf(n.addresses[..i], ExternalIP)
      {
        var a := n.addresses[i];
        assert n.addresses[..i + 1] == n.addresses[..i] + [a];
        ValuesOfAppend(n.addresses[..i], a, HostName);
        ValuesOfAppend(n.addresses[..i], a, ExternalIP);
        match a.kind
        case ExternalIP => addresses := addresses + [a.value];
        case HostName => dnsNames := dnsNames + [a.value];
        case InternalIP =>
      }
      assert n.addresses[..|n.addresses|] == n.addresses;
      return ExportedNode(n.vcServer, n.datacenter, n.name, n.uuid, dnsNames, addresses);
    }

    /** Appends the nodes of one datacenter in the order its map is walked. */
    method DatacenterToNodeList(vc: string, dc: string, list: seq<ExportedNode>, ghost order: seq<Place>)
      returns (more: seq<ExportedNode>, ghost order': seq<Place>)
      requires Lists(list, order, tree) && vc in tree && dc in tree[vc]
      requires forall p | p in order :: p.vc != vc || p.dc != dc
      ensures Lists(more, order', tree)
      ensures forall p :: p in order' <==> p in order || (In(tree, p) && p.vc == vc && p.dc == dc)
    {
      hide Lists;
      more, order' := list, order;
      var rest := tree[vc][dc].Keys;
      while rest != {}
        invariant rest <= tree[vc][dc].Keys && Lists(more, order', tree)
        invariant forall p :: p in order' <==>
                    p in order || (In(tree, p) && p.vc == vc && p.dc == dc && p.uuid !in rest)
      {
        var uuid :| uuid in rest;
        var e := ExportNode(tree[vc][dc][uuid]);
        ListsMore(more, order', tree, Place(vc, dc, uuid));
        more := more + [e];
        order' := order' + [Place(vc, dc, uuid)];
        rest := rest - {uuid};
      }
    }

    /** Appends the nodes of every datacenter of one vCenter. */
    method VCenterToNodeList(vc: string, list: seq<ExportedNode>, ghost order: seq<Place>)
      returns (more: seq<ExportedNode>, ghost order': seq<Place>)
      requires Lists(list, order, tree) && vc in tree
      requires forall p | p in order :: p.vc != vc
      ensures Lists(more, order', tree)
      ensures forall p :: p in order' <==> p in order || (In(tree, p) && p.vc == vc)
    {
      hide Lists;
      more, order' := list, order;
      var rest := tree[vc].Keys;
      while rest != {}
        invariant rest <= tree[vc].Keys && Lists(more, order', tree)
        invariant forall p :: p in order' <==> p in order || (In(tree, p) && p.vc == vc && p.dc !in rest)
      {
        var dc :| dc in rest;
        more, order' := DatacenterToNodeList(vc, dc, more, order');
        rest := rest - {dc};
      }
    }

    method ExportNodes(vcenter: string, datacenter: string, nodeList: seq<ExportedNode>)
      returns (fault: Option<Fault>, list: seq<ExportedNode>, ghost added: seq<ExportedNode>, ghost order: seq<Place>)
      ensures fault == ExportFault(tree, vcenter, datacenter)
      ensures list == nodeList + added
      ensures fault.Some? ==> added == []
      ensures fault.None? ==> IsExport(added, order, tree, vcenter, datacenter)
    {
      var found: seq<ExportedNode> := [];
      order := [];
      if vcenter != "" && datacenter != "" {
        var dc := FindDatacenterInfoInVCList(vcenter, datacenter);
        if dc.Err? { return Some(dc.error), nodeList, [], []; }
        found, order := DatacenterToNodeList(vcenter, datacenter, found, order);
      } else if vcenter != "" {
        if vcenter !in tree { return Some(VCenterNotFound), nodeList, [], []; }
        found, order := VCenterToNodeList(vcenter, found, order);
      } else {
        var rest := tree.Keys;
        while rest != {}
          invariant rest <= tree.Keys && Lists(found, order, tree)
          invariant forall p :: p in order <==> In(tree, p) && p.vc !in rest
        {
          var vc :| vc in rest;
          found, order := VCenterToNodeList(vc, found, order);
          rest := rest - {vc};
        }
      }
      return None, nodeList + found, found, order;
    }
  }
}
