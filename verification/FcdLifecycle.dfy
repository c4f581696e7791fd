/**
 CreateVolume and DeleteVolume over the disks vCenter holds: a named store whose calls may
 be repeated.
 */
module FcdLifecycle {
  import opened Wrappers
  import Pool = SearchPool
  import PoolProgress = SearchPoolProgress

  const GIB: int := 1024 * 1024 * 1024
  const MIB: int := 1024 * 1024
  const DEFAULT_GIB: int := 10
  const MAX_INT64: int := 0x7FFF_FFFF_FFFF_FFFF

  /** A datacenter, by the vCenter it is on. */
  datatype Site = Site(vc: string, datacenter: string)

  datatype Fcd = Fcd(site: Site, datastore: string, name: string, id: string, capacityMB: int)

  /** What identifies a volume to its user: the name is unique within a datastore. */
  datatype Key = Key(site: Site, datastore: string, name: string)

  function KeyOf(d: Fcd): Key {
    Key(d.site, d.datastore, d.name)
  }

  /** The datastores of a datacenter, and its datastore clusters with their children in order. */
  datatype Layout = Layout(datastores: set<string>, clusters: map<string, seq<string>>)

  /** A request with its parameters; requiredBytes is None when no capacity range is given. */
  datatype CreateRequest = CreateRequest(
    name: string, parentType: string, parentName: string, requiredBytes: Option<int>)

  datatype Volume = Volume(id: string, capacityBytes: int)

  datatype ApiError = BadRequest | NoSite | CreateFailed | AlreadyExists | LostAfterCreate | SearchFailed | DeleteFailed

  /** Which of the external calls of one CreateVolume fail; a failing call changes nothing. */
  datatype CreateFaults = CreateFaults(lookup: bool, create: bool, relookup: bool)

  const NO_FAULTS: CreateFaults := CreateFaults(false, false, false)

  /**
   What fails while one DeleteVolume looks for the disk: connecting to a vCenter and listing the
   datastores of a datacenter, which is reported, and listing the disks of a datastore, which is
   not; and whether the deletion itself does.
   */
  datatype DeleteFaults = DeleteFaults(unreachable: set<string>, unlisted: set<Site>, silent: set<(Site, string)>,
                                       remove: bool)

  const NO_DELETE_FAULTS: DeleteFaults := DeleteFaults({}, {}, {}, false)

  // ---------- sizes ----------

  /** Whole GiB, rounded up, expressed in MiB. */
  function SizeMB(requiredBytes: Option<int>): int {
    (Asked(requiredBytes) + GIB - 1) / GIB * 1024
  }

  /** The size asked for; none at all and zero both mean the default. */
  function Asked(requiredBytes: Option<int>): int {
    if requiredBytes.Some? && requiredBytes.value != 0 then requiredBytes.value else DEFAULT_GIB * GIB
  }

  /** What a 64-bit integer makes of a number. */
  function ToInt64(n: int): int {
    (n + MAX_INT64 + 1) % (2 * (MAX_INT64 + 1)) - MAX_INT64 - 1
  }

  predicate IsInt64(n: int) {
    -MAX_INT64 - 1 <= n <= MAX_INT64
  }

  /**
   A volume is a whole number of GiB, at least what was asked for and less than one GiB more, and
   ten GiB where nothing or zero was; its capacity is reported in bytes exactly unless rounding up
   has left the range of the report.
   */
  lemma SizeIsTight(requiredBytes: Option<int>)
    requires requiredBytes.Some? ==> IsInt64(requiredBytes.value)
    ensures var bytes := SizeMB(requiredBytes) * 1048576;
            && bytes % 1073741824 == 0
            && (requiredBytes.Some? && requiredBytes.value != 0 ==>
                  requiredBytes.value <= bytes < requiredBytes.value + 1073741824)
            && (requiredBytes == None || requiredBytes == Some(0) ==> bytes == 10737418240)
            && (ToInt64(bytes) == bytes <==> bytes <= 9223372036854775807)
            && (ToInt64(bytes) != bytes ==> ToInt64(bytes) == -9223372036854775808)
            && (requiredBytes.Some? ==> (ToInt64(bytes) == bytes <==> requiredBytes.value <= 9223372035781033984))
  {
    var asked, gib := Asked(requiredBytes), (Asked(requiredBytes) + GIB - 1) / GIB;
    assert SizeMB(requiredBytes) * MIB == gib * GIB;
    hide SizeMB, ToInt64;
    RoundsUp(asked, gib);
    StaysInRange(asked, gib);
    Wraps(gib * GIB);
  }

  /** A number is reported modulo 2^64, as the signed 64-bit integer it is congruent to. */
  lemma ReportedModulo(n: int)
    ensures -9223372036854775808 <= ToInt64(n) <= 9223372036854775807
    ensures exists k :: ToInt64(n) == n - k * 18446744073709551616
    ensures IsInt64(n) ==> ToInt64(n) == n
  {
    var k := (n + MAX_INT64 + 1) / 18446744073709551616;
    assert ToInt64(n) == n - k * 18446744073709551616;
  }

  lemma RoundsUp(asked: int, gib: int)
    requires gib == (asked + GIB - 1) / GIB
    ensures gib * GIB % GIB == 0 && asked <= gib * GIB < asked + GIB
  {
  }

  lemma StaysInRange(asked: int, gib: int)
    requires IsInt64(asked) && asked <= gib * GIB < asked + GIB
    ensures -MAX_INT64 - 1 <= gib * GIB <= MAX_INT64 + 1
    ensures gib * GIB <= MAX_INT64 <==> asked <= MAX_INT64 + 1 - GIB
  {
    assert MAX_INT64 + 1 == 8589934592 * GIB;
  }

  lemma Wraps(n: int)
    requires -MAX_INT64 - 1 <= n <= MAX_INT64 + 1
    ensures ToInt64(n) == if n <= MAX_INT64 then n else -MAX_INT64 - 1
  {
  }

  // ---------- the store as a map ----------

  function Find(disks: seq<Fcd>, key: Key): Option<Fcd> {
    if disks == [] then None
    else if KeyOf(disks[0]) == key then Some(disks[0])
    else Find(disks[1..], key)
  }

  /** The first disk of that name on the listed datastores, in their order. */
  function FindIn(disks: seq<Fcd>, site: Site, datastores: seq<string>, name: string): Option<Fcd> {
    if datastores == [] then None
    else
      var here := Find(disks, Key(site, datastores[0], name));
      if here.Some? then here else FindIn(disks, site, datastores[1..], name)
  }

  function FindId(disks: seq<Fcd>, id: string): Option<Fcd> {
    if disks == [] then None
    else if disks[0].id == id then Some(disks[0])
    else FindId(disks[1..], id)
  }

  function WithoutId(disks: seq<Fcd>, id: string): seq<Fcd> {
    if disks == [] then []
    else if disks[0].id == id then WithoutId(disks[1..], id)
    else [disks[0]] + WithoutId(disks[1..], id)
  }

  /** Names are unique within a datastore, and IDs everywhere. */
  ghost predicate Unique(disks: seq<Fcd>) {
    NamesUnique(disks) && IdsUnique(disks)
  }

  ghost predicate NamesUnique(disks: seq<Fcd>) {
    disks == [] || ((forall d | d in disks[1..] :: KeyOf(d) != KeyOf(disks[0])) && NamesUnique(disks[1..]))
  }

  ghost predicate IdsUnique(disks: seq<Fcd>) {
    disks == [] || ((forall d | d in disks[1..] :: d.id != disks[0].id) && IdsUnique(disks[1..]))
  }

  /** The user's view: the ID and the capacity each name stands for. */
  ghost function View(disks: seq<Fcd>): map<Key, (string, int)> {
    if disks == [] then map[]
    else View(disks[1..])[KeyOf(disks[0]) := (disks[0].id, disks[0].capacityMB)]
  }

  lemma {:induction false} FindIsView(disks: seq<Fcd>, key: Key)
    ensures var r := Find(disks, key);
            && (r.Some? <==> key in View(disks))
            && (r.Some? ==> r.value in disks && KeyOf(r.value) == key &&
                            View(disks)[key] == (r.value.id, r.value.capacityMB))
            && (r.None? ==> forall d | d in disks :: KeyOf(d) != key)
  {
    if disks != [] { FindIsView(disks[1..], key); }
  }

  lemma {:induction false} AppendDisk(disks: seq<Fcd>, d: Fcd)
    ensures NamesUnique(disks + [d]) <==> NamesUnique(disks) && KeyOf(d) !in View(disks)
    ensures IdsUnique(disks + [d]) <==> IdsUnique(disks) && (forall e | e in disks :: e.id != d.id)
    ensures KeyOf(d) !in View(disks) ==>
              View(disks + [d]) == View(disks)[KeyOf(d) := (d.id, d.capacityMB)]
  {
    if disks == [] {
      assert disks + [d] == [d] && [d][1..] == [];
    } else {
      assert (disks + [d])[1..] == disks[1..] + [d];
      AppendDisk(disks[1..], d);
    }
  }

  lemma {:induction false} FindAppend(disks: seq<Fcd>, d: Fcd, key: Key)
    ensures Find(disks + [d], key) ==
            if Find(disks, key).Some? then Find(disks, key) else if KeyOf(d) == key then Some(d) else None
  {
    if disks == [] {
      assert disks + [d] == [d];
    } else {
      assert (disks + [d])[1..] == disks[1..] + [d];
      FindAppend(disks[1..], d, key);
    }
  }

  lemma {:induction false} WithoutIdFacts(disks: seq<Fcd>, id: string)
    ensures forall d :: d in WithoutId(disks, id) <==> d in disks && d.id != id
    ensures NamesUnique(disks) ==> NamesUnique(WithoutId(disks, id))
    ensures IdsUnique(disks) ==> IdsUnique(WithoutId(disks, id))
    ensures WithoutId(WithoutId(disks, id), id) == WithoutId(disks, id)
  {
    if disks != [] {
      WithoutIdFacts(disks[1..], id);
      var rest := WithoutId(disks[1..], id);
      assert ([disks[0]] + rest)[1..] == rest;
    }
  }

  lemma {:induction false} FindIdFacts(disks: seq<Fcd>, id: string)
    ensures var r := FindId(disks, id);
            && (r.Some? ==> r.value in disks && r.value.id == id)
            && (r.None? ==> forall d | d in disks :: d.id != id)
  {
    if disks != [] { FindIdFacts(disks[1..], id); }
  }

  // ---------- the meaning of CreateVolume ----------

  /** The datastores a parent stands for, or none when there is no such parent. */
  function Children(layout: Layout, parentType: string, parentName: string): seq<string> {
    if parentType == "Datastore" then (if parentName in layout.datastores then [parentName] else [])
    else if parentName in layout.clusters then layout.clusters[parentName]
    else []
  }

  predicate IsComplete(r: CreateRequest) {
    r.name != "" && r.parentType != "" && r.parentName != ""
  }

  function NewDisk(site: Site, datastore: string, r: CreateRequest, id: string): Fcd {
    Fcd(site, datastore, r.name, id, SizeMB(r.requiredBytes))
  }

  function VolumeOf(d: Fcd): Volume {
    Volume(d.id, ToInt64(d.capacityMB * MIB))
  }

  /**
   Any failure of the first lookup, not only an absent disk, makes the source create one.
   The placement service chooses the child of a cluster.
   */
  function AfterCreate(disks: seq<Fcd>, layout: Layout, site: Site, r: CreateRequest,
                       choice: nat, newId: string, f: CreateFaults): (seq<Fcd>, Result<Volume, ApiError>)
  {
    if !IsComplete(r) then (disks, Err(BadRequest))
    else
      var children := Children(layout, r.parentType, r.parentName);
      var known := FindIn(disks, site, children, r.name);
      if !f.lookup && known.Some? then
        (disks, if known.value.capacityMB == SizeMB(r.requiredBytes) then Ok(VolumeOf(known.value))
                else Err(AlreadyExists))
      else if f.create || children == [] then (disks, Err(CreateFailed))
      else
        var disks' := disks + [NewDisk(site, children[choice % |children|], r, newId)];
        var made := FindIn(disks', site, children, r.name);
        (disks', if f.relookup || made.None? then Err(LostAfterCreate) else Ok(VolumeOf(made.value)))
  }

  ghost predicate FreshId(disks: seq<Fcd>, id: string) {
    id != "" && forall d | d in disks :: d.id != id
  }

  lemma {:induction false} FindInFacts(disks: seq<Fcd>, site: Site, datastores: seq<string>, name: string)
    ensures var r := FindIn(disks, site, datastores, name);
            && (r.Some? ==> r.value in disks && r.value.site == site && r.value.name == name &&
                            r.value.datastore in datastores && KeyOf(r.value) in View(disks) &&
                            View(disks)[KeyOf(r.value)] == (r.value.id, r.value.capacityMB))
            && (r.Some? ==> exists k | 0 <= k < |datastores| ::
                  datastores[k] == r.value.datastore && NoneBefore(disks, site, datastores, name, k))
            && (r.None? <==> forall ds | ds in datastores :: Key(site, ds, name) !in View(disks))
  {
    if datastores != [] {
      FindIsView(disks, Key(site, datastores[0], name));
      FindInFacts(disks, site, datastores[1..], name);
      var r := FindIn(disks, site, datastores, name);
      if Find(disks, Key(site, datastores[0], name)).Some? {
        assert NoneBefore(disks, site, datastores, name, 0) && datastores[0] == r.value.datastore;
      } else if r.Some? {
        var k :| 0 <= k < |datastores[1..]| && datastores[1..][k] == r.value.datastore &&
                 NoneBefore(disks, site, datastores[1..], name, k);
        assert datastores[k + 1] == r.value.datastore;
        forall j | 0 <= j < k + 1 ensures Key(site, datastores[j], name) !in View(disks) {
          if j > 0 { assert datastores[1..][j - 1] == datastores[j]; }
        }
        assert NoneBefore(disks, site, datastores, name, k + 1);
      }
    }
  }

  /** None of the first k datastores has a disk of that name. */
  ghost predicate NoneBefore(disks: seq<Fcd>, site: Site, datastores: seq<string>, name: string, k: nat) {
    k <= |datastores| && forall j | 0 <= j < k :: Key(site, datastores[j], name) !in View(disks)
  }

  lemma {:induction false} FindInNew(disks: seq<Fcd>, d: Fcd, datastores: seq<string>)
    requires FindIn(disks, d.site, datastores, d.name).None? && d.datastore in datastores
    ensures FindIn(disks + [d], d.site, datastores, d.name) == Some(d)
  {
    FindAppend(disks, d, Key(d.site, datastores[0], d.name));
    if datastores[0] != d.datastore {
      FindInNew(disks, d, datastores[1..]);
    }
  }

  /** The name denotes a volume on one of the parent's datastores. */
  ghost predicate Named(disks: seq<Fcd>, layout: Layout, site: Site, r: CreateRequest) {
    exists ds | ds in Children(layout, r.parentType, r.parentName) :: Key(site, ds, r.name) in View(disks)
  }

  /**
   Without faults CreateVolume is an insertion into a map.  A name already there returns the
   volume it denotes on the parent's first datastore that has it when the sizes round alike,
   is refused otherwise, and in both cases nothing changes; a new name is added to one
   datastore of the parent and nowhere else.
   */
  lemma CreateRefinesMap(disks: seq<Fcd>, layout: Layout, site: Site, r: CreateRequest, choice: nat, newId: string)
    requires Unique(disks) && FreshId(disks, newId) && IsComplete(r)
    requires Children(layout, r.parentType, r.parentName) != []
    ensures var (disks', result) := AfterCreate(disks, layout, site, r, choice, newId, NO_FAULTS);
            var size, children := SizeMB(r.requiredBytes), Children(layout, r.parentType, r.parentName);
            && Unique(disks')
            && (Named(disks, layout, site, r) ==>
                  && disks' == disks
                  && exists k | 0 <= k < |children| && NoneBefore(disks, site, children, r.name, k) ::
                       && Key(site, children[k], r.name) in View(disks)
                       && var (id, capacity) := View(disks)[Key(site, children[k], r.name)];
                          result == if capacity == size then Ok(Volume(id, ToInt64(size * MIB)))
                                    else Err(AlreadyExists))
            && (!Named(disks, layout, site, r) ==>
                  && result == Ok(Volume(newId, ToInt64(size * MIB)))
                  && var key := Key(site, children[choice % |children|], r.name);
                     View(disks') == View(disks)[key := (newId, size)])
  {
    var children := Children(layout, r.parentType, r.parentName);
    FindInFacts(disks, site, children, r.name);
    if !Named(disks, layout, site, r) {
      var d := NewDisk(site, children[choice % |children|], r, newId);
      AppendDisk(disks, d);
      FindInNew(disks, d, children);
    }
  }

  /** Asking again, for any size that rounds to the same GiB, gives the same volume and adds nothing. */
  lemma CreateTwice(disks: seq<Fcd>, layout: Layout, site: Site, r: CreateRequest, choice: nat, newId: string,
                    again: CreateRequest, choice': nat, newId': string)
    requires Unique(disks) && FreshId(disks, newId)
    requires again == r.(requiredBytes := again.requiredBytes)
    requires AfterCreate(disks, layout, site, r, choice, newId, NO_FAULTS).1.Ok?
    ensures var (disks', result) := AfterCreate(disks, layout, site, r, choice, newId, NO_FAULTS);
            AfterCreate(disks', layout, site, again, choice', newId', NO_FAULTS) ==
            (disks', if SizeMB(again.requiredBytes) == SizeMB(r.requiredBytes) then result else Err(AlreadyExists))
  {
    var children := Children(layout, r.parentType, r.parentName);
    if FindIn(disks, site, children, r.name).None? {
      FindInNew(disks, NewDisk(site, children[choice % |children|], r, newId), children);
    }
  }

  /** The request is about to repeat a name because its lookup failed in passing. */
  predicate Duplicates(disks: seq<Fcd>, layout: Layout, site: Site, r: CreateRequest, choice: nat, f: CreateFaults) {
    var children := Children(layout, r.parentType, r.parentName);
    && IsComplete(r) && f.lookup && !f.create && children != []
    && Find(disks, Key(site, children[choice % |children|], r.name)).Some?
  }

  /** With faults names that are unique stay so exactly when no failed lookup hides the volume of that name. */
  lemma NamesStayUnique(disks: seq<Fcd>, layout: Layout, site: Site, r: CreateRequest,
                        choice: nat, newId: string, f: CreateFaults)
    requires IdsUnique(disks) && FreshId(disks, newId)
    ensures var disks' := AfterCreate(disks, layout, site, r, choice, newId, f).0;
            && IdsUnique(disks')
            && (NamesUnique(disks') <==> NamesUnique(disks) && !Duplicates(disks, layout, site, r, choice, f))
  {
    var children := Children(layout, r.parentType, r.parentName);
    if children != [] {
      var d := NewDisk(site, children[choice % |children|], r, newId);
      FindInFacts(disks, site, children, r.name);
      FindIsView(disks, KeyOf(d));
      AppendDisk(disks, d);
    }
  }

  /** A volume, and a create whose look-up fails in passing: two volumes of one name. */
  lemma FailingLookupDuplicatesName()
    ensures var site, layout := Site("vc", "dc"), Layout({"ds"}, map[]);
            var disks := [Fcd(site, "ds", "vol", "id0", 1024)];
            var r := CreateRequest("vol", "Datastore", "ds", Some(GIB));
            var disks' := AfterCreate(disks, layout, site, r, 0, "id1", CreateFaults(true, false, false)).0;
            Unique(disks) && FreshId(disks, "id1") && !NamesUnique(disks')
  {
    var site, layout := Site("vc", "dc"), Layout({"ds"}, map[]);
    var disks := [Fcd(site, "ds", "vol", "id0", 1024)];
    var r := CreateRequest("vol", "Datastore", "ds", Some(GIB));
    assert disks[1..] == [];
    NamesStayUnique(disks, layout, site, r, 0, "id1", CreateFaults(true, false, false));
  }

  // ---------- finding the datacenter of a disk ----------

  datatype VCenterConfig = VCenterConfig(name: string, datacenters: seq<string>)

  function SitesOn(vc: string, datacenters: seq<string>): seq<Site> {
    if datacenters == [] then [] else [Site(vc, datacenters[0])] + SitesOn(vc, datacenters[1..])
  }

  /** The datacenters of the vCenters that can be connected to. */
  function Reached(config: seq<VCenterConfig>, f: DeleteFaults): seq<Site> {
    if config == [] then []
    else SitesAt(config[0], f) + Reached(config[1..], f)
  }

  function SitesAt(c: VCenterConfig, f: DeleteFaults): seq<Site> {
    if c.name in f.unreachable then [] else SitesOn(c.name, c.datacenters)
  }

  function Sites(config: seq<VCenterConfig>): seq<Site> {
    Reached(config, NO_DELETE_FAULTS)
  }

  predicate HasId(disks: seq<Fcd>, site: Site, id: string) {
    exists i | 0 <= i < |disks| :: disks[i].site == site && disks[i].id == id
  }

  /** The disk is found when its datacenter is asked: its datastore can be listed. */
  predicate Seen(disks: seq<Fcd>, site: Site, id: string, f: DeleteFaults) {
    exists i | 0 <= i < |disks| ::
      disks[i].site == site && disks[i].id == id && (site, disks[i].datastore) !in f.silent
  }

  const REFUSED: string := "connection refused"
  const UNLISTED: string := "datastores not listed"

  /** What a worker of the search learns about one datacenter. */
  function ItemFor(disks: seq<Fcd>, id: string, f: DeleteFaults, site: Site): Pool.Item {
    Pool.Item(site.vc, site.datacenter,
              if site in f.unlisted then Pool.Fault(UNLISTED)
              else if Seen(disks, site, id, f) then Pool.Hit(id)
              else Pool.Miss)
  }

  function DatacentersFor(disks: seq<Fcd>, id: string, f: DeleteFaults, sites: seq<Site>): seq<Pool.Datacenter> {
    if sites == [] then []
    else [Pool.Items([ItemFor(disks, id, f, sites[0])])] + DatacentersFor(disks, id, f, sites[1..])
  }

  function VCenterFor(disks: seq<Fcd>, id: string, f: DeleteFaults, c: VCenterConfig): Pool.VCenter {
    Pool.VCenter(if c.name in f.unreachable then [REFUSED, REFUSED, REFUSED] else [],
                 Pool.All(DatacentersFor(disks, id, f, SitesOn(c.name, c.datacenters))))
  }

  /** The inventory as the search sees it. */
  function WorldFor(disks: seq<Fcd>, id: string, f: DeleteFaults, config: seq<VCenterConfig>): seq<Pool.VCenter> {
    if config == [] then [] else [VCenterFor(disks, id, f, config[0])] + WorldFor(disks, id, f, config[1..])
  }

  function ItemsFor(disks: seq<Fcd>, id: string, f: DeleteFaults, sites: seq<Site>): seq<Pool.Item> {
    if sites == [] then [] else [ItemFor(disks, id, f, sites[0])] + ItemsFor(disks, id, f, sites[1..])
  }

  lemma {:induction false} ItemsForAppend(disks: seq<Fcd>, id: string, f: DeleteFaults, a: seq<Site>, b: seq<Site>)
    ensures ItemsFor(disks, id, f, a + b) == ItemsFor(disks, id, f, a) + ItemsFor(disks, id, f, b)
  {
    hide ItemFor;
    if a == [] {
      assert a + b == b;
    } else {
      assert (a + b)[1..] == a[1..] + b;
      ItemsForAppend(disks, id, f, a[1..], b);
    }
  }

  lemma {:induction false} DatacentersAreSites(disks: seq<Fcd>, id: string, f: DeleteFaults, sites: seq<Site>)
    ensures Pool.ItemsOfAll(DatacentersFor(disks, id, f, sites)) == ItemsFor(disks, id, f, sites)
    ensures Pool.DatacenterErrors(DatacentersFor(disks, id, f, sites)) == []
  {
    hide ItemFor;
    if sites != [] { DatacentersAreSites(disks, id, f, sites[1..]); }
  }

  /** Some vCenter of the configuration cannot be connected to. */
  predicate SomeUnreachable(config: seq<VCenterConfig>, f: DeleteFaults) {
    exists i | 0 <= i < |config| :: config[i].name in f.unreachable
  }

  lemma {:induction false} WorldIsSites(disks: seq<Fcd>, id: string, f: DeleteFaults, config: seq<VCenterConfig>)
    ensures Pool.AllItems(WorldFor(disks, id, f, config)) == ItemsFor(disks, id, f, Reached(config, f))
    ensures Pool.WalkErrors(WorldFor(disks, id, f, config)) != [] <==> SomeUnreachable(config, f)
  {
    hide ItemFor, Pool.ItemsOfAll, Pool.DatacenterErrors, DatacentersFor;
    if config != [] {
      var here := SitesOn(config[0].name, config[0].datacenters);
      WorldIsSites(disks, id, f, config[1..]);
      DatacentersAreSites(disks, id, f, here);
      ItemsForAppend(disks, id, f, SitesAt(config[0], f), Reached(config[1..], f));
      assert SomeUnreachable(config, f) <==> config[0].name in f.unreachable || SomeUnreachable(config[1..], f) by {
        if i :| 0 <= i < |config[1..]| && config[1..][i].name in f.unreachable {
          assert config[i + 1] == config[1..][i];
        }
        if i :| 0 < i < |config| && config[i].name in f.unreachable { assert config[1..][i - 1] == config[i]; }
      }
    }
  }

  /** Some datacenter that is asked has the disk and says so. */
  ghost predicate FoundAt(disks: seq<Fcd>, id: string, f: DeleteFaults, sites: seq<Site>) {
    exists site | site in sites :: site !in f.unlisted && Seen(disks, site, id, f)
  }

  lemma {:induction false} SiteOutcomes(disks: seq<Fcd>, id: string, f: DeleteFaults, sites: seq<Site>)
    ensures Pool.Faults(ItemsFor(disks, id, f, sites)) != [] <==> exists site | site in sites :: site in f.unlisted
    ensures forall h | h in Pool.Hits(ItemsFor(disks, id, f, sites)) :: HasId(disks, Site(h.vcServer, h.dataCenter), id)
    ensures Pool.Hits(ItemsFor(disks, id, f, sites)) != [] <==> FoundAt(disks, id, f, sites)
  {
    if sites != [] {
      SiteOutcomes(disks, id, f, sites[1..]);
      hide Seen, Pool.Hits, Pool.Faults, ItemsFor;
      OneSiteOutcome(disks, id, f, sites);
      assert forall site :: site in sites <==> site == sites[0] || site in sites[1..];
    }
  }

  lemma OneSiteOutcome(disks: seq<Fcd>, id: string, f: DeleteFaults, sites: seq<Site>)
    requires sites != []
    ensures var item := ItemFor(disks, id, f, sites[0]);
            var all, rest := ItemsFor(disks, id, f, sites), ItemsFor(disks, id, f, sites[1..]);
            && Pool.Hits(all) == Pool.HitOf(item) + Pool.Hits(rest)
            && Pool.Faults(all) == Pool.FaultOf(item) + Pool.Faults(rest)
            && (Pool.FaultOf(item) != [] <==> sites[0] in f.unlisted)
            && (Pool.HitOf(item) != [] <==> sites[0] !in f.unlisted && Seen(disks, sites[0], id, f))
            && (forall h | h in Pool.HitOf(item) :: HasId(disks, Site(h.vcServer, h.dataCenter), id))
  {
  }

  /** The search meets a failure that it reports. */
  ghost predicate Reports(config: seq<VCenterConfig>, f: DeleteFaults) {
    SomeUnreachable(config, f) || exists site | site in Reached(config, f) :: site in f.unlisted
  }

  /**
   Whatever the schedule of the search: it names a datacenter of the disk exactly when one that
   can be asked has it on a datastore that can be listed, and else fails exactly when some
   failure is reported.
   */
  lemma SearchFindsDisk(disks: seq<Fcd>, id: string, f: DeleteFaults, config: seq<VCenterConfig>, answer: Pool.Answer)
    requires Pool.Justified(WorldFor(disks, id, f, config), answer)
    ensures answer.Found? ==> HasId(disks, Site(answer.info.vcServer, answer.info.dataCenter), id)
    ensures answer.Found? <==> FoundAt(disks, id, f, Reached(config, f))
    ensures answer.Failed? <==> !FoundAt(disks, id, f, Reached(config, f)) && Reports(config, f)
  {
    WorldIsSites(disks, id, f, config);
    SiteOutcomes(disks, id, f, Reached(config, f));
    hide Pool.AllItems, Pool.Hits, Pool.Faults, Pool.WalkErrors, WorldFor, FoundAt, ItemsFor;
    if answer.Failed? { assert Pool.WorldErrors(WorldFor(disks, id, f, config)) != []; }
  }

  /** Every disk is in a configured datacenter. */
  ghost predicate Configured(disks: seq<Fcd>, config: seq<VCenterConfig>) {
    forall d | d in disks :: d.site in Sites(config)
  }

  // ---------- the meaning of DeleteVolume ----------

  ghost function AfterDelete(disks: seq<Fcd>, config: seq<VCenterConfig>, id: string, f: DeleteFaults)
    : (seq<Fcd>, Result<(), ApiError>)
  {
    if id == "" then (disks, Err(BadRequest))
    else if FoundAt(disks, id, f, Reached(config, f)) then
      (if f.remove then (disks, Err(DeleteFailed)) else (WithoutId(disks, id), Ok(())))
    else if Reports(config, f) then (disks, Err(SearchFailed))
    else (disks, Ok(()))
  }

  lemma {:induction false} NothingUnreachable(config: seq<VCenterConfig>, f: DeleteFaults)
    requires !SomeUnreachable(config, f)
    ensures Reached(config, f) == Sites(config)
  {
    if config != [] {
      assert config[0].name !in f.unreachable;
      forall i | 0 <= i < |config[1..]| ensures config[1..][i].name !in f.unreachable {
        assert config[1..][i] == config[i + 1];
      }
      NothingUnreachable(config[1..], f);
    }
  }

  /** The disk stays although its deletion succeeds: its datastore cannot be listed, or nobody looks there. */
  predicate Overlooked(d: Fcd, config: seq<VCenterConfig>, f: DeleteFaults) {
    d.site !in Sites(config) || (d.site, d.datastore) in f.silent
  }

  /**
   A failing delete changes nothing.  After one that succeeds the volume is gone exactly when it
   was not overlooked: a datastore that cannot be listed counts as one without the volume.
   */
  lemma DeleteExact(disks: seq<Fcd>, config: seq<VCenterConfig>, id: string, f: DeleteFaults)
    requires IdsUnique(disks)
    ensures var (disks', result) := AfterDelete(disks, config, id, f);
            && (result.Err? ==> disks' == disks)
            && (result.Ok? ==>
                  (FindId(disks', id).Some? <==> exists d | d in disks :: d.id == id && Overlooked(d, config, f)))
  {
    var (disks', result) := AfterDelete(disks, config, id, f);
    if result.Ok? {
      WithoutIdFacts(disks, id);
      FindIdFacts(disks, id);
      FindIdFacts(disks', id);
      hide WithoutId, FindId, Reached, AfterDelete, Sites, IdsUnique, NamesUnique;
      OkMeansLookedAt(disks, config, id, f);
    }
  }

  /** When a delete succeeds, it is the volumes not overlooked that were found. */
  lemma OkMeansLookedAt(disks: seq<Fcd>, config: seq<VCenterConfig>, id: string, f: DeleteFaults)
    requires IdsUnique(disks) && AfterDelete(disks, config, id, f).1.Ok?
    ensures var found := FoundAt(disks, id, f, Reached(config, f));
            && (forall d | d in disks && d.id == id :: Overlooked(d, config, f) <==> !found)
            && AfterDelete(disks, config, id, f).0 == if found then WithoutId(disks, id) else disks
  {
    hide WithoutId, Reached, NamesUnique;
    if FoundAt(disks, id, f, Reached(config, f)) {
      var site :| site in Reached(config, f) && site !in f.unlisted && Seen(disks, site, id, f);
      var i :| 0 <= i < |disks| && disks[i].site == site && disks[i].id == id &&
               (site, disks[i].datastore) !in f.silent;
      ReachedIsSite(config, f, site);
      forall d | d in disks && d.id == id ensures !Overlooked(d, config, f) { OneOfId(disks, d, disks[i]); }
    } else {
      NothingUnreachable(config, f);
      forall d | d in disks && d.id == id ensures Overlooked(d, config, f) {
        var i :| 0 <= i < |disks| && disks[i] == d;
        assert (d.site, d.datastore) !in f.silent ==> Seen(disks, d.site, id, f);
      }
    }
  }

  lemma {:induction false} ReachedIsSite(config: seq<VCenterConfig>, f: DeleteFaults, site: Site)
    requires site in Reached(config, f)
    ensures site in Sites(config)
  {
    hide SitesOn;
    if site !in SitesAt(config[0], f) { ReachedIsSite(config[1..], f, site); }
  }

  /** Without faults deletion takes exactly the volume of that ID out of the view, and may be repeated. */
  lemma DeleteRefinesMap(disks: seq<Fcd>, config: seq<VCenterConfig>, id: string)
    requires Unique(disks) && Configured(disks, config) && id != ""
    ensures var (disks', result) := AfterDelete(disks, config, id, NO_DELETE_FAULTS);
            && result.Ok? && Unique(disks') && AfterDelete(disks', config, id, NO_DELETE_FAULTS) == (disks', result)
            && (forall key :: key in View(disks') <==> key in View(disks) && View(disks)[key].0 != id)
            && (forall key | key in View(disks') :: View(disks')[key] == View(disks)[key])
  {
    FaultFreeDelete(disks, config, id);
    WithoutIdFacts(disks, id);
    FaultFreeDelete(WithoutId(disks, id), config, id);
    hide AfterDelete, Unique, Sites;
    forall key
      ensures key in View(WithoutId(disks, id)) <==> key in View(disks) && View(disks)[key].0 != id
      ensures key in View(WithoutId(disks, id)) ==> View(WithoutId(disks, id))[key] == View(disks)[key]
    {
      ViewWithout(disks, id, key);
    }
  }

  lemma FaultFreeDelete(disks: seq<Fcd>, config: seq<VCenterConfig>, id: string)
    requires Configured(disks, config) && id != ""
    ensures AfterDelete(disks, config, id, NO_DELETE_FAULTS) == (WithoutId(disks, id), Ok(()))
  {
    hide Reached, WithoutId;
    assert !Reports(config, NO_DELETE_FAULTS);
    if !FoundAt(disks, id, NO_DELETE_FAULTS, Sites(config)) {
      forall d | d in disks ensures d.id != id {
        var i :| 0 <= i < |disks| && disks[i] == d;
        assert d.id == id ==> Seen(disks, d.site, id, NO_DELETE_FAULTS);
      }
      WithoutNone(disks, id);
    }
  }

  /** One datastore that cannot be listed, and a delete reports success with the volume still there. */
  lemma SilentFailureKeepsVolume()
    ensures var site := Site("vc", "dc");
            var disks, config := [Fcd(site, "ds", "vol", "id0", 1024)], [VCenterConfig("vc", ["dc"])];
            var f := NO_DELETE_FAULTS.(silent := {(site, "ds")});
            && Unique(disks) && Configured(disks, config)
            && AfterDelete(disks, config, "id0", f) == (disks, Ok(()))
  {
    var site := Site("vc", "dc");
    var disks, config := [Fcd(site, "ds", "vol", "id0", 1024)], [VCenterConfig("vc", ["dc"])];
    assert disks[1..] == [] && config[1..] == [] && config[0].datacenters[1..] == [];
    assert SitesOn("vc", ["dc"]) == [site];
    assert Sites(config) == [site];
  }

  lemma {:induction false} ViewWithout(disks: seq<Fcd>, id: string, key: Key)
    requires NamesUnique(disks)
    ensures key in View(WithoutId(disks, id)) <==> key in View(disks) && View(disks)[key].0 != id
    ensures key in View(WithoutId(disks, id)) ==> View(WithoutId(disks, id))[key] == View(disks)[key]
  {
    if disks != [] {
      var rest := WithoutId(disks[1..], id);
      assert ([disks[0]] + rest)[1..] == rest;
      ViewWithout(disks[1..], id, key);
      if KeyOf(disks[0]) == key {
        FindIsView(disks[1..], key);
        var r := Find(disks[1..], key);
      }
    }
  }

  // ---------- every run of calls ----------

  datatype Call =
    | Create(layout: Layout, site: Site, request: CreateRequest, choice: nat, newId: string, createFaults: CreateFaults)
    | Delete(config: seq<VCenterConfig>, id: string, faults: DeleteFaults)

  ghost function AfterCall(disks: seq<Fcd>, call: Call): seq<Fcd> {
    match call
    case Create(layout, site, r, choice, newId, f) => AfterCreate(disks, layout, site, r, choice, newId, f).0
    case Delete(config, id, f) => AfterDelete(disks, config, id, f).0
  }

  ghost predicate CallsFresh(disks: seq<Fcd>, calls: seq<Call>)
    decreases |calls|
  {
    calls == [] ||
    ((calls[0].Create? ==> FreshId(disks, calls[0].newId)) && CallsFresh(AfterCall(disks, calls[0]), calls[1..]))
  }

  ghost function AfterCalls(disks: seq<Fcd>, calls: seq<Call>): seq<Fcd>
    decreases |calls|
  {
    if calls == [] then disks else AfterCalls(AfterCall(disks, calls[0]), calls[1..])
  }

  /** Over every run, whatever fails, IDs stay unique. */
  lemma {:induction false} RunsKeepIdsUnique(disks: seq<Fcd>, calls: seq<Call>)
    requires IdsUnique(disks) && CallsFresh(disks, calls)
    ensures IdsUnique(AfterCalls(disks, calls))
    decreases |calls|
  {
    hide IdsUnique;
    if calls != [] {
      CallKeepsUnique(disks, calls[0]);
      RunsKeepIdsUnique(AfterCall(disks, calls[0]), calls[1..]);
    }
  }

  /** Names too, as long as no create's look-up fails; deletes may fail in any way. */
  lemma {:induction false} RunsStayUnique(disks: seq<Fcd>, calls: seq<Call>)
    requires Unique(disks) && CallsFresh(disks, calls)
    requires forall c | c in calls && c.Create? :: !c.createFaults.lookup
    ensures Unique(AfterCalls(disks, calls))
    decreases |calls|
  {
    hide IdsUnique, NamesUnique;
    if calls != [] {
      assert calls[0] in calls;
      CallKeepsUnique(disks, calls[0]);
      RunsStayUnique(AfterCall(disks, calls[0]), calls[1..]);
    }
  }

  lemma CallKeepsUnique(disks: seq<Fcd>, call: Call)
    requires IdsUnique(disks) && (call.Create? ==> FreshId(disks, call.newId))
    ensures IdsUnique(AfterCall(disks, call))
    ensures NamesUnique(disks) && (call.Create? ==> !call.createFaults.lookup) ==> NamesUnique(AfterCall(disks, call))
  {
    hide NamesUnique, IdsUnique, AfterCreate, FoundAt, Reports;
    match call
    case Create(layout, site, r, choice, newId, f) => NamesStayUnique(disks, layout, site, r, choice, newId, f);
    case Delete(config, id, f) => WithoutIdFacts(disks, id);
  }

  // ---------- the methods ----------

  class Controller {
    const config: seq<VCenterConfig>
    var disks: seq<Fcd>

    constructor (config: seq<VCenterConfig>, disks: seq<Fcd>)
      ensures this.config == config && this.disks == disks
    {
      this.config, this.disks := config, disks;
    }

    ghost predicate Valid()
      reads this
    {
      IdsUnique(disks) && Configured(disks, config)
    }

    /** Searches each of the datastores for a disk of that name, in order. */
    method GetFirstClassDisk(site: Site, datastores: seq<string>, name: string) returns (found: Option<Fcd>)
      ensures found == FindIn(disks, site, datastores, name)
    {
      for i := 0 to |datastores|
        invariant FindIn(disks, site, datastores[i..], name) == FindIn(disks, site, datastores, name)
      {
        var key := Key(site, datastores[i], name);
        for j := 0 to |disks|
          invariant Find(disks[j..], key) == Find(disks, key)
        {
          if disks[j].site == site && disks[j].datastore == datastores[i] && disks[j].name == name {
            return Some(disks[j]);
          }
        }
      }
      return None;
    }

    method CreateVolume(layout: Layout, site: Option<Site>, r: CreateRequest, choice: nat, newId: string,
                        f: CreateFaults)
      returns (result: Result<Volume, ApiError>)
      requires Valid() && FreshId(disks, newId)
      requires site.Some? ==> site.value in Sites(config)
      modifies this`disks
      ensures Valid()
      ensures site.None? ==> disks == old(disks) && result == Err(if IsComplete(r) then NoSite else BadRequest)
      ensures site.Some? ==> (disks, result) == AfterCreate(old(disks), layout, site.value, r, choice, newId, f)
      ensures site.Some? ==>
                (NamesUnique(disks) <==>
                 NamesUnique(old(disks)) && !Duplicates(old(disks), layout, site.value, r, choice, f))
    {
      if r.name == "" || r.parentType == "" || r.parentName == "" {
        assert !IsComplete(r);
        return Err(BadRequest);
      }
      var volSizeMB := SizeMB(r.requiredBytes);
      if site.None? {
        return Err(NoSite);
      }
      NamesStayUnique(disks, layout, site.value, r, choice, newId, f);
      var children := Children(layout, r.parentType, r.parentName);
      var known := GetFirstClassDisk(site.value, children, r.name);
      if !f.lookup && known.Some? {
        if known.value.capacityMB != volSizeMB {
          return Err(AlreadyExists);
        }
        return Ok(Volume(known.value.id, ToInt64(known.value.capacityMB * MIB)));
      }
      if f.create || children == [] {
        return Err(CreateFailed);
      }
      disks := disks + [Fcd(site.value, children[choice % |children|], r.name, newId, volSizeMB)];
      var made := GetFirstClassDisk(site.value, children, r.name);
      if f.relookup || made.None? {
        return Err(LostAfterCreate);
      }
      return Ok(Volume(made.value.id, ToInt64(made.value.capacityMB * MIB)));
    }

    /** The storage service deletes a disk of one datacenter by its ID. */
    method RemoveDisk(site: Site, id: string)
      modifies this`disks
      ensures disks == WithoutAt(old(disks), site, id)
    {
      var left := [];
      for i := 0 to |disks|
        invariant disks == old(disks)
        invariant left + WithoutAt(disks[i..], site, id) == WithoutAt(disks, site, id)
      {
        if disks[i].site != site || disks[i].id != id {
          left := left + [disks[i]];
        }
      }
      disks := left;
    }

    /** Runs the parallel search for the disk's datacenter, under any schedule. */
    method DeleteVolume(id: string, f: DeleteFaults) returns (result: Result<(), ApiError>)
      requires Valid()
      modifies this`disks
      ensures Valid() && (disks, result) == AfterDelete(old(disks), config, id, f)
    {
      if id == "" {
        return Err(BadRequest);
      }
      var world := WorldFor(disks, id, f, config);
      WithoutIdFacts(disks, id);
      hide WorldFor, Pool.Justified, Unique, WithoutId, FoundAt, Reports, Reached;
      var answer := PoolProgress.Search(id, world);
      SearchFindsDisk(disks, id, f, config, answer);
      match answer
      case NotFound =>
        return Ok(());
      case Failed(_) =>
        return Err(SearchFailed);
      case Found(info) =>
        if f.remove {
          return Err(DeleteFailed);
        }
        OneSite(disks, Site(info.vcServer, info.dataCenter), id);
        RemoveDisk(Site(info.vcServer, info.dataCenter), id);
        return Ok(());
    }
  }

  function WithoutAt(disks: seq<Fcd>, site: Site, id: string): seq<Fcd> {
    if disks == [] then []
    else if disks[0].site == site && disks[0].id == id then WithoutAt(disks[1..], site, id)
    else [disks[0]] + WithoutAt(disks[1..], site, id)
  }

  lemma {:induction false} SameWithout(disks: seq<Fcd>, site: Site, id: string)
    requires forall d | d in disks && d.id == id :: d.site == site
    ensures WithoutAt(disks, site, id) == WithoutId(disks, id)
  {
    if disks != [] { SameWithout(disks[1..], site, id); }
  }

  lemma {:induction false} OneOfId(disks: seq<Fcd>, d: Fcd, e: Fcd)
    requires IdsUnique(disks) && d in disks && e in disks && d.id == e.id
    ensures d == e
  {
    if d != disks[0] && e != disks[0] { OneOfId(disks[1..], d, e); }
  }

  /** IDs being unique, deleting at the site found is deleting everywhere. */
  lemma OneSite(disks: seq<Fcd>, site: Site, id: string)
    requires IdsUnique(disks) && HasId(disks, site, id)
    ensures WithoutAt(disks, site, id) == WithoutId(disks, id)
  {
    var i :| 0 <= i < |disks| && disks[i].site == site && disks[i].id == id;
    forall d | d in disks && d.id == id ensures d.site == site {
      OneOfId(disks, d, disks[i]);
    }
    SameWithout(disks, site, id);
  }

  lemma {:induction false} WithoutNone(disks: seq<Fcd>, id: string)
    requires forall d | d in disks :: d.id != id
    ensures WithoutId(disks, id) == disks
  {
    if disks != [] { WithoutNone(disks[1..], id); }
  }
}
