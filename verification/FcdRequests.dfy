/**
 CreateVolume and DeleteVolume said in terms of the request, the disks, the parents and the
 configuration themselves, for every combination of failing calls.
 */
module FcdRequests {
  import opened Wrappers
  import opened FcdLifecycle

  // ---------- CreateVolume ----------

  /** The datastore is the parent asked for, or is in it. */
  predicate ParentHas(layout: Layout, r: CreateRequest, datastore: string) {
    if r.parentType == "Datastore" then datastore == r.parentName && datastore in layout.datastores
    else r.parentName in layout.clusters && datastore in layout.clusters[r.parentName]
  }

  /** The disk has the requested name and is on a datastore of the requested parent. */
  predicate HasName(d: Fcd, layout: Layout, site: Site, r: CreateRequest) {
    d.site == site && d.name == r.name && ParentHas(layout, r, d.datastore)
  }

  /** A whole number of GiB, as few as hold what was asked for, or ten. */
  predicate FitsTightly(capacityMB: int, requiredBytes: Option<int>) {
    && capacityMB % 1024 == 0
    && if requiredBytes.Some? && requiredBytes.value != 0
       then requiredBytes.value <= capacityMB * 1048576 < requiredBytes.value + 1073741824
       else capacityMB == 10240
  }

  lemma OneSizeFits(capacityMB: int, requiredBytes: Option<int>)
    ensures FitsTightly(capacityMB, requiredBytes) <==> capacityMB == SizeMB(requiredBytes)
  {
    var n := if requiredBytes.Some? && requiredBytes.value != 0 then requiredBytes.value else 10737418240;
    var gib := (n + 1073741823) / 1073741824;
    assert SizeMB(requiredBytes) == gib * 1024;
    if capacityMB % 1024 == 0 {
      var k := capacityMB / 1024;
      assert capacityMB == k * 1024 && capacityMB * 1048576 == k * 1073741824;
    }
  }

  lemma ChildrenAreParents(layout: Layout, r: CreateRequest, datastore: string)
    ensures datastore in Children(layout, r.parentType, r.parentName) <==> ParentHas(layout, r, datastore)
  {
  }

  lemma {:induction false} FoundHasName(disks: seq<Fcd>, layout: Layout, site: Site, r: CreateRequest)
    ensures var found := FindIn(disks, site, Children(layout, r.parentType, r.parentName), r.name);
            && (found.Some? ==> found.value in disks && HasName(found.value, layout, site, r))
            && (found.None? ==> forall d | d in disks :: !HasName(d, layout, site, r))
  {
    var children := Children(layout, r.parentType, r.parentName);
    FindInFacts(disks, site, children, r.name);
    forall ds ensures ds in children <==> ParentHas(layout, r, ds) { ChildrenAreParents(layout, r, ds); }
    hide FindIn, Children, ParentHas;
    if FindIn(disks, site, children, r.name).None? {
      forall d | d in disks ensures !HasName(d, layout, site, r) {
        if HasName(d, layout, site, r) { FindIsView(disks, Key(site, d.datastore, r.name)); }
      }
    }
  }

  /** Without a name, a parent type or a parent nothing is looked at. */
  predicate LacksSomething(r: CreateRequest) {
    r.name == "" || r.parentType == "" || r.parentName == ""
  }

  /** The first look-up succeeds and finds a disk of the name. */
  ghost predicate IsKnown(disks: seq<Fcd>, layout: Layout, site: Site, r: CreateRequest, f: CreateFaults) {
    !f.lookup && exists d | d in disks :: HasName(d, layout, site, r)
  }

  /** The outcome for a name that is known: the disk's size decides. */
  ghost predicate AnswersFor(d: Fcd, r: CreateRequest, result: Result<Volume, ApiError>) {
    result == if FitsTightly(d.capacityMB, r.requiredBytes) then Ok(Volume(d.id, ToInt64(d.capacityMB * 1048576)))
              else Err(AlreadyExists)
  }

  /**
   What a create does, whichever of its calls fail.  A known name is answered with a disk of that
   name on the parent, or refused for its size; an unknown one fails without a parent or when its
   creation does, and else adds exactly one disk, on the parent, with the name, the ID and the size
   asked for, and is answered with it unless it cannot be looked up again.
   */
  lemma CreateExact(disks: seq<Fcd>, layout: Layout, site: Site, r: CreateRequest, choice: nat, newId: string,
                    f: CreateFaults)
    ensures var (disks', result) := AfterCreate(disks, layout, site, r, choice, newId, f);
            && (LacksSomething(r) ==> disks' == disks && result == Err(BadRequest))
            && (!LacksSomething(r) && IsKnown(disks, layout, site, r, f) ==>
                  disks' == disks && exists d | d in disks && HasName(d, layout, site, r) :: AnswersFor(d, r, result))
            && (!LacksSomething(r) && !IsKnown(disks, layout, site, r, f) ==>
                  if f.create || forall ds :: !ParentHas(layout, r, ds)
                  then disks' == disks && result == Err(CreateFailed)
                  else Adds(disks, layout, site, r, newId, f, disks', result))
  {
    if !LacksSomething(r) {
      var children := Children(layout, r.parentType, r.parentName);
      FoundHasName(disks, layout, site, r);
      forall ds ensures ds in children <==> ParentHas(layout, r, ds) { ChildrenAreParents(layout, r, ds); }
      var known := FindIn(disks, site, children, r.name);
      if IsKnown(disks, layout, site, r, f) {
        OneSizeFits(known.value.capacityMB, r.requiredBytes);
      } else if !f.create && children != [] {
        assert ParentHas(layout, r, children[choice % |children|]);
        AddsOne(disks, layout, site, r, choice, newId, f);
      } else if children == [] {
        assert forall ds :: !ParentHas(layout, r, ds);
      }
    }
  }

  /** One disk is added as asked for; the answer is about it, or about another one of that name. */
  ghost predicate Adds(disks: seq<Fcd>, layout: Layout, site: Site, r: CreateRequest, newId: string, f: CreateFaults,
                       disks': seq<Fcd>, result: Result<Volume, ApiError>) {
    exists ds, capacityMB | ParentHas(layout, r, ds) && FitsTightly(capacityMB, r.requiredBytes) ::
      && disks' == disks + [Fcd(site, ds, r.name, newId, capacityMB)]
      && (f.relookup ==> result == Err(LostAfterCreate))
      && (!f.relookup ==> result.Ok? && exists d | d in disks' && HasName(d, layout, site, r) ::
            result.value == Volume(d.id, ToInt64(d.capacityMB * 1048576)))
  }

  lemma AddsOne(disks: seq<Fcd>, layout: Layout, site: Site, r: CreateRequest, choice: nat, newId: string,
                f: CreateFaults)
    requires !LacksSomething(r) && !IsKnown(disks, layout, site, r, f) && !f.create
    requires Children(layout, r.parentType, r.parentName) != []
    ensures var (disks', result) := AfterCreate(disks, layout, site, r, choice, newId, f);
            Adds(disks, layout, site, r, newId, f, disks', result)
  {
    var children := Children(layout, r.parentType, r.parentName);
    var ds, size := children[choice % |children|], SizeMB(r.requiredBytes);
    var disk := Fcd(site, ds, r.name, newId, size);
    var disks' := disks + [disk];
    ChildrenAreParents(layout, r, ds);
    OneSizeFits(size, r.requiredBytes);
    FoundHasName(disks, layout, site, r);
    FoundHasName(disks', layout, site, r);
    hide FindIn, Children, SizeMB, FitsTightly, ToInt64;
    assert disk in disks' && HasName(disk, layout, site, r);
  }

  /** Without faults a new name on an existing parent gets a volume of the size asked for, and says so. */
  lemma CreatedAsAsked(disks: seq<Fcd>, layout: Layout, site: Site, r: CreateRequest, choice: nat, newId: string)
    requires !LacksSomething(r) && (forall d | d in disks :: !HasName(d, layout, site, r))
    requires exists ds :: ParentHas(layout, r, ds)
    requires r.requiredBytes.Some? ==> -9223372036854775808 <= r.requiredBytes.value <= 9223372035781033984
    ensures var (disks', result) := AfterCreate(disks, layout, site, r, choice, newId, NO_FAULTS);
            && result.Ok? && result.value.id == newId
            && (exists d | HasName(d, layout, site, r) && d.id == newId :: disks' == disks + [d])
            && (r.requiredBytes.Some? && r.requiredBytes.value != 0 ==>
                  r.requiredBytes.value <= result.value.capacityBytes < r.requiredBytes.value + 1073741824 &&
                  result.value.capacityBytes % 1073741824 == 0)
            && (r.requiredBytes == None || r.requiredBytes == Some(0) ==> result.value.capacityBytes == 10737418240)
  {
    CreateExact(disks, layout, site, r, choice, newId, NO_FAULTS);
    var (disks', result) := AfterCreate(disks, layout, site, r, choice, newId, NO_FAULTS);
    hide AfterCreate, ParentHas, ToInt64, FitsTightly;
    var ds, capacityMB :| ParentHas(layout, r, ds) && FitsTightly(capacityMB, r.requiredBytes) &&
      disks' == disks + [Fcd(site, ds, r.name, newId, capacityMB)] &&
      result.Ok? && exists d | d in disks' && HasName(d, layout, site, r) ::
        result.value == Volume(d.id, ToInt64(d.capacityMB * 1048576));
    var made := Fcd(site, ds, r.name, newId, capacityMB);
    assert HasName(made, layout, site, r) && made.id == newId;
    ReportedAsAsked(capacityMB, r.requiredBytes);
  }

  lemma ReportedAsAsked(capacityMB: int, requiredBytes: Option<int>)
    requires FitsTightly(capacityMB, requiredBytes)
    requires requiredBytes.Some? ==> -9223372036854775808 <= requiredBytes.value <= 9223372035781033984
    ensures var bytes := ToInt64(capacityMB * 1048576);
            && bytes % 1073741824 == 0
            && (requiredBytes.Some? && requiredBytes.value != 0 ==>
                  requiredBytes.value <= bytes < requiredBytes.value + 1073741824)
            && (requiredBytes == None || requiredBytes == Some(0) ==> bytes == 10737418240)
  {
    OneSizeFits(capacityMB, requiredBytes);
    hide SizeMB, ToInt64;
    SizeIsTight(requiredBytes);
  }

  // ---------- DeleteVolume ----------

  /** The datacenter is one of those configured for a vCenter that can be connected to. */
  ghost predicate IsAsked(config: seq<VCenterConfig>, f: DeleteFaults, site: Site) {
    exists c | c in config :: c.name == site.vc && c.name !in f.unreachable && site.datacenter in c.datacenters
  }

  lemma {:induction false} OnSites(vc: string, datacenters: seq<string>, site: Site)
    ensures site in SitesOn(vc, datacenters) <==> site.vc == vc && site.datacenter in datacenters
  {
    if datacenters != [] { OnSites(vc, datacenters[1..], site); }
  }

  lemma {:induction false} ReachedIsAsked(config: seq<VCenterConfig>, f: DeleteFaults, site: Site)
    ensures site in Reached(config, f) <==> IsAsked(config, f, site)
  {
    if config != [] {
      ReachedIsAsked(config[1..], f, site);
      OnSites(config[0].name, config[0].datacenters, site);
      hide SitesOn;
      assert forall c :: c in config <==> c == config[0] || c in config[1..];
    }
  }

  /** The volume is where a delete looks, and every look-up on the way to it answers. */
  ghost predicate IsVisible(d: Fcd, config: seq<VCenterConfig>, f: DeleteFaults) {
    IsAsked(config, f, d.site) && d.site !in f.unlisted && (d.site, d.datastore) !in f.silent
  }

  /** Some failure of the search is noticed: a refused connection, or datastores that are not listed. */
  ghost predicate IsNoticed(config: seq<VCenterConfig>, f: DeleteFaults) {
    || (exists c | c in config :: c.name in f.unreachable)
    || (exists site | site in f.unlisted :: IsAsked(config, f, site))
  }

  lemma FoundMeansVisible(disks: seq<Fcd>, config: seq<VCenterConfig>, id: string, f: DeleteFaults)
    ensures FoundAt(disks, id, f, Reached(config, f)) <==>
            exists d | d in disks :: d.id == id && IsVisible(d, config, f)
  {
    hide Reached, IsAsked;
    if site :| site in Reached(config, f) && site !in f.unlisted && Seen(disks, site, id, f) {
      var i :| 0 <= i < |disks| && disks[i].site == site && disks[i].id == id &&
               (site, disks[i].datastore) !in f.silent;
      ReachedIsAsked(config, f, site);
      assert IsVisible(disks[i], config, f);
    }
    if d :| d in disks && d.id == id && IsVisible(d, config, f) {
      var i :| 0 <= i < |disks| && disks[i] == d;
      ReachedIsAsked(config, f, d.site);
      assert Seen(disks, d.site, id, f);
    }
  }

  lemma ReportsMeansNoticed(config: seq<VCenterConfig>, f: DeleteFaults)
    ensures Reports(config, f) <==> IsNoticed(config, f)
  {
    hide Reached, IsAsked;
    forall site ensures site in Reached(config, f) <==> IsAsked(config, f, site) { ReachedIsAsked(config, f, site); }
    if i :| 0 <= i < |config| && config[i].name in f.unreachable { assert config[i] in config; }
    if c :| c in config && c.name in f.unreachable {
      var i :| 0 <= i < |config| && config[i] == c;
      assert config[i].name in f.unreachable;
    }
  }

  /**
   What a delete does, whichever of its look-ups fail: it takes exactly the disks of that ID out if
   one of them is visible and its removal works, changes nothing otherwise, and says which.
   */
  lemma DeleteExactly(disks: seq<Fcd>, config: seq<VCenterConfig>, id: string, f: DeleteFaults)
    ensures var (disks', result) := AfterDelete(disks, config, id, f);
            var visible := exists d | d in disks :: d.id == id && IsVisible(d, config, f);
            && result == (if id == "" then Err(BadRequest)
                          else if visible then (if f.remove then Err(DeleteFailed) else Ok(()))
                          else if IsNoticed(config, f) then Err(SearchFailed)
                          else Ok(()))
            && (if id != "" && visible && !f.remove then forall d :: d in disks' <==> d in disks && d.id != id
                else disks' == disks)
  {
    FoundMeansVisible(disks, config, id, f);
    ReportsMeansNoticed(config, f);
    WithoutIdFacts(disks, id);
    hide FoundAt, Reports, Reached, WithoutId, IsVisible, IsNoticed;
  }
}
