/**
 The search for a zone among clusters: what a worker learns about one cluster from its tags, and
 what the answer of the whole parallel search therefore says about zones and regions.
 */
module ZoneSearch {
  import opened Strings
  import opened Wrappers
  import Pool = SearchPool
  import PoolProgress = SearchPoolProgress
  import Tags = ZoneTags

  /** A cluster as its worker meets it; objects is None when its ancestors cannot be retrieved. */
  datatype Cluster = Cluster(vc: string, dc: string, name: string, connected: bool, objects: Option<seq<Tags.Entity>>)

  /** The label categories, and the zone and region looked for. */
  datatype Wanted = Wanted(zoneLabel: string, regionLabel: string, zone: string, region: string)

  /** All four have to be given. */
  predicate IsGiven(w: Wanted) {
    w.zoneLabel != "" && w.regionLabel != "" && w.zone != "" && w.region != ""
  }

  function LabelsOf(c: Cluster, w: Wanted): Result<map<string, string>, Tags.ZoneError> {
    if !c.connected then Err(Tags.NotConnected)
    else if c.objects.None? then Err(Tags.Unreachable)
    else Tags.Answer(Tags.LeafToRoot(c.objects.value), w.zoneLabel, w.regionLabel)
  }

  /** The cluster's zone and region resolve, and are the ones looked for, whatever the case. */
  predicate Matches(c: Cluster, w: Wanted) {
    && LabelsOf(c, w).Ok?
    && ToLower(Tags.ValueAt(LabelsOf(c, w).value, Tags.ZONE)) == ToLower(w.zone)
    && ToLower(Tags.ValueAt(LabelsOf(c, w).value, Tags.REGION)) == ToLower(w.region)
  }

  /** A failing look-up is dropped, a cluster of another zone or region is a miss. */
  function OutcomeOf(c: Cluster, w: Wanted): Pool.Outcome {
    if LabelsOf(c, w).Err? then Pool.Dropped
    else if Matches(c, w) then Pool.Hit(c.name)
    else Pool.Miss
  }

  method CheckCluster(c: Cluster, w: Wanted) returns (outcome: Pool.Outcome)
    ensures outcome.Hit? <==> Matches(c, w)
    ensures outcome == OutcomeOf(c, w)
  {
    var labels := Tags.LookupZoneByMoref(c.connected, c.objects, w.zoneLabel, w.regionLabel);
    if labels.Err? {
      return Pool.Dropped;
    }
    if ToLower(Tags.ValueAt(labels.value, Tags.ZONE)) != ToLower(w.zone) ||
       ToLower(Tags.ValueAt(labels.value, Tags.REGION)) != ToLower(w.region) {
      return Pool.Miss;
    }
    return Pool.Hit(c.name);
  }

  function ItemOf(c: Cluster, w: Wanted): Pool.Item {
    Pool.Item(c.vc, c.dc, OutcomeOf(c, w))
  }

  function ItemsOf(clusters: seq<Cluster>, w: Wanted): seq<Pool.Item> {
    if clusters == [] then [] else [ItemOf(clusters[0], w)] + ItemsOf(clusters[1..], w)
  }

  lemma {:induction false} HitsMatch(clusters: seq<Cluster>, w: Wanted)
    ensures Pool.Faults(ItemsOf(clusters, w)) == []
    ensures forall info | info in Pool.Hits(ItemsOf(clusters, w)) ::
              exists c | c in clusters :: Matches(c, w) && info == Pool.DiscoveryInfo(c.vc, c.dc, c.name)
    ensures Pool.Hits(ItemsOf(clusters, w)) == [] ==> forall c | c in clusters :: !Matches(c, w)
  {
    hide LabelsOf, ToLower;
    if clusters != [] {
      HitsMatch(clusters[1..], w);
      var item, rest := ItemOf(clusters[0], w), ItemsOf(clusters[1..], w);
      assert Pool.Hits(ItemsOf(clusters, w)) == Pool.HitOf(item) + Pool.Hits(rest);
      assert Pool.Faults(ItemsOf(clusters, w)) == Pool.FaultOf(item) + Pool.Faults(rest);
      hide Pool.Hits, Pool.Faults, ItemsOf, Matches;
      assert clusters[0] in clusters && forall c | c in clusters[1..] :: c in clusters;
    }
  }

  /**
   clusters are all those that the walk over the vCenters and datacenters would list.  Under every
   schedule the search names the datacenter of a cluster in the zone and region looked for, if
   there is one; and it reports that there is none only if every vCenter and datacenter could be
   listed and no cluster's tags resolve to both.
   */
  lemma EveryScheduleFindsZone(world: seq<Pool.VCenter>, clusters: seq<Cluster>, w: Wanted, schedule: seq<Pool.Actor>)
    requires Pool.AllItems(world) == ItemsOf(clusters, w)
    requires Pool.Follows(Pool.Init(world), schedule) && Pool.Joined(Pool.Run(Pool.Init(world), schedule))
    ensures var s := Pool.Run(Pool.Init(world), schedule);
            && (s.found ==> s.info.Some?)
            && (Pool.AnswerOf(s).Found? <==> exists c | c in clusters :: Matches(c, w))
            && (Pool.AnswerOf(s).Found? ==>
                  exists c | c in clusters :: Matches(c, w) && s.info.value == Pool.DiscoveryInfo(c.vc, c.dc, c.name))
            && (Pool.AnswerOf(s).NotFound? ==> forall vc | vc in world :: PoolProgress.FullyWalked(vc))
  {
    PoolProgress.EveryScheduleAnswers(world, schedule);
    var s := Pool.Run(Pool.Init(world), schedule);
    HitsMatch(clusters, w);
    hide Pool.Hits, Pool.Faults, Pool.AllItems, Matches, ItemsOf, Pool.Follows, Pool.Run;
    if Pool.AnswerOf(s).NotFound? {
      PoolProgress.NotFoundIsComplete(world, schedule);
    }
  }

  /** The last tag of the label is the one looked for, in any case. */
  ghost predicate LastNamed(seen: seq<Tags.Reading>, category: string, wanted: string) {
    exists i :: Tags.LastAt(seen, i, category) && Spells(seen[i].name, wanted)
  }

  lemma LastIs(seen: seq<Tags.Reading>, category: string, value: string, wanted: string)
    requires exists i :: Tags.LastAt(seen, i, category) && value == seen[i].name
    ensures ToLower(value) == ToLower(wanted) <==> LastNamed(seen, category, wanted)
  {
    hide ToLower;
    var i :| Tags.LastAt(seen, i, category) && value == seen[i].name;
    FoldsExactly(value, wanted);
    if j :| Tags.LastAt(seen, j, category) && Spells(seen[j].name, wanted) {
      assert i == j;
    }
  }

  /**
   A cluster is found exactly when it can be asked, some beginning of its chain's readings without a
   fault holds both labels, and the last zone and region tags up to the moment both are known are
   those looked for.
   */
  lemma FoundMeansTagged(c: Cluster, w: Wanted)
    requires IsGiven(w) && w.zoneLabel != w.regionLabel
    ensures Matches(c, w) <==>
            && c.connected && c.objects.Some?
            && var tags := Tags.LeafToRoot(c.objects.value);
               var seen := tags[..Tags.Needed(tags, 0, w.zoneLabel, w.regionLabel)];
               && Tags.HoldsBoth(tags, w.zoneLabel, w.regionLabel)
               && LastNamed(seen, w.zoneLabel, w.zone) && LastNamed(seen, w.regionLabel, w.region)
  {
    if c.connected && c.objects.Some? {
      var tags := Tags.LeafToRoot(c.objects.value);
      hide Tags.LeafToRoot, Tags.Needed, ToLower, Tags.LastAt, LastNamed, Tags.Answer;
      Tags.SucceedsExactly(tags, w.zoneLabel, w.regionLabel);
      if Tags.Answer(tags, w.zoneLabel, w.regionLabel).Ok? {
        var m := LabelsOf(c, w).value;
        Tags.LastNeededTagWins(tags, w.zoneLabel, w.regionLabel);
        var seen := tags[..Tags.Needed(tags, 0, w.zoneLabel, w.regionLabel)];
        LastIs(seen, w.zoneLabel, m[Tags.ZONE], w.zone);
        LastIs(seen, w.regionLabel, m[Tags.REGION], w.region);
      }
    }
  }

  /** Where every tag of its chain can be read, the names found are those of the two deciding tags. */
  lemma FoundByChain(c: Cluster, w: Wanted)
    requires IsGiven(w) && w.zoneLabel != w.regionLabel
    requires c.objects.Some? && Tags.AllReadable(c.objects.value) && Matches(c, w)
    ensures exists m | Tags.IsDecided(c.objects.value, w.zoneLabel, w.regionLabel, m) ::
              m.Keys == {"Zone", "Region"} && Spells(m["Zone"], w.zone) && Spells(m["Region"], w.region)
  {
    var m := LabelsOf(c, w).value;
    hide Tags.LeafToRoot, ToLower, Tags.AllReadable, Tags.HasTag, Tags.Answer, Tags.IsDecided;
    Tags.ChainDecides(c.objects.value, w.zoneLabel, w.regionLabel);
    Tags.LastNeededTagWins(Tags.LeafToRoot(c.objects.value), w.zoneLabel, w.regionLabel);
    FoldsExactly(m[Tags.ZONE], w.zone);
    FoldsExactly(m[Tags.REGION], w.region);
  }

  /** The whole call for several vCenters, under a free scheduler. */
  method SearchZone(world: seq<Pool.VCenter>, clusters: seq<Cluster>, w: Wanted) returns (answer: Option<Pool.Answer>)
    requires Pool.AllItems(world) == ItemsOf(clusters, w)
    ensures answer.None? <==> !IsGiven(w)
    ensures answer.Some? ==> (answer.value.Found? <==> exists c | c in clusters :: Matches(c, w))
    ensures answer.Some? && answer.value.Found? ==>
              exists c | c in clusters :: Matches(c, w) && answer.value.info == Pool.DiscoveryInfo(c.vc, c.dc, c.name)
  {
    hide Matches, ToLower;
    if w.zoneLabel == "" || w.regionLabel == "" || w.zone == "" || w.region == "" {
      return None;
    }
    var found := PoolProgress.Search(w.zone, world);
    HitsMatch(clusters, w);
    return Some(found);
  }
}
