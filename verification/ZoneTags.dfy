/**
 Resolving the zone and the region of a host from the tags attached to it and to the objects
 above it.  Tags are read from the leaf of the inventory tree to its root, later readings
 overwrite earlier ones, and reading stops as soon as both labels have a value.
 */
module ZoneTags {
  import opened Wrappers

  const ZONE: string := "Zone"
  const REGION: string := "Region"

  /** One attached tag, or a tag whose own or whose category's data cannot be fetched. */
  datatype Reading = Read(name: string, category: string) | Broken

  /** An inventory object with the tags attached to it, or one whose tags cannot be listed. */
  datatype Entity = Tagged(tags: seq<Reading>) | Unlisted

  datatype ZoneError = NotConnected | Unreachable | Unreadable | RegionMissing | ZoneMissing

  function ReadingsOf(e: Entity): seq<Reading> {
    if e.Tagged? then e.tags else [Broken]
  }

  /** All readings in the order they are made; the inventory lists the root first. */
  function LeafToRoot(objects: seq<Entity>): seq<Reading> {
    if objects == [] then []
    else ReadingsOf(objects[|objects| - 1]) + LeafToRoot(objects[..|objects| - 1])
  }

  // ---------- what has been noted after some readings ----------

  function Noted(seen: seq<Reading>, zone: string, region: string): map<string, string> {
    if seen == [] then map[]
    else Note(Noted(seen[..|seen| - 1], zone, region), seen[|seen| - 1], zone, region)
  }

  function Note(m: map<string, string>, r: Reading, zone: string, region: string): map<string, string> {
    if r.Broken? then m
    else if r.category == zone then m[ZONE := r.name]
    else if r.category == region then m[REGION := r.name]
    else m
  }

  function ValueAt(m: map<string, string>, key: string): string {
    if key in m then m[key] else ""
  }

  predicate Both(seen: seq<Reading>, zone: string, region: string) {
    ValueAt(Noted(seen, zone, region), ZONE) != "" && ValueAt(Noted(seen, zone, region), REGION) != ""
  }

  /** How many readings are needed: up to the first moment both labels have a value. */
  function Needed(tags: seq<Reading>, k: nat, zone: string, region: string): (n: nat)
    requires k <= |tags|
    ensures k <= n <= |tags|
    ensures n < |tags| ==> Both(tags[..n], zone, region)
    ensures forall j | k <= j < n :: !Both(tags[..j], zone, region)
    decreases |tags| - k
  {
    if k == |tags| || Both(tags[..k], zone, region) then k else Needed(tags, k + 1, zone, region)
  }

  function Verdict(m: map<string, string>, zone: string, region: string): Result<map<string, string>, ZoneError> {
    if ValueAt(m, REGION) == "" && region != "" then Err(RegionMissing)
    else if ValueAt(m, ZONE) == "" && zone != "" then Err(ZoneMissing)
    else Ok(m)
  }

  /** What a lookup answers, given all readings from leaf to root. */
  function Answer(tags: seq<Reading>, zone: string, region: string): Result<map<string, string>, ZoneError> {
    var seen := tags[..Needed(tags, 0, zone, region)];
    if Broken in seen then Err(Unreadable) else Verdict(Noted(seen, zone, region), zone, region)
  }

  // ---------- the walk, reading by reading ----------

  lemma {:induction false} LeafToRootStep(objects: seq<Entity>, i: nat)
    requires i < |objects|
    ensures LeafToRoot(objects[..|objects| - i]) ==
            ReadingsOf(objects[|objects| - 1 - i]) + LeafToRoot(objects[..|objects| - i - 1])
  {
    assert objects[..|objects| - i][..|objects| - i - 1] == objects[..|objects| - i - 1];
  }

  /** While nothing has stopped the walk, all readings so far are needed. */
  lemma {:induction false} NeededFrom(tags: seq<Reading>, n: nat, zone: string, region: string)
    requires n <= |tags| && forall j | 0 <= j < n :: !Both(tags[..j], zone, region)
    ensures Needed(tags, 0, zone, region) == Needed(tags, n, zone, region)
  {
    var k := 0;
    while k < n
      invariant k <= n && Needed(tags, 0, zone, region) == Needed(tags, k, zone, region)
    {
      k := k + 1;
    }
  }

  /** The walk has made the readings seen and goes on. */
  ghost predicate Underway(tags: seq<Reading>, seen: seq<Reading>, zone: string, region: string) {
    && seen <= tags
    && Broken !in seen
    && forall j | 0 <= j <= |seen| :: !Both(tags[..j], zone, region)
  }

  /** One more reading ends the walk with the answer, or the walk goes on. */
  lemma Advance(tags: seq<Reading>, seen: seq<Reading>, r: Reading, rest: seq<Reading>, zone: string, region: string)
    requires tags == seen + ([r] + rest) && Underway(tags, seen, zone, region)
    ensures var now := seen + [r];
            && tags == now + rest
            && Noted(now, zone, region) == Note(Noted(seen, zone, region), r, zone, region)
            && (r.Broken? ==> Answer(tags, zone, region) == Err(Unreadable))
            && (r.Read? && Both(now, zone, region) ==> Answer(tags, zone, region) == Ok(Noted(now, zone, region)))
            && (r.Read? && !Both(now, zone, region) ==> Underway(tags, now, zone, region))
  {
    var now := seen + [r];
    assert now[..|now| - 1] == seen;
    assert tags == now + rest && tags[..|now|] == now;
    NeededFrom(tags, |now|, zone, region);
    if r.Broken? {
      var n := Needed(tags, 0, zone, region);
      assert tags[..n][|seen|] == Broken;
    }
  }

  lemma Start(objects: seq<Entity>, zone: string, region: string)
    ensures LeafToRoot([]) == [] && LeafToRoot(objects) == [] + LeafToRoot(objects[..|objects|])
    ensures Underway(LeafToRoot(objects), [], zone, region) && Noted([], zone, region) == map[]
  {
    assert objects[..|objects|] == objects;
    assert !Both(LeafToRoot(objects)[..0], zone, region);
  }

  lemma Peel(tags: seq<Reading>, t: nat, above: seq<Reading>)
    requires t < |tags|
    ensures tags[t..] + above == [tags[t]] + (tags[t + 1..] + above)
  {
  }

  lemma Finish(tags: seq<Reading>, zone: string, region: string)
    requires Underway(tags, tags, zone, region)
    ensures Answer(tags, zone, region) == Verdict(Noted(tags, zone, region), zone, region)
  {
    assert tags[..|tags|] == tags;
    NeededFrom(tags, |tags|, zone, region);
  }

  // ---------- the last tag of a label wins ----------

  predicate Carries(r: Reading, category: string) {
    r.Read? && r.category == category
  }

  /** The reading at i carries the label, and none after it does. */
  ghost predicate LastAt(seen: seq<Reading>, i: int, category: string) {
    0 <= i < |seen| && Carries(seen[i], category) && forall j | i < j < |seen| :: !Carries(seen[j], category)
  }

  ghost predicate FirstAt(seen: seq<Reading>, i: int, category: string) {
    0 <= i < |seen| && Carries(seen[i], category) && forall j | 0 <= j < i :: !Carries(seen[j], category)
  }

  ghost predicate Occurs(seen: seq<Reading>, category: string) {
    exists i | 0 <= i < |seen| :: Carries(seen[i], category)
  }

  /** Both labels note their last tag; equal labels leave the region unset. */
  lemma {:induction false} NotedIsLast(seen: seq<Reading>, zone: string, region: string)
    ensures var m := Noted(seen, zone, region);
            && m.Keys <= {ZONE, REGION}
            && (ZONE in m <==> Occurs(seen, zone))
            && (forall i | LastAt(seen, i, zone) :: ZONE in m && m[ZONE] == seen[i].name)
            && (REGION in m <==> zone != region && Occurs(seen, region))
            && (zone != region ==> forall i | LastAt(seen, i, region) :: REGION in m && m[REGION] == seen[i].name)
  {
    if seen != [] {
      var n := |seen| - 1;
      var front := seen[..n];
      NotedIsLast(front, zone, region);
      assert seen == front + [seen[n]];
      OccursStep(seen, zone);
      OccursStep(seen, region);
      forall i, c | LastAt(seen, i, c) && i < n ensures LastAt(front, i, c) {
        assert front[i] == seen[i];
      }
    }
  }

  lemma OccursStep(seen: seq<Reading>, category: string)
    requires seen != []
    ensures Occurs(seen, category) <==>
            Occurs(seen[..|seen| - 1], category) || Carries(seen[|seen| - 1], category)
  {
    var front := seen[..|seen| - 1];
    if i :| 0 <= i < |seen| && Carries(seen[i], category) {
      if i < |front| { assert Carries(front[i], category); }
    }
  }

  // ---------- when a lookup succeeds ----------

  ghost predicate Readable(tags: seq<Reading>) {
    forall r | r in tags :: r.Read? && r.name != ""
  }

  /** With two different labels: exactly when some fault-free beginning of the walk holds both. */
  lemma SucceedsExactly(tags: seq<Reading>, zone: string, region: string)
    requires zone != "" && region != "" && zone != region
    ensures Answer(tags, zone, region).Ok? <==>
            exists k | 0 <= k <= |tags| :: Both(tags[..k], zone, region) && Broken !in tags[..k]
  {
    var n := Needed(tags, 0, zone, region);
    if k :| 0 <= k <= |tags| && Both(tags[..k], zone, region) && Broken !in tags[..k] {
      assert n <= k;
      forall i | 0 <= i < n ensures tags[..n][i] != Broken {
        assert tags[..n][i] == tags[..k][i];
      }
    }
  }

  /** Every label that is not empty has a value. */
  predicate NoneMissing(m: map<string, string>, zone: string, region: string) {
    (zone != "" ==> ValueAt(m, ZONE) != "") && (region != "" ==> ValueAt(m, REGION) != "")
  }

  ghost predicate HoldsBoth(tags: seq<Reading>, zone: string, region: string) {
    exists k | 0 <= k <= |tags| :: Both(tags[..k], zone, region) && Broken !in tags[..k]
  }

  /** For any labels: the whole walk without a fault will also do, if it leaves no given label without a value. */
  lemma SucceedsForAnyLabels(tags: seq<Reading>, zone: string, region: string)
    ensures Answer(tags, zone, region).Ok? <==>
            HoldsBoth(tags, zone, region) || (Broken !in tags && NoneMissing(Noted(tags, zone, region), zone, region))
  {
    var n := Needed(tags, 0, zone, region);
    assert tags[..|tags|] == tags;
    hide HoldsBoth, Needed, Noted, Note;
    if Both(tags[..n], zone, region) {
      StoppedEarly(tags, n, zone, region);
      if Broken !in tags { FaultFreeFront(tags, n, |tags|); }
    } else {
      assert n == |tags|;
      NeverBoth(tags, zone, region);
    }
  }

  lemma StoppedEarly(tags: seq<Reading>, n: nat, zone: string, region: string)
    requires n == Needed(tags, 0, zone, region) && Both(tags[..n], zone, region)
    ensures HoldsBoth(tags, zone, region) <==> Broken !in tags[..n]
  {
    hide Both;
    if k :| 0 <= k <= |tags| && Both(tags[..k], zone, region) && Broken !in tags[..k] {
      FaultFreeFront(tags, n, k);
    }
  }

  lemma NeverBoth(tags: seq<Reading>, zone: string, region: string)
    requires Needed(tags, 0, zone, region) == |tags| && !Both(tags, zone, region)
    ensures !HoldsBoth(tags, zone, region)
  {
    assert tags[..|tags|] == tags;
    hide Both;
  }

  lemma FaultFreeFront(tags: seq<Reading>, n: nat, k: nat)
    requires n <= k <= |tags| && Broken !in tags[..k]
    ensures Broken !in tags[..n]
  {
    forall i | 0 <= i < n ensures tags[..n][i] != Broken { assert tags[..n][i] == tags[..k][i]; }
  }

  /** A tag that cannot be read, or an object whose tags cannot be listed, is met before both labels have a value. */
  ghost predicate MeetsFault(tags: seq<Reading>, zone: string, region: string) {
    exists k | 0 <= k < |tags| && tags[k].Broken? :: forall j | 0 <= j <= k :: !Both(tags[..j], zone, region)
  }

  /** For any labels: which error a lookup that fails reports. */
  lemma FailsExactly(tags: seq<Reading>, zone: string, region: string)
    ensures var r, m := Answer(tags, zone, region), Noted(tags, zone, region);
            && (r == Err(Unreadable) <==> MeetsFault(tags, zone, region))
            && (r == Err(RegionMissing) <==>
                  Broken !in tags && !HoldsBoth(tags, zone, region) && region != "" && ValueAt(m, REGION) == "")
            && (r == Err(ZoneMissing) <==>
                  && Broken !in tags && !HoldsBoth(tags, zone, region) && zone != "" && ValueAt(m, ZONE) == ""
                  && (region == "" || ValueAt(m, REGION) != ""))
  {
    var n := Needed(tags, 0, zone, region);
    var seen := tags[..n];
    assert tags[..|tags|] == tags;
    hide Needed, Noted, Note;
    UnreadableExactly(tags, n, zone, region);
    if Broken !in seen {
      if n < |tags| || Both(tags, zone, region) {
        assert Both(seen, zone, region);
        if Broken !in tags { assert HoldsBoth(tags, zone, region); }
      } else {
        NeverBoth(tags, zone, region);
      }
    } else {
      var i :| 0 <= i < n && seen[i] == Broken;
      assert tags[i] == Broken;
    }
  }

  lemma UnreadableExactly(tags: seq<Reading>, n: nat, zone: string, region: string)
    requires n == Needed(tags, 0, zone, region)
    ensures Broken in tags[..n] <==> MeetsFault(tags, zone, region)
  {
    hide Needed, Both;
    if Broken in tags[..n] {
      var k :| 0 <= k < n && tags[..n][k] == Broken;
      assert tags[k].Broken?;
    }
    if k :| 0 <= k < |tags| && tags[k].Broken? && forall j | 0 <= j <= k :: !Both(tags[..j], zone, region) {
      assert k < n;
      assert tags[..n][k] == Broken;
    }
  }

  /** Without faults and empty tag names: exactly when both categories occur on the chain. */
  lemma SucceedsWhenBothOccur(tags: seq<Reading>, zone: string, region: string)
    requires zone != "" && region != "" && zone != region && Readable(tags)
    ensures Answer(tags, zone, region).Ok? <==> Occurs(tags, zone) && Occurs(tags, region)
  {
    var n := Needed(tags, 0, zone, region);
    ReadableBoth(tags[..n], zone, region);
    ReadableBoth(tags, zone, region);
    assert tags[..|tags|] == tags;
    if Occurs(tags[..n], zone) {
      var i :| 0 <= i < n && Carries(tags[..n][i], zone);
      assert Carries(tags[i], zone);
    }
    if Occurs(tags[..n], region) {
      var i :| 0 <= i < n && Carries(tags[..n][i], region);
      assert Carries(tags[i], region);
    }
  }

  lemma {:induction false} LastExists(seen: seq<Reading>, category: string) returns (i: int)
    requires Occurs(seen, category)
    ensures LastAt(seen, i, category)
  {
    OccursStep(seen, category);
    if Carries(seen[|seen| - 1], category) {
      i := |seen| - 1;
    } else {
      i := LastExists(seen[..|seen| - 1], category);
      assert forall j | i < j < |seen| - 1 :: seen[j] == seen[..|seen| - 1][j];
    }
  }

  lemma ReadableBoth(seen: seq<Reading>, zone: string, region: string)
    requires Readable(seen) && zone != region
    ensures Both(seen, zone, region) <==> Occurs(seen, zone) && Occurs(seen, region)
  {
    NotedIsLast(seen, zone, region);
    if Occurs(seen, zone) && Occurs(seen, region) {
      var i := LastExists(seen, zone);
      var j := LastExists(seen, region);
      assert seen[i] in seen && seen[j] in seen;
    }
  }

  // ---------- the nearest tag of a label ----------

  /** The reading at i is the only one of its label. */
  ghost predicate Once(seen: seq<Reading>, category: string) {
    forall i, j | 0 <= i < j < |seen| :: !(Carries(seen[i], category) && Carries(seen[j], category))
  }

  /** No two readings of the label have the same name. */
  ghost predicate NamesDiffer(seen: seq<Reading>, category: string) {
    forall i, j | 0 <= i < j < |seen| ::
      Carries(seen[i], category) && Carries(seen[j], category) ==> seen[i].name != seen[j].name
  }

  /** The answer's value for the label is the name of the tag nearest to the leaf. */
  ghost predicate Nearest(tags: seq<Reading>, m: map<string, string>, key: string, category: string) {
    exists i :: FirstAt(tags, i, category) && key in m && m[key] == tags[i].name
  }

  /** A successful answer names, for each label, the last tag among the readings that were needed. */
  lemma LastNeededTagWins(tags: seq<Reading>, zone: string, region: string)
    requires zone != "" && region != "" && zone != region && Answer(tags, zone, region).Ok?
    ensures var seen, m := tags[..Needed(tags, 0, zone, region)], Answer(tags, zone, region).value;
            && m.Keys == {ZONE, REGION} && m[ZONE] != "" && m[REGION] != "" && Both(seen, zone, region)
            && (exists i :: LastAt(seen, i, zone) && m[ZONE] == seen[i].name)
            && (exists i :: LastAt(seen, i, region) && m[REGION] == seen[i].name)
  {
    var seen := tags[..Needed(tags, 0, zone, region)];
    NotedIsLast(seen, zone, region);
    var i := LastExists(seen, zone);
    var j := LastExists(seen, region);
    assert LastAt(seen, i, zone) && LastAt(seen, j, region);
  }

  /** One of the two labels is always answered by its nearest tag: the one that ended the walk. */
  lemma LabelFoundLastIsNearest(tags: seq<Reading>, zone: string, region: string)
    requires zone != "" && region != "" && zone != region && Answer(tags, zone, region).Ok? && Readable(tags)
    ensures var m := Answer(tags, zone, region).value;
            Nearest(tags, m, ZONE, zone) || Nearest(tags, m, REGION, region)
  {
    LastNeededTagWins(tags, zone, region);
    var n := Needed(tags, 0, zone, region);
    var seen, front := tags[..n], tags[..n - 1];
    assert seen[..n - 1] == front && seen[n - 1] == tags[n - 1];
    ReadableBoth(seen, zone, region);
    ReadableBoth(front, zone, region);
    OccursStep(seen, zone);
    OccursStep(seen, region);
    var category := if Occurs(front, zone) then region else zone;
    NotedIsLast(seen, zone, region);
    assert LastAt(seen, n - 1, category);
    forall k | 0 <= k < n - 1 ensures !Carries(tags[k], category) { assert front[k] == tags[k]; }
    assert FirstAt(tags, n - 1, category);
  }

  /** The first and the last tag of the label have the same name. */
  ghost predicate EndsAgree(seen: seq<Reading>, category: string) {
    exists i, j :: FirstAt(seen, i, category) && LastAt(seen, j, category) && seen[i].name == seen[j].name
  }

  /**
   The nearest-ancestor rule, for every successful lookup: a label gets its nearest tag exactly
   when the first and the last of its tags among the readings needed have the same name.
   */
  lemma NearestRule(tags: seq<Reading>, zone: string, region: string)
    requires Answer(tags, zone, region).Ok?
    ensures var seen, m := tags[..Needed(tags, 0, zone, region)], Answer(tags, zone, region).value;
            && (ZONE in m ==> (Nearest(tags, m, ZONE, zone) <==> EndsAgree(seen, zone)))
            && (REGION in m ==> (Nearest(tags, m, REGION, region) <==> EndsAgree(seen, region)))
            && (zone != "" && region != "" ==> zone != region && ZONE in m && REGION in m)
  {
    var n := Needed(tags, 0, zone, region);
    var seen, m := tags[..n], Answer(tags, zone, region).value;
    NotedIsLast(seen, zone, region);
    hide Noted, Needed, Both, Note;
    if ZONE in m {
      var i := LastExists(seen, zone);
      NearestOfLabel(tags, n, m, ZONE, zone, i);
    }
    if REGION in m {
      var i := LastExists(seen, region);
      NearestOfLabel(tags, n, m, REGION, region, i);
    }
  }

  lemma NearestOfLabel(tags: seq<Reading>, n: nat, m: map<string, string>, key: string, category: string, last: int)
    requires n <= |tags| && key in m && LastAt(tags[..n], last, category) && m[key] == tags[..n][last].name
    ensures Nearest(tags, m, key, category) <==> EndsAgree(tags[..n], category)
  {
    var seen := tags[..n];
    assert forall i | 0 <= i < n :: seen[i] == tags[i];
    if Nearest(tags, m, key, category) {
      var first :| FirstAt(tags, first, category) && m[key] == tags[first].name;
      assert first <= last;
      assert FirstAt(seen, first, category) && LastAt(seen, last, category);
    }
    if first, j :| FirstAt(seen, first, category) && LastAt(seen, j, category) && seen[first].name == seen[j].name {
      assert j == last;
      assert FirstAt(tags, first, category);
    }
  }

  /** A label that occurs once agrees with itself; where no tag is attached twice, only such a label does. */
  lemma OnceAgrees(seen: seq<Reading>, category: string)
    requires Occurs(seen, category)
    ensures Once(seen, category) ==> EndsAgree(seen, category)
    ensures NamesDiffer(seen, category) ==> (EndsAgree(seen, category) <==> Once(seen, category))
  {
    if Once(seen, category) {
      var i := LastExists(seen, category);
      assert FirstAt(seen, i, category);
    }
    if NamesDiffer(seen, category) && EndsAgree(seen, category) {
      var first, last :| FirstAt(seen, first, category) && LastAt(seen, last, category) &&
        seen[first].name == seen[last].name;
      assert first <= last;
      assert first == last;
    }
  }

  /** A host in one zone whose region is only known above a cluster in another zone. */
  lemma FartherZoneWins()
    ensures var near, far, top := Read("z1", "k8s-zone"), Read("z2", "k8s-zone"), Read("r1", "k8s-region");
            var objects := [Tagged([top]), Tagged([far]), Tagged([near])];
            && LeafToRoot(objects) == [near, far, top]
            && Answer(LeafToRoot(objects), "k8s-zone", "k8s-region") == Ok(map[ZONE := "z2", REGION := "r1"])
            && Answer([near, top, far], "k8s-zone", "k8s-region") == Ok(map[ZONE := "z1", REGION := "r1"])
  {
    var near, far, top := Read("z1", "k8s-zone"), Read("z2", "k8s-zone"), Read("r1", "k8s-region");
    var z, r := "k8s-zone", "k8s-region";
    var objects := [Tagged([top]), Tagged([far]), Tagged([near])];
    assert objects[..3] == objects;
    assert LeafToRoot([Tagged([top])]) == [top];
    assert LeafToRoot([Tagged([top]), Tagged([far])]) == [far, top];
    assert objects[..2] == [Tagged([top]), Tagged([far])] && objects[..2][..1] == [Tagged([top])];
    var tags := [near, far, top];
    assert tags[..0] == [] && tags[..1] == [near] && tags[..2] == [near, far] && tags[..3] == tags;
    assert [near, far][..1] == [near];
    assert Noted([near], z, r) == map[ZONE := "z1"];
    assert Noted([near, far], z, r) == map[ZONE := "z2"];
    NeededFrom(tags, 3, z, r);
    var other := [near, top, far];
    assert other[..0] == [] && other[..1] == [near] && other[..2] == [near, top] && [near, top][..1] == [near];
    assert Noted([near, top], z, r) == map[ZONE := "z1", REGION := "r1"];
    NeededFrom(other, 2, z, r);
  }

  // ---------- the answer in terms of the objects ----------

  /** A tag of the chain: the object's number, counted from the root, and the tag's number on it. */
  datatype Spot = Spot(entity: int, tag: int)

  predicate IsSpot(objects: seq<Entity>, s: Spot) {
    0 <= s.entity < |objects| && objects[s.entity].Tagged? && 0 <= s.tag < |objects[s.entity].tags|
  }

  /** The tag at s is read before the one at t: on an object nearer the leaf, or earlier on the same one. */
  predicate Nearer(s: Spot, t: Spot) {
    s.entity > t.entity || (s.entity == t.entity && s.tag < t.tag)
  }

  predicate TagAt(objects: seq<Entity>, s: Spot, category: string) {
    IsSpot(objects, s) && Carries(objects[s.entity].tags[s.tag], category)
  }

  function NameAt(objects: seq<Entity>, s: Spot): string
    requires IsSpot(objects, s) && objects[s.entity].tags[s.tag].Read?
  {
    objects[s.entity].tags[s.tag].name
  }

  function ReadingCount(e: Entity): nat {
    if e.Tagged? then |e.tags| else 1
  }

  /** How many readings are made before those of object i. */
  function ReadBefore(objects: seq<Entity>, i: nat): nat
    requires i < |objects|
    decreases |objects| - i
  {
    if i == |objects| - 1 then 0 else ReadingCount(objects[i + 1]) + ReadBefore(objects, i + 1)
  }

  lemma {:induction false} ReadBeforeFront(objects: seq<Entity>, i: nat)
    requires i < |objects| - 1
    ensures ReadBefore(objects, i) ==
            ReadingCount(objects[|objects| - 1]) + ReadBefore(objects[..|objects| - 1], i)
    decreases |objects| - i
  {
    if i < |objects| - 2 { ReadBeforeFront(objects, i + 1); }
  }

  lemma {:induction false} ReadBeforeFalls(objects: seq<Entity>, i: nat, j: nat)
    requires i < j < |objects|
    ensures ReadBefore(objects, j) + ReadingCount(objects[j]) <= ReadBefore(objects, i)
    decreases j - i
  {
    if i + 1 < j { ReadBeforeFalls(objects, i + 1, j); }
  }

  /** The readings stand in all from position from on. */
  ghost predicate StandAt(all: seq<Reading>, from: nat, readings: seq<Reading>) {
    from + |readings| <= |all| && forall j | 0 <= j < |readings| :: all[from + j] == readings[j]
  }

  lemma StandAfter(mine: seq<Reading>, all: seq<Reading>, from: nat, readings: seq<Reading>)
    requires StandAt(all, from, readings)
    ensures StandAt(mine + all, |mine| + from, readings)
  {
    forall j | 0 <= j < |readings| ensures (mine + all)[|mine| + from + j] == readings[j] {
      assert (mine + all)[|mine| + (from + j)] == all[from + j];
    }
  }

  /**
   Every object's readings, its tags in order or one that fails, stand in full right after those of
   the objects nearer the leaf, and nothing follows those of the root.
   */
  lemma ReadingsInPlace(objects: seq<Entity>, i: nat)
    requires i < |objects|
    ensures StandAt(LeafToRoot(objects), ReadBefore(objects, i),
                    if objects[i].Tagged? then objects[i].tags else [Broken])
    ensures i == 0 ==> ReadBefore(objects, i) + ReadingCount(objects[i]) == |LeafToRoot(objects)|
  {
    hide LeafToRoot, ReadBefore, StandAt;
    InPlace(objects, i);
  }

  lemma {:induction false} InPlace(objects: seq<Entity>, i: nat)
    requires i < |objects|
    ensures StandAt(LeafToRoot(objects), ReadBefore(objects, i), ReadingsOf(objects[i]))
    ensures i == 0 ==> ReadBefore(objects, i) + |ReadingsOf(objects[i])| == |LeafToRoot(objects)|
  {
    LeafFirst(objects);
    hide LeafToRoot, StandAt, ReadingsOf;
    if i < |objects| - 1 {
      var front, last := objects[..|objects| - 1], objects[|objects| - 1];
      hide ReadBefore, ReadingCount;
      InPlace(front, i);
      ReadBeforeFront(objects, i);
      MoreInPlace(front, last, i, ReadBefore(front, i));
      assert front[i] == objects[i];
    } else {
      assert ReadBefore(objects, i) == 0;
      hide ReadBefore, ReadingCount;
      StandAtStart(ReadingsOf(objects[i]), LeafToRoot(objects[..i]));
    }
  }

  lemma MoreInPlace(front: seq<Entity>, last: Entity, i: nat, from: nat)
    requires i < |front| && StandAt(LeafToRoot(front), from, ReadingsOf(front[i]))
    ensures StandAt(ReadingsOf(last) + LeafToRoot(front), ReadingCount(last) + from, ReadingsOf(front[i]))
    ensures |ReadingsOf(last) + LeafToRoot(front)| == ReadingCount(last) + |LeafToRoot(front)|
  {
    CountIsLength(last);
    hide LeafToRoot, StandAt, ReadingsOf;
    StandAfter(ReadingsOf(last), LeafToRoot(front), from, ReadingsOf(front[i]));
  }

  lemma CountIsLength(e: Entity)
    ensures ReadingCount(e) == |ReadingsOf(e)|
  {
  }

  lemma StandAtStart(mine: seq<Reading>, rest: seq<Reading>)
    ensures StandAt(mine + rest, 0, mine)
  {
  }

  lemma LeafFirst(objects: seq<Entity>)
    requires objects != []
    ensures var n := |objects| - 1;
            && LeafToRoot(objects) == ReadingsOf(objects[n]) + LeafToRoot(objects[..n])
            && (n == 0 ==> LeafToRoot(objects[..n]) == [])
  {
  }

  /** Every reading is one of those. */
  lemma {:induction false} ReadingComesFrom(objects: seq<Entity>, p: nat) returns (i: nat, j: nat)
    requires p < |LeafToRoot(objects)|
    ensures i < |objects| && j < ReadingCount(objects[i]) && p == ReadBefore(objects, i) + j
  {
    var n := |objects| - 1;
    if p < ReadingCount(objects[n]) {
      i, j := n, p;
    } else {
      i, j := ReadingComesFrom(objects[..n], p - ReadingCount(objects[n]));
      ReadBeforeFront(objects, i);
    }
  }

  /** Every object's tags can be listed, and every tag can be read and has a name. */
  ghost predicate AllReadable(objects: seq<Entity>) {
    && (forall i | 0 <= i < |objects| :: objects[i].Tagged?)
    && (forall s | IsSpot(objects, s) ::
          objects[s.entity].tags[s.tag].Read? && objects[s.entity].tags[s.tag].name != "")
  }

  function IndexOf(objects: seq<Entity>, s: Spot): nat
    requires IsSpot(objects, s)
  {
    ReadBefore(objects, s.entity) + s.tag
  }

  lemma ReadAt(objects: seq<Entity>, s: Spot)
    requires IsSpot(objects, s)
    ensures IndexOf(objects, s) < |LeafToRoot(objects)|
    ensures LeafToRoot(objects)[IndexOf(objects, s)] == objects[s.entity].tags[s.tag]
  {
    ReadingsInPlace(objects, s.entity);
    hide LeafToRoot, ReadBefore;
  }

  lemma SpotOf(objects: seq<Entity>, p: nat) returns (s: Spot)
    requires p < |LeafToRoot(objects)| && forall i | 0 <= i < |objects| :: objects[i].Tagged?
    ensures IsSpot(objects, s) && IndexOf(objects, s) == p
  {
    var i, j := ReadingComesFrom(objects, p);
    s := Spot(i, j);
  }

  lemma NearerIsEarlier(objects: seq<Entity>, s: Spot, t: Spot)
    requires IsSpot(objects, s) && IsSpot(objects, t)
    ensures Nearer(s, t) <==> IndexOf(objects, s) < IndexOf(objects, t)
  {
    if s.entity < t.entity { ReadBeforeFalls(objects, s.entity, t.entity); }
    if t.entity < s.entity { ReadBeforeFalls(objects, t.entity, s.entity); }
  }

  lemma AllReadableIsReadable(objects: seq<Entity>)
    requires AllReadable(objects)
    ensures Readable(LeafToRoot(objects))
  {
    var all := LeafToRoot(objects);
    forall r | r in all ensures r.Read? && r.name != "" {
      var p :| 0 <= p < |all| && all[p] == r;
      var s := SpotOf(objects, p);
      ReadAt(objects, s);
    }
  }

  ghost predicate HasTag(objects: seq<Entity>, category: string) {
    exists s :: TagAt(objects, s, category)
  }

  lemma OccursIsHasTag(objects: seq<Entity>, category: string)
    requires forall i | 0 <= i < |objects| :: objects[i].Tagged?
    ensures Occurs(LeafToRoot(objects), category) <==> HasTag(objects, category)
  {
    var all := LeafToRoot(objects);
    hide LeafToRoot;
    if p :| 0 <= p < |all| && Carries(all[p], category) {
      var s := SpotOf(objects, p);
      ReadAt(objects, s);
      assert TagAt(objects, s, category);
    }
    if s :| TagAt(objects, s, category) { ReadAt(objects, s); }
  }

  /**
   The two tags that answer a lookup: far is the nearest of its category, and near the last one of
   the other category that is nearer than far.
   */
  ghost predicate Decide(objects: seq<Entity>, near: Spot, nearCategory: string, far: Spot, farCategory: string) {
    && TagAt(objects, near, nearCategory) && TagAt(objects, far, farCategory) && Nearer(near, far)
    && (forall t | TagAt(objects, t, farCategory) :: !Nearer(t, far))
    && (forall t | TagAt(objects, t, nearCategory) && Nearer(t, far) :: !Nearer(near, t))
  }

  /** The reading that ends the walk is the first of its label; the other label has its last one before that. */
  lemma DecidingReadings(tags: seq<Reading>, zone: string, region: string)
    returns (near: nat, far: nat, zoneIsFar: bool)
    requires zone != "" && region != "" && zone != region && Answer(tags, zone, region).Ok? && Readable(tags)
    ensures near < far < |tags|
    ensures FirstAt(tags, far, if zoneIsFar then zone else region)
    ensures Carries(tags[near], if zoneIsFar then region else zone)
    ensures forall k | near < k < far :: !Carries(tags[k], if zoneIsFar then region else zone)
    ensures var m := Answer(tags, zone, region).value;
            && m.Keys == {ZONE, REGION}
            && m[ZONE] == tags[if zoneIsFar then far else near].name
            && m[REGION] == tags[if zoneIsFar then near else far].name
  {
    LastNeededTagWins(tags, zone, region);
    var n, m := Needed(tags, 0, zone, region), Answer(tags, zone, region).value;
    var seen := tags[..n];
    far := n - 1;
    zoneIsFar := EndedBy(tags, n, zone, region);
    near := NearReading(tags, n, m, zone, region, zoneIsFar);
  }

  lemma NearReading(tags: seq<Reading>, n: nat, m: map<string, string>, zone: string, region: string, zoneIsFar: bool)
    returns (near: nat)
    requires 0 < n <= |tags| && ZONE in m && REGION in m && zone != region
    requires FirstAt(tags, n - 1, if zoneIsFar then zone else region)
    requires exists i :: LastAt(tags[..n], i, zone) && m[ZONE] == tags[..n][i].name
    requires exists i :: LastAt(tags[..n], i, region) && m[REGION] == tags[..n][i].name
    ensures near < n - 1 && Carries(tags[near], if zoneIsFar then region else zone)
    ensures forall k | near < k < n - 1 :: !Carries(tags[k], if zoneIsFar then region else zone)
    ensures m[ZONE] == tags[if zoneIsFar then n - 1 else near].name
    ensures m[REGION] == tags[if zoneIsFar then near else n - 1].name
  {
    var seen := tags[..n];
    var z :| LastAt(seen, z, zone) && m[ZONE] == seen[z].name;
    var r :| LastAt(seen, r, region) && m[REGION] == seen[r].name;
    assert forall k | 0 <= k < n :: seen[k] == tags[k];
    near := if zoneIsFar then r else z;
  }

  lemma EndedBy(tags: seq<Reading>, n: nat, zone: string, region: string) returns (zoneIsFar: bool)
    requires n == Needed(tags, 0, zone, region) && Both(tags[..n], zone, region) && Readable(tags) && zone != region
    ensures n > 0 && FirstAt(tags, n - 1, if zoneIsFar then zone else region)
  {
    var seen, front := tags[..n], tags[..if n == 0 then 0 else n - 1];
    ReadableBoth(seen, zone, region);
    OccursStep(seen, zone);
    OccursStep(seen, region);
    assert seen[..n - 1] == front && seen[n - 1] == tags[n - 1];
    ReadableBoth(front, zone, region);
    zoneIsFar := !Occurs(front, zone);
    hide Noted, Needed, Both, Readable;
    forall k | 0 <= k < n - 1 ensures !Carries(tags[k], if zoneIsFar then zone else region) {
      assert front[k] == tags[k];
    }
  }

  /**
   What a lookup answers when every tag can be read: without a region tag or a zone tag on the
   chain it says which is missing, the region first; with both, the two deciding tags.
   */
  lemma ChainDecides(objects: seq<Entity>, zone: string, region: string)
    requires zone != "" && region != "" && zone != region && AllReadable(objects)
    ensures var r := Answer(LeafToRoot(objects), zone, region);
            && (!HasTag(objects, region) ==> r == Err(RegionMissing))
            && (HasTag(objects, region) && !HasTag(objects, zone) ==> r == Err(ZoneMissing))
            && (HasTag(objects, region) && HasTag(objects, zone) ==> r.Ok? && IsDecided(objects, zone, region, r.value))
  {
    var all := LeafToRoot(objects);
    AllReadableIsReadable(objects);
    OccursIsHasTag(objects, zone);
    OccursIsHasTag(objects, region);
    SucceedsWhenBothOccur(all, zone, region);
    if HasTag(objects, region) && HasTag(objects, zone) {
      var near, far, zoneIsFar := DecidingReadings(all, zone, region);
      hide Answer, LeafToRoot, Readable, AllReadable, HasTag;
      var s := SpotOf(objects, near);
      var t := SpotOf(objects, far);
      SpotsDecide(objects, s, if zoneIsFar then region else zone, t, if zoneIsFar then zone else region);
      ReadAt(objects, s);
      ReadAt(objects, t);
    } else {
      MissingLabel(all, zone, region);
    }
  }

  /** The answer's zone and region are the names of the deciding tags. */
  ghost predicate IsDecided(objects: seq<Entity>, zone: string, region: string, m: map<string, string>) {
    || (exists near, far | Decide(objects, near, zone, far, region) ::
          m == map["Zone" := NameAt(objects, near), "Region" := NameAt(objects, far)])
    || (exists near, far | Decide(objects, near, region, far, zone) ::
          m == map["Zone" := NameAt(objects, far), "Region" := NameAt(objects, near)])
  }

  lemma SpotsDecide(objects: seq<Entity>, near: Spot, nearCategory: string, far: Spot, farCategory: string)
    requires (forall i | 0 <= i < |objects| :: objects[i].Tagged?) && IsSpot(objects, near) && IsSpot(objects, far)
    requires var all, n, f := LeafToRoot(objects), IndexOf(objects, near), IndexOf(objects, far);
             && n < f < |all| && FirstAt(all, f, farCategory) && Carries(all[n], nearCategory)
             && forall k | n < k < f :: !Carries(all[k], nearCategory)
    ensures Decide(objects, near, nearCategory, far, farCategory)
  {
    ReadAt(objects, near);
    ReadAt(objects, far);
    NearerIsEarlier(objects, near, far);
    hide LeafToRoot, IndexOf, Nearer;
    forall t | TagAt(objects, t, farCategory) ensures !Nearer(t, far) {
      ReadAt(objects, t);
      NearerIsEarlier(objects, t, far);
    }
    forall t | TagAt(objects, t, nearCategory) && Nearer(t, far) ensures !Nearer(near, t) {
      ReadAt(objects, t);
      NearerIsEarlier(objects, t, far);
      NearerIsEarlier(objects, near, t);
    }
  }

  lemma MissingLabel(tags: seq<Reading>, zone: string, region: string)
    requires zone != "" && region != "" && zone != region && Readable(tags)
    requires !Occurs(tags, zone) || !Occurs(tags, region)
    ensures Answer(tags, zone, region) == Err(if Occurs(tags, region) then ZoneMissing else RegionMissing)
  {
    SucceedsWhenBothOccur(tags, zone, region);
    var n := Needed(tags, 0, zone, region);
    assert tags[..|tags|] == tags;
    NotedIsLast(tags, zone, region);
    ReadableBoth(tags, zone, region);
    hide Noted, Needed;
    if Occurs(tags, region) {
      var j := LastExists(tags, region);
      assert tags[j] in tags;
    }
  }

  // ---------- the loops ----------

  /** The tags of one object; ended is the answer if one of them ended the walk. */
  method ReadTags(attached: seq<Reading>, before: map<string, string>, zone: string, region: string,
                  ghost tags: seq<Reading>, ghost seen: seq<Reading>, ghost above: seq<Reading>)
    returns (noted: map<string, string>, ended: Option<Result<map<string, string>, ZoneError>>)
    requires tags == seen + (attached + above) && before == Noted(seen, zone, region)
    requires Underway(tags, seen, zone, region)
    ensures ended.Some? ==> ended.value == Answer(tags, zone, region)
    ensures ended.None? ==>
              && tags == seen + attached + above && noted == Noted(seen + attached, zone, region)
              && Underway(tags, seen + attached, zone, region)
  {
    hide Noted, Needed, Answer, Underway, LeafToRoot;
    noted := before;
    ghost var now := seen;
    assert attached[0..] == attached;
    for t := 0 to |attached|
      invariant now == seen + attached[..t] && tags == now + (attached[t..] + above)
      invariant noted == Noted(now, zone, region) && Underway(tags, now, zone, region)
    {
      var tag := attached[t];
      Peel(attached, t, above);
      Advance(tags, now, tag, attached[t + 1..] + above, zone, region);
      if tag.Broken? { return noted, Some(Err(Unreadable)); }
      if tag.category == zone {
        noted := noted[ZONE := tag.name];
      } else if tag.category == region {
        noted := noted[REGION := tag.name];
      }
      now := now + [tag];
      if ValueAt(noted, ZONE) != "" && ValueAt(noted, REGION) != "" { return noted, Some(Ok(noted)); }
    }
    assert now == seen + attached;
    return noted, None;
  }

  /** objects is None when the ancestors cannot be retrieved. */
  method LookupZoneByMoref(connected: bool, objects: Option<seq<Entity>>, zone: string, region: string)
    returns (r: Result<map<string, string>, ZoneError>)
    ensures r == if !connected then Err(NotConnected)
                 else if objects.None? then Err(Unreachable)
                 else Answer(LeafToRoot(objects.value), zone, region)
    ensures connected && objects.Some? && zone != "" && region != "" && zone != region && AllReadable(objects.value) ==>
              if !HasTag(objects.value, region) then r == Err(RegionMissing)
              else if !HasTag(objects.value, zone) then r == Err(ZoneMissing)
              else r.Ok? && IsDecided(objects.value, zone, region, r.value)
  {
    hide Noted, Needed, Answer, Underway, LeafToRoot, AllReadable, HasTag, IsDecided;
    if connected && objects.Some? && zone != "" && region != "" && zone != region && AllReadable(objects.value) {
      ChainDecides(objects.value, zone, region);
    }
    if !connected { return Err(NotConnected); }
    if objects.None? { return Err(Unreachable); }
    var chain := objects.value;
    ghost var tags, seen := LeafToRoot(chain), [];
    var noted: map<string, string> := map[];
    Start(chain, zone, region);
    for i := 0 to |chain|
      invariant tags == seen + LeafToRoot(chain[..|chain| - i])
      invariant noted == Noted(seen, zone, region) && Underway(tags, seen, zone, region)
    {
      var obj := chain[|chain| - 1 - i];
      LeafToRootStep(chain, i);
      ghost var above := LeafToRoot(chain[..|chain| - i - 1]);
      if obj.Unlisted? {
        Advance(tags, seen, Broken, above, zone, region);
        return Err(Unreadable);
      }
      var ended;
      noted, ended := ReadTags(obj.tags, noted, zone, region, tags, seen, above);
      if ended.Some? { return ended.value; }
      seen := seen + obj.tags;
    }
    assert tags == seen;
    Finish(tags, zone, region);
    if ValueAt(noted, REGION) == "" && region != "" { return Err(RegionMissing); }
    if ValueAt(noted, ZONE) == "" && zone != "" { return Err(ZoneMissing); }
    return Ok(noted);
  }
}
