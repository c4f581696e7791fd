/**
 Progress of the parallel search: no schedule runs forever, the caller is never stuck, and a
 run that cannot go on has returned to the caller.
 */
module SearchPoolProgress {
  import opened Sequences
  import opened Wrappers
  import opened SearchPool
  import opened SearchPoolInvariant

  // ---------- a measure that every step lowers ----------

  /** A ticket costs a send, a receive, a lookup and a publication. */
  const PUSH_COST: nat := 4

  function DatacenterCost(dc: Datacenter): nat {
    2 + PUSH_COST * |DatacenterItems(dc)|
  }

  function DatacentersCost(dcs: seq<Datacenter>): nat {
    if dcs == [] then 0 else 1 + DatacenterCost(dcs[0]) + DatacentersCost(dcs[1..])
  }

  function NamesCost(names: seq<NameLookup>): nat {
    if names == [] then 0
    else 1 + (if names[0].Resolved? then 1 + DatacenterCost(names[0].datacenter) else 0) + NamesCost(names[1..])
  }

  function EnumerationCost(e: Enumeration): nat {
    match e
    case AllFails(_) => 1
    case All(dcs) => 2 + DatacentersCost(dcs)
    case Named(names) => 3 + NamesCost(names)
  }

  function VCentersCost(vcs: seq<VCenter>): nat {
    if vcs == [] then 1
    else 2 + CONNECTION_ATTEMPTS + EnumerationCost(vcs[0].enumeration) + VCentersCost(vcs[1..])
  }

  function ProducerCost(p: Producer): nat {
    match p
    case AtVCenter(vcs) => VCentersCost(vcs)
    case Connecting(vc, attempt, vcs) =>
      1 + (if attempt < CONNECTION_ATTEMPTS then CONNECTION_ATTEMPTS - attempt else 0)
      + EnumerationCost(vc.enumeration) + VCentersCost(vcs)
    case Enumerating(e, vcs) => EnumerationCost(e) + VCentersCost(vcs)
    case Resolving(names, dcs, vcs) => 2 + NamesCost(names) + DatacentersCost(dcs) + VCentersCost(vcs)
    case AtDatacenter(dcs, vcs) => 1 + DatacentersCost(dcs) + VCentersCost(vcs)
    case Listing(dc, dcs, vcs) => 1 + DatacenterCost(dc) + DatacentersCost(dcs) + VCentersCost(vcs)
    case Pushing(items, dcs, vcs) => 2 + PUSH_COST * |items| + DatacentersCost(dcs) + VCentersCost(vcs)
    case Closed => 0
  }

  function WorkerCost(w: Worker): nat {
    match w case Idle => 1 case Holding(_) => 3 case Raising => 2 case Done => 0
  }

  function WorkersCost(workers: seq<Worker>): nat {
    if workers == [] then 0 else WorkerCost(workers[0]) + WorkersCost(workers[1..])
  }

  function Measure(s: State): nat {
    ProducerCost(s.producer) + 3 * |s.queue| + WorkersCost(s.workers)
  }

  lemma {:induction false} DatacentersCostAppend(dcs: seq<Datacenter>, dc: Datacenter)
    ensures DatacentersCost(dcs + [dc]) == DatacentersCost(dcs) + 1 + DatacenterCost(dc)
  {
    if dcs != [] {
      assert (dcs + [dc])[1..] == dcs[1..] + [dc];
      DatacentersCostAppend(dcs[1..], dc);
    }
  }

  lemma {:induction false} WorkersCostUpdate(workers: seq<Worker>, i: nat, w: Worker)
    requires i < |workers|
    ensures WorkersCost(workers[i := w]) + WorkerCost(workers[i]) == WorkersCost(workers) + WorkerCost(w)
  {
    if i == 0 {
      assert workers[i := w][1..] == workers[1..];
    } else {
      assert workers[i := w][1..] == workers[1..][i - 1 := w];
      WorkersCostUpdate(workers[1..], i - 1, w);
    }
  }

  lemma ProducerLowers(s: State)
    requires ProducerEnabled(s)
    ensures Measure(ProducerStep(s)) < Measure(s)
  {
    hide ProducerStep, Measure;
    match s.producer
    case AtVCenter(_) => VCenterLowers(s);
    case Connecting(_, _, _) => VCenterLowers(s);
    case Enumerating(_, _) => EnumerationLowers(s);
    case Resolving(_, _, _) => EnumerationLowers(s);
    case _ => DatacenterLowers(s);
  }

  lemma VCenterLowers(s: State)
    requires s.producer.AtVCenter? || s.producer.Connecting?
    ensures ProducerEnabled(s) && Measure(ProducerStep(s)) < Measure(s)
  {
    hide WorkersCost, EnumerationCost;
  }

  lemma EnumerationLowers(s: State)
    requires s.producer.Enumerating? || s.producer.Resolving?
    ensures ProducerEnabled(s) && Measure(ProducerStep(s)) < Measure(s)
  {
    hide WorkersCost, VCentersCost, DatacenterCost;
    if s.producer.Resolving? && s.producer.names != [] && s.producer.names[0].Resolved? {
      DatacentersCostAppend(s.producer.datacenters, s.producer.names[0].datacenter);
    }
  }

  lemma DatacenterLowers(s: State)
    requires s.producer.AtDatacenter? || s.producer.Listing? || s.producer.Pushing?
    requires ProducerEnabled(s)
    ensures Measure(ProducerStep(s)) < Measure(s)
  {
    hide WorkersCost, VCentersCost;
  }

  lemma StepLowers(s: State, a: Actor)
    requires Enabled(s, a)
    ensures Measure(Step(s, a)) < Measure(s)
  {
    match a
    case Produce => ProducerLowers(s);
    case Work(i) => WorkersCostUpdate(s.workers, i, WorkerStep(s, i).workers[i]);
  }

  /** No schedule is longer than the measure of the state it starts in. */
  lemma {:induction false} SchedulesAreBounded(s: State, schedule: seq<Actor>)
    requires Follows(s, schedule)
    ensures |schedule| + Measure(Run(s, schedule)) <= Measure(s)
    decreases |schedule|
  {
    if schedule != [] {
      StepLowers(s, schedule[0]);
      SchedulesAreBounded(Step(s, schedule[0]), schedule[1..]);
    }
  }

  // ---------- nobody the caller waits for is ever stuck ----------

  ghost predicate Stuck(s: State) {
    forall a: Actor :: !Enabled(s, a)
  }

  /** While a worker lives some actor can move: a full channel blocks only the producer. */
  lemma LiveWorkerMeansProgress(world: seq<VCenter>, s: State)
    requires Inv(world, s) && !Joined(s)
    ensures exists a: Actor :: Enabled(s, a)
  {
    hide WalkInv, OutcomeInv, ExitInv;
    var i :| 0 <= i < |s.workers| && !s.workers[i].Done?;
    if s.workers[i].Idle? && s.queue == [] && !s.producer.Closed? {
      assert Enabled(s, Produce);
    } else {
      assert Enabled(s, Work(i));
    }
  }

  /**
   Where a maximal run ends: the caller is past the join, and the producer has either
   closed the channel or sits forever on a full one, which takes a published hit.
   */
  lemma StuckMeansJoined(world: seq<VCenter>, s: State)
    requires Inv(world, s)
    ensures Stuck(s) <==>
              Joined(s) && (s.producer.Closed? ||
                            (s.producer.Pushing? && s.producer.items != [] && |s.queue| == QUEUE_SIZE))
    ensures Stuck(s) && !s.producer.Closed? ==> s.found
  {
    hide WalkInv, OutcomeInv, AllItems;
    if !Joined(s) {
      LiveWorkerMeansProgress(world, s);
    } else {
      assert s.workers[0].Done?;
      assert ProducerEnabled(s) ==> Enabled(s, Produce);
      assert forall a: Actor :: Enabled(s, a) ==> a.Produce? && ProducerEnabled(s);
    }
  }

  // ---------- the two main theorems ----------

  /**
   Every schedule of the pool that reaches the join gives an answer the sequential scan
   justifies: a hit whenever the inventory holds one, else an error whenever the walk or a
   lookup recorded one, else not found.
   */
  lemma EveryScheduleAnswers(world: seq<VCenter>, schedule: seq<Actor>)
    requires Follows(Init(world), schedule) && Joined(Run(Init(world), schedule))
    ensures var s := Run(Init(world), schedule);
            (s.found ==> s.info.Some?) && Justified(world, AnswerOf(s))
  {
    InitHolds(world);
    RunKeepsInv(world, Init(world), schedule);
    JoinedAnswer(world, Run(Init(world), schedule));
  }

  /** The vCenter refuses fewer than three connection attempts and every listing call made on it succeeds. */
  ghost predicate FullyWalked(vc: VCenter) {
    && |vc.refusals| < 3
    && match vc.enumeration
       case AllFails(_) => false
       case All(dcs) => forall dc | dc in dcs :: dc.Items?
       case Named(names) =>
         forall n | n in names :: !n.Unresolved? && (n.Resolved? ==> n.datacenter.Items?)
  }

  lemma {:induction false} NoListingErrors(dcs: seq<Datacenter>)
    ensures DatacenterErrors(dcs) == [] <==> forall dc | dc in dcs :: dc.Items?
  {
    if dcs != [] {
      NoListingErrors(dcs[1..]);
      NothingInBoth(ListingError(dcs[0]), DatacenterErrors(dcs[1..]));
      assert dcs[0] in dcs && forall dc | dc in dcs[1..] :: dc in dcs;
      assert ListingError(dcs[0]) == [] <==> dcs[0].Items?;
    }
  }

  lemma {:induction false} NoNameErrors(names: seq<NameLookup>)
    ensures NameErrors(names) == [] && DatacenterErrors(NamedDatacenters(names)) == [] <==>
            forall n | n in names :: !n.Unresolved? && (n.Resolved? ==> n.datacenter.Items?)
  {
    if names != [] {
      NoNameErrors(names[1..]);
      FirstNameErrors(names);
      hide NameErrors, DatacenterErrors, NamedDatacenters;
      assert forall n :: n in names <==> n == names[0] || n in names[1..];
    }
  }

  lemma FirstNameErrors(names: seq<NameLookup>)
    requires names != []
    ensures NameErrors(names) == [] <==> !names[0].Unresolved? && NameErrors(names[1..]) == []
    ensures DatacenterErrors(NamedDatacenters(names)) == [] <==>
            && (names[0].Resolved? ==> names[0].datacenter.Items?)
            && DatacenterErrors(NamedDatacenters(names[1..])) == []
  {
    NothingInBoth(NameError(names[0]), NameErrors(names[1..]));
    var first, rest := NamedDatacenter(names[0]), NamedDatacenters(names[1..]);
    if names[0].Resolved? {
      assert (first + rest)[1..] == rest;
      NothingInBoth(ListingError(names[0].datacenter), DatacenterErrors(rest));
    } else {
      assert first + rest == rest;
    }
  }

  lemma NoErrorsOf(vc: VCenter)
    ensures VCenterErrors(vc) == [] <==> FullyWalked(vc)
  {
    match vc.enumeration {
      case AllFails(_) =>
      case All(dcs) => NoListingErrors(dcs);
      case Named(names) => NoNameErrors(names);
    }
  }

  lemma {:induction false} NoWalkErrors(world: seq<VCenter>)
    ensures WalkErrors(world) == [] <==> forall vc | vc in world :: FullyWalked(vc)
  {
    hide VCenterErrors, FullyWalked;
    if world != [] {
      NoErrorsOf(world[0]);
      NoWalkErrors(world[1..]);
      assert forall vc :: vc in world <==> vc == world[0] || vc in world[1..];
    }
  }

  /**
   A not-found answer is never the work of an early shutdown or of a lost channel element:
   every vCenter was walked in full, every item it lists was looked up exactly once, and
   each lookup missed or failed in the one way the workers forget.
   */
  lemma NotFoundIsComplete(world: seq<VCenter>, schedule: seq<Actor>)
    requires Follows(Init(world), schedule) && Joined(Run(Init(world), schedule))
    requires !Run(Init(world), schedule).found && Run(Init(world), schedule).err.None?
    ensures forall vc | vc in world :: FullyWalked(vc)
    ensures multiset(Run(Init(world), schedule).processed) == multiset(Tickets(AllItems(world)))
    ensures forall item | item in AllItems(world) :: item.outcome.Miss? || item.outcome.Dropped?
  {
    EveryScheduleAnswers(world, schedule);
    InitHolds(world);
    RunKeepsInv(world, Init(world), schedule);
    JoinWithoutHit(world, Run(Init(world), schedule));
    NoWalkErrors(world);
    NothingToReport(AllItems(world));
  }

  lemma NothingToReport(items: seq<Item>)
    ensures Hits(items) == [] && Faults(items) == [] <==>
            forall item | item in items :: item.outcome.Miss? || item.outcome.Dropped?
  {
    forall k | 0 <= k < |items|
      ensures Hits(items) == [] && Faults(items) == [] ==> items[k].outcome.Miss? || items[k].outcome.Dropped?
    {
      OutcomesListed(items, k);
    }
    if forall item | item in items :: item.outcome.Miss? || item.outcome.Dropped? {
      assert forall k | 0 <= k < |items| :: items[k] in items;
      NothingListed(items);
    }
  }

  /** And whenever that is so of the inventory, every schedule answers not-found. */
  lemma NotFoundExactly(world: seq<VCenter>, schedule: seq<Actor>)
    requires Follows(Init(world), schedule) && Joined(Run(Init(world), schedule))
    ensures Run(Init(world), schedule).found ==> Run(Init(world), schedule).info.Some?
    ensures AnswerOf(Run(Init(world), schedule)) == NotFound <==>
            && (forall vc | vc in world :: FullyWalked(vc))
            && (forall item | item in AllItems(world) :: item.outcome.Miss? || item.outcome.Dropped?)
  {
    EveryScheduleAnswers(world, schedule);
    NoWalkErrors(world);
    NothingToReport(AllItems(world));
    hide Follows, Run, Joined, AllItems, WalkErrors, Hits, Faults, FullyWalked;
  }

  /** Every schedule is finite, and one that cannot be extended has returned to the caller. */
  lemma EveryMaximalScheduleJoins(world: seq<VCenter>, schedule: seq<Actor>)
    requires Follows(Init(world), schedule)
    ensures |schedule| <= Measure(Init(world))
    ensures Stuck(Run(Init(world), schedule)) ==> Joined(Run(Init(world), schedule))
  {
    InitHolds(world);
    RunKeepsInv(world, Init(world), schedule);
    SchedulesAreBounded(Init(world), schedule);
    StuckMeansJoined(world, Run(Init(world), schedule));
  }

  // ---------- the answer does not depend on map order or schedule ----------

  ghost predicate SameKind(a: Answer, b: Answer) {
    (a.Found? <==> b.Found?) && (a.Failed? <==> b.Failed?)
  }

  lemma {:induction false} HitsAppend(a: seq<Item>, b: seq<Item>)
    ensures Hits(a + b) == Hits(a) + Hits(b)
  {
    hide HitOf;
    if a == [] {
      assert a + b == b;
    } else {
      assert (a + b)[0] == a[0] && (a + b)[1..] == a[1..] + b;
      HitsAppend(a[1..], b);
    }
  }

  lemma {:induction false} FaultsAppend(a: seq<Item>, b: seq<Item>)
    ensures Faults(a + b) == Faults(a) + Faults(b)
  {
    hide FaultOf;
    if a == [] {
      assert a + b == b;
    } else {
      assert (a + b)[0] == a[0] && (a + b)[1..] == a[1..] + b;
      FaultsAppend(a[1..], b);
    }
  }

  /** What one vCenter adds to the answer, and what all of them add. */
  function HitsOf(vc: VCenter): multiset<DiscoveryInfo> { multiset(Hits(VCenterItems(vc))) }

  function ErrorsOf(vc: VCenter): multiset<Error> {
    multiset(VCenterErrors(vc)) + multiset(Faults(VCenterItems(vc)))
  }

  function HitBag(world: seq<VCenter>): multiset<DiscoveryInfo> {
    if world == [] then multiset{} else HitsOf(world[0]) + HitBag(world[1..])
  }

  function ErrorBag(world: seq<VCenter>): multiset<Error> {
    if world == [] then multiset{} else ErrorsOf(world[0]) + ErrorBag(world[1..])
  }

  lemma {:induction false} HitsAreABag(world: seq<VCenter>)
    ensures multiset(WorldHits(world)) == HitBag(world)
  {
    if world != [] {
      HitsAreABag(world[1..]);
      HitsAppend(VCenterItems(world[0]), AllItems(world[1..]));
      hide Hits, VCenterItems;
      assert Hits(AllItems(world)) == Hits(VCenterItems(world[0])) + Hits(AllItems(world[1..]));
    }
  }

  lemma {:induction false} ErrorsAreABag(world: seq<VCenter>)
    ensures multiset(WorldErrors(world)) == ErrorBag(world)
  {
    if world != [] {
      ErrorsAreABag(world[1..]);
      FaultsAppend(VCenterItems(world[0]), AllItems(world[1..]));
      hide Faults, VCenterItems, VCenterErrors;
      assert Faults(AllItems(world)) == Faults(VCenterItems(world[0])) + Faults(AllItems(world[1..]));
      assert WalkErrors(world) == VCenterErrors(world[0]) + WalkErrors(world[1..]);
    }
  }

  lemma {:induction false} BagsSplit(a: seq<VCenter>, vc: VCenter, b: seq<VCenter>)
    ensures HitBag(a + [vc] + b) == HitsOf(vc) + HitBag(a + b)
    ensures ErrorBag(a + [vc] + b) == ErrorsOf(vc) + ErrorBag(a + b)
  {
    hide HitsOf, ErrorsOf;
    if a == [] {
      assert a + [vc] + b == [vc] + b && a + b == b;
    } else {
      assert (a + [vc] + b)[1..] == a[1..] + [vc] + b && (a + b)[1..] == a[1..] + b;
      BagsSplit(a[1..], vc, b);
    }
  }

  /** Go walks the vCenter map in any order: hits and errors are the same multisets in all. */
  lemma {:induction false} PermutedWorlds(world: seq<VCenter>, world': seq<VCenter>)
    requires multiset(world) == multiset(world')
    ensures HitBag(world) == HitBag(world')
    ensures ErrorBag(world) == ErrorBag(world')
    decreases |world|
  {
    hide HitsOf, ErrorsOf;
    if world == [] {
      assert |multiset(world')| == 0;
    } else {
      var k := SplitAtHead(world, world');
      var vc, rest, a, b := world[0], world[1..], world'[..k], world'[k + 1..];
      PermutedWorlds(rest, a + b);
      BagsSplit(a, vc, b);
    }
  }

  /**
   Two searches of one inventory, walked in any two orders under any two schedules, give
   the same kind of answer, and the very same one when it holds a single hit.
   */
  lemma OrderAndScheduleIndependence(world: seq<VCenter>, schedule: seq<Actor>,
                                     world': seq<VCenter>, schedule': seq<Actor>)
    requires multiset(world) == multiset(world')
    requires Follows(Init(world), schedule) && Joined(Run(Init(world), schedule))
    requires Follows(Init(world'), schedule') && Joined(Run(Init(world'), schedule'))
    ensures var s, s' := Run(Init(world), schedule), Run(Init(world'), schedule');
            && (s.found ==> s.info.Some?) && (s'.found ==> s'.info.Some?)
            && SameKind(AnswerOf(s), AnswerOf(s'))
            && (|WorldHits(world)| == 1 ==> AnswerOf(s) == AnswerOf(s') == Found(WorldHits(world)[0]))
  {
    EveryScheduleAnswers(world, schedule);
    EveryScheduleAnswers(world', schedule');
    PermutedWorlds(world, world');
    HitsAreABag(world);
    HitsAreABag(world');
    ErrorsAreABag(world);
    ErrorsAreABag(world');
    JustifiedAnswersAgree(world, AnswerOf(Run(Init(world), schedule)), world', AnswerOf(Run(Init(world'), schedule')));
  }

  lemma JustifiedAnswersAgree(world: seq<VCenter>, answer: Answer, world': seq<VCenter>, answer': Answer)
    requires Justified(world, answer) && Justified(world', answer')
    requires multiset(WorldHits(world)) == multiset(WorldHits(world'))
    requires multiset(WorldErrors(world)) == multiset(WorldErrors(world'))
    ensures SameKind(answer, answer')
    ensures |WorldHits(world)| == 1 ==> answer == answer' == Found(WorldHits(world)[0])
  {
    hide WorldHits, WorldErrors;
    assert |WorldHits(world)| == |multiset(WorldHits(world))| == |WorldHits(world')|;
    assert |WorldErrors(world)| == |multiset(WorldErrors(world))| == |WorldErrors(world')|;
    forall h | h in WorldHits(world') ensures h in WorldHits(world) {
      assert h in multiset(WorldHits(world'));
    }
  }

  // ---------- how much is sent after a hit ----------

  /**
   Once the flag is up, the producer sends at most what it was already committed to: the
   datacenter it checked the flag for.
   */
  lemma {:induction false} PushesAfterFound(s: State, schedule: seq<Actor>)
    requires s.found && Follows(s, schedule)
    ensures |Run(s, schedule).pushed| <= |s.pushed| + |Committed(s.producer)|
    decreases |schedule|
  {
    if schedule != [] {
      var s' := Step(s, schedule[0]);
      assert s'.found && |s'.pushed| + |Committed(s'.producer)| <= |s.pushed| + |Committed(s.producer)| by {
        hide Follows, Run;
        if schedule[0].Produce? { ProducerFrame(s); }
      }
      PushesAfterFound(s', schedule[1..]);
    }
  }

  /** Node and disk searches send one item per datacenter. */
  ghost predicate OneEach(dcs: seq<Datacenter>) {
    forall dc | dc in dcs :: |DatacenterItems(dc)| <= 1
  }

  ghost predicate OneEachIn(e: Enumeration) {
    match e
    case AllFails(_) => true
    case All(dcs) => OneEach(dcs)
    case Named(names) => forall n | n in names && n.Resolved? :: |DatacenterItems(n.datacenter)| <= 1
  }

  ghost predicate OneEachOf(vcs: seq<VCenter>) {
    forall vc | vc in vcs :: OneEachIn(vc.enumeration)
  }

  ghost predicate ProducerOneEach(p: Producer) {
    match p
    case AtVCenter(vcs) => OneEachOf(vcs)
    case Connecting(vc, _, vcs) => OneEachIn(vc.enumeration) && OneEachOf(vcs)
    case Enumerating(e, vcs) => OneEachIn(e) && OneEachOf(vcs)
    case Resolving(names, dcs, vcs) => OneEachIn(Named(names)) && OneEach(dcs) && OneEachOf(vcs)
    case AtDatacenter(dcs, vcs) => OneEach(dcs) && OneEachOf(vcs)
    case Listing(dc, dcs, vcs) => |DatacenterItems(dc)| <= 1 && OneEach(dcs) && OneEachOf(vcs)
    case Pushing(items, dcs, vcs) => |items| <= 1 && OneEach(dcs) && OneEachOf(vcs)
    case Closed => true
  }

  lemma StepKeepsOneEach(s: State, a: Actor)
    requires Enabled(s, a) && ProducerOneEach(s.producer)
    ensures ProducerOneEach(Step(s, a).producer)
  {
    if a.Produce? {
      hide ProducerOneEach;
      if s.producer.Enumerating? || s.producer.Resolving? {
        EnumerationKeepsOneEach(s);
      } else {
        WalkKeepsOneEach(s);
      }
    }
  }

  lemma EnumerationKeepsOneEach(s: State)
    requires ProducerOneEach(s.producer) && (s.producer.Enumerating? || s.producer.Resolving?)
    ensures ProducerEnabled(s) && ProducerOneEach(ProducerStep(s).producer)
  {
    hide OneEachOf, DatacenterItems;
  }

  lemma WalkKeepsOneEach(s: State)
    requires ProducerEnabled(s) && ProducerOneEach(s.producer) && !s.producer.Enumerating? && !s.producer.Resolving?
    ensures ProducerOneEach(ProducerStep(s).producer)
  {
    hide OneEachIn;
  }

  lemma {:induction false} RunKeepsOneEach(s: State, schedule: seq<Actor>)
    requires Follows(s, schedule) && ProducerOneEach(s.producer)
    ensures ProducerOneEach(Run(s, schedule).producer)
    decreases |schedule|
  {
    if schedule != [] {
      StepKeepsOneEach(s, schedule[0]);
      RunKeepsOneEach(Step(s, schedule[0]), schedule[1..]);
    }
  }

  /** In the node and disk searches at most one more item is sent after the flag is up. */
  lemma AtMostOneMorePush(world: seq<VCenter>, before: seq<Actor>, after: seq<Actor>)
    requires OneEachOf(world) && Follows(Init(world), before)
    requires var s := Run(Init(world), before); s.found && Follows(s, after)
    ensures var s := Run(Init(world), before); |Run(s, after).pushed| <= |s.pushed| + 1
  {
    var s := Run(Init(world), before);
    RunKeepsOneEach(Init(world), before);
    PushesAfterFound(s, after);
  }

  // ---------- the search itself ----------

  /** The scheduler: any actor that is able to move, never a blocked one. */
  method PickActor(s: State) returns (a: Actor)
    requires exists a: Actor :: Enabled(s, a)
    ensures Enabled(s, a)
  {
    if * {
      if ProducerEnabled(s) {
        return Produce;
      }
    }
    assert ProducerEnabled(s) ==> Enabled(s, Produce);
    if exists i: nat | i < |s.workers| :: WorkerEnabled(s, i) {
      var i: nat :| i < |s.workers| && WorkerEnabled(s, i);
      return Work(i);
    }
    return Produce;
  }

  /**
   The whole call.  The scheduler is free at every turn, so what is promised holds of every
   interleaving: the call returns, and with an answer the sequential scan justifies.
   */
  method Search(id: string, world: seq<VCenter>) returns (answer: Answer)
    ensures id == "" ==> answer == NotFound
    ensures id != "" ==> Justified(world, answer)
  {
    if id == "" {
      return NotFound;
    }
    var s := Init(world);
    InitHolds(world);
    while !Joined(s)
      invariant Inv(world, s)
      decreases Measure(s)
    {
      LiveWorkerMeansProgress(world, s);
      var a := PickActor(s);
      StepKeepsInv(world, s, a);
      StepLowers(s, a);
      s := Step(s, a);
    }
    JoinedAnswer(world, s);
    answer := AnswerOf(s);
  }
}
