/**
 The parallel search behind WhichVCandDCByNodeID, WhichVCandDCByFCDId and
 getDIFromMultiVCorDCNonVM: one producer walks vCenters and datacenters and feeds a
 bounded channel, eight workers drain it and race to publish a hit, and the caller joins
 on the workers only.

 The program is a state machine whose steps each touch shared state (channel, found flag,
 result cell, error cell) at most once; a schedule is any sequence of actors.  What the
 vSphere services answer is part of the input: every external call is made at most once
 per position of the walk, so the answers can be written down beforehand.
 */
module SearchPool {
  import opened Wrappers

  const POOL_SIZE: nat := 8
  const QUEUE_SIZE: nat := POOL_SIZE * 10
  const CONNECTION_ATTEMPTS: nat := 3

  type Error = string

  // ---------- what is searched ----------

  datatype DiscoveryInfo = DiscoveryInfo(vcServer: string, dataCenter: string, entity: string)

  /**
   What a worker learns about one item.  Dropped is a failure the worker logs and forgets:
   a failing property fetch in the node search, a failing tag lookup in the zone search.
   */
  datatype Outcome = Miss | Dropped | Fault(error: Error) | Hit(entity: string)

  datatype Item = Item(vcServer: string, dataCenter: string, outcome: Outcome)

  /**
   One datacenter.  Node and disk searches push the datacenter itself, a single item; the
   zone search lists its clusters, which may fail, and pushes each of them.
   */
  datatype Datacenter = ListingFails(error: Error) | Items(items: seq<Item>)

  datatype NameLookup = Blank | Unresolved(error: Error) | Resolved(datacenter: Datacenter)

  datatype Enumeration =
    | AllFails(error: Error)
    | All(datacenters: seq<Datacenter>)
    | Named(names: seq<NameLookup>)

  /** A vCenter refuses its first |refusals| connection attempts and accepts the next one. */
  datatype VCenter = VCenter(refusals: seq<Error>, enumeration: Enumeration)

  // ---------- the running program ----------

  /** A channel element, numbered by the order of sending. */
  datatype Ticket = Ticket(serial: nat, item: Item)

  datatype Producer =
    | AtVCenter(vcs: seq<VCenter>)
    | Connecting(vc: VCenter, attempt: nat, vcs: seq<VCenter>)
    | Enumerating(enumeration: Enumeration, vcs: seq<VCenter>)
    | Resolving(names: seq<NameLookup>, datacenters: seq<Datacenter>, vcs: seq<VCenter>)
    | AtDatacenter(datacenters: seq<Datacenter>, vcs: seq<VCenter>)
    | Listing(datacenter: Datacenter, datacenters: seq<Datacenter>, vcs: seq<VCenter>)
    | Pushing(items: seq<Item>, datacenters: seq<Datacenter>, vcs: seq<VCenter>)
    | Closed

  /** Raising: the worker has written the result cell and is about to set the found flag. */
  datatype Worker = Idle | Holding(ticket: Ticket) | Raising | Done

  /** pushed and processed are history: all items sent, and all tickets looked up, in order. */
  datatype State = State(
    producer: Producer,
    queue: seq<Ticket>,
    workers: seq<Worker>,
    found: bool,
    info: Option<DiscoveryInfo>,
    err: Option<Error>,
    pushed: seq<Item>,
    processed: seq<Ticket>)

  datatype Actor = Produce | Work(index: nat)

  function Init(world: seq<VCenter>): State {
    State(AtVCenter(world), [], seq(POOL_SIZE, _ => Idle), false, None, None, [], [])
  }

  // ---------- steps ----------

  predicate ProducerEnabled(s: State) {
    match s.producer
    case Closed => false
    case Pushing(items, _, _) => items == [] || |s.queue| < QUEUE_SIZE
    case _ => true
  }

  function ProducerStep(s: State): State
    requires ProducerEnabled(s)
  {
    match s.producer
    case AtVCenter(vcs) =>
      if vcs == [] then s.(producer := Closed)
      else if s.found then s.(producer := AtVCenter([]))
      else s.(producer := Connecting(vcs[0], 0, vcs[1..]))
    case Connecting(vc, attempt, vcs) =>
      if attempt >= |vc.refusals| then s.(producer := Enumerating(vc.enumeration, vcs))
      else if attempt + 1 < CONNECTION_ATTEMPTS then s.(producer := Connecting(vc, attempt + 1, vcs))
      else s.(producer := AtVCenter(vcs), err := Some(vc.refusals[attempt]))
    case Enumerating(enumeration, vcs) =>
      (match enumeration
       case AllFails(e) => s.(producer := AtVCenter(vcs), err := Some(e))
       case All(dcs) => s.(producer := AtDatacenter(dcs, vcs))
       case Named(names) => s.(producer := Resolving(names, [], vcs)))
    case Resolving(names, dcs, vcs) =>
      if names == [] then s.(producer := AtDatacenter(dcs, vcs))
      else
        (match names[0]
         case Blank => s.(producer := Resolving(names[1..], dcs, vcs))
         case Unresolved(e) => s.(producer := Resolving(names[1..], dcs, vcs), err := Some(e))
         case Resolved(dc) => s.(producer := Resolving(names[1..], dcs + [dc], vcs)))
    case AtDatacenter(dcs, vcs) =>
      if dcs == [] || s.found then s.(producer := AtVCenter(vcs))
      else s.(producer := Listing(dcs[0], dcs[1..], vcs))
    case Listing(dc, dcs, vcs) =>
      (match dc
       case ListingFails(e) => s.(producer := AtDatacenter(dcs, vcs), err := Some(e))
       case Items(items) => s.(producer := Pushing(items, dcs, vcs)))
    case Pushing(items, dcs, vcs) =>
      if items == [] then s.(producer := AtDatacenter(dcs, vcs))
      else s.(producer := Pushing(items[1..], dcs, vcs),
              queue := s.queue + [Ticket(|s.pushed|, items[0])],
              pushed := s.pushed + [items[0]])
  }

  predicate WorkerEnabled(s: State, i: nat) {
    i < |s.workers| &&
    match s.workers[i]
    case Idle => s.queue != [] || s.producer.Closed?
    case Done => false
    case _ => true
  }

  function WorkerStep(s: State, i: nat): State
    requires WorkerEnabled(s, i)
  {
    match s.workers[i]
    case Idle =>
      if s.queue == [] then s.(workers := s.workers[i := Done])
      else s.(workers := s.workers[i := Holding(s.queue[0])], queue := s.queue[1..])
    case Holding(t) =>
      var s' := s.(processed := s.processed + [t]);
      (match t.item.outcome
       case Hit(_) => s'.(workers := s.workers[i := Raising], info := Some(InfoOf(t.item)))
       case Fault(e) => s'.(workers := s.workers[i := Idle], err := Some(e))
       case _ => s'.(workers := s.workers[i := Idle]))
    case Raising => s.(workers := s.workers[i := Done], found := true)
  }

  function InfoOf(item: Item): DiscoveryInfo
    requires item.outcome.Hit?
  {
    DiscoveryInfo(item.vcServer, item.dataCenter, item.outcome.entity)
  }

  predicate Enabled(s: State, a: Actor) {
    match a
    case Produce => ProducerEnabled(s)
    case Work(i) => WorkerEnabled(s, i)
  }

  function Step(s: State, a: Actor): State
    requires Enabled(s, a)
  {
    match a
    case Produce => ProducerStep(s)
    case Work(i) => WorkerStep(s, i)
  }

  /** The schedule can be followed from s: each actor is enabled when its turn comes. */
  ghost predicate Follows(s: State, schedule: seq<Actor>)
    decreases |schedule|
  {
    schedule == [] || (Enabled(s, schedule[0]) && Follows(Step(s, schedule[0]), schedule[1..]))
  }

  ghost function Run(s: State, schedule: seq<Actor>): State
    requires Follows(s, schedule)
    decreases |schedule|
  {
    if schedule == [] then s else Run(Step(s, schedule[0]), schedule[1..])
  }

  /** wg.Wait() returns: the caller waits for the workers, not for the producer. */
  predicate Joined(s: State) {
    forall i | 0 <= i < |s.workers| :: s.workers[i].Done?
  }

  datatype Answer = Found(info: DiscoveryInfo) | Failed(error: Error) | NotFound

  /** What the caller returns once it is past the join. */
  function AnswerOf(s: State): Answer
    requires s.found ==> s.info.Some?
  {
    if s.found then Found(s.info.value)
    else if s.err.Some? then Failed(s.err.value)
    else NotFound
  }

  // ---------- the reference: one pass over the inventory, in order ----------

  function DatacenterItems(dc: Datacenter): seq<Item> {
    match dc case ListingFails(_) => [] case Items(items) => items
  }

  function ItemsOfAll(dcs: seq<Datacenter>): seq<Item> {
    if dcs == [] then [] else DatacenterItems(dcs[0]) + ItemsOfAll(dcs[1..])
  }

  function NamedDatacenter(name: NameLookup): seq<Datacenter> {
    if name.Resolved? then [name.datacenter] else []
  }

  function NamedDatacenters(names: seq<NameLookup>): seq<Datacenter> {
    if names == [] then [] else NamedDatacenter(names[0]) + NamedDatacenters(names[1..])
  }

  function EnumerationItems(e: Enumeration): seq<Item> {
    match e
    case AllFails(_) => []
    case All(dcs) => ItemsOfAll(dcs)
    case Named(names) => ItemsOfAll(NamedDatacenters(names))
  }

  function VCenterItems(vc: VCenter): seq<Item> {
    if |vc.refusals| >= CONNECTION_ATTEMPTS then [] else EnumerationItems(vc.enumeration)
  }

  /** Everything a full walk would send to the workers. */
  function AllItems(world: seq<VCenter>): seq<Item> {
    if world == [] then [] else VCenterItems(world[0]) + AllItems(world[1..])
  }

  function ListingError(dc: Datacenter): seq<Error> {
    if dc.ListingFails? then [dc.error] else []
  }

  function DatacenterErrors(dcs: seq<Datacenter>): seq<Error> {
    if dcs == [] then [] else ListingError(dcs[0]) + DatacenterErrors(dcs[1..])
  }

  function NameError(name: NameLookup): seq<Error> {
    if name.Unresolved? then [name.error] else []
  }

  function NameErrors(names: seq<NameLookup>): seq<Error> {
    if names == [] then [] else NameError(names[0]) + NameErrors(names[1..])
  }

  function EnumerationErrors(e: Enumeration): seq<Error> {
    match e
    case AllFails(err) => [err]
    case All(dcs) => DatacenterErrors(dcs)
    case Named(names) => NameErrors(names) + DatacenterErrors(NamedDatacenters(names))
  }

  function VCenterErrors(vc: VCenter): seq<Error> {
    if |vc.refusals| >= CONNECTION_ATTEMPTS then [vc.refusals[CONNECTION_ATTEMPTS - 1]]
    else EnumerationErrors(vc.enumeration)
  }

  /** Every error a full walk would record while connecting and enumerating. */
  function WalkErrors(world: seq<VCenter>): seq<Error> {
    if world == [] then [] else VCenterErrors(world[0]) + WalkErrors(world[1..])
  }

  function HitOf(item: Item): seq<DiscoveryInfo> {
    if item.outcome.Hit? then [InfoOf(item)] else []
  }

  function Hits(items: seq<Item>): seq<DiscoveryInfo> {
    if items == [] then [] else HitOf(items[0]) + Hits(items[1..])
  }

  function FaultOf(item: Item): seq<Error> {
    if item.outcome.Fault? then [item.outcome.error] else []
  }

  function Faults(items: seq<Item>): seq<Error> {
    if items == [] then [] else FaultOf(items[0]) + Faults(items[1..])
  }

  function WorldHits(world: seq<VCenter>): seq<DiscoveryInfo> {
    Hits(AllItems(world))
  }

  function WorldErrors(world: seq<VCenter>): seq<Error> {
    WalkErrors(world) + Faults(AllItems(world))
  }

  /** The answers a sequential scan of the same inventory may give. */
  ghost predicate Justified(world: seq<VCenter>, answer: Answer) {
    match answer
    case Found(info) => info in WorldHits(world)
    case Failed(e) => WorldHits(world) == [] && e in WorldErrors(world)
    case NotFound => WorldHits(world) == [] && WorldErrors(world) == []
  }
}
