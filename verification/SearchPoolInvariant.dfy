/**
 Safety of the parallel search: what every step of every schedule keeps, and what the
 caller may therefore rely on once it is past the join.
 */
module SearchPoolInvariant {
  import opened Sequences
  import opened Wrappers
  import opened SearchPool

  // ---------- what the producer still has to do ----------

  function ItemsAfter(dcs: seq<Datacenter>, vcs: seq<VCenter>): seq<Item> {
    ItemsOfAll(dcs) + AllItems(vcs)
  }

  function ErrorsAfter(dcs: seq<Datacenter>, vcs: seq<VCenter>): seq<Error> {
    DatacenterErrors(dcs) + WalkErrors(vcs)
  }

  /** Items a walk that never sees the found flag will still push. */
  function RemainingItems(p: Producer): seq<Item> {
    match p
    case AtVCenter(vcs) => AllItems(vcs)
    case Connecting(vc, attempt, vcs) => VCenterItems(vc) + AllItems(vcs)
    case Enumerating(e, vcs) => EnumerationItems(e) + AllItems(vcs)
    case Resolving(names, dcs, vcs) => ItemsAfter(dcs + NamedDatacenters(names), vcs)
    case AtDatacenter(dcs, vcs) => ItemsAfter(dcs, vcs)
    case Listing(dc, dcs, vcs) => DatacenterItems(dc) + ItemsAfter(dcs, vcs)
    case Pushing(items, dcs, vcs) => items + ItemsAfter(dcs, vcs)
    case Closed => []
  }

  /** Items pushed before the found flag is read again. */
  function Committed(p: Producer): seq<Item> {
    match p
    case Listing(dc, _, _) => DatacenterItems(dc)
    case Pushing(items, _, _) => items
    case _ => []
  }

  /** Errors a walk that never sees the found flag will still record. */
  function RemainingErrors(p: Producer): seq<Error> {
    match p
    case AtVCenter(vcs) => WalkErrors(vcs)
    case Connecting(vc, attempt, vcs) => VCenterErrors(vc) + WalkErrors(vcs)
    case Enumerating(e, vcs) => EnumerationErrors(e) + WalkErrors(vcs)
    case Resolving(names, dcs, vcs) => NameErrors(names) + ErrorsAfter(dcs + NamedDatacenters(names), vcs)
    case AtDatacenter(dcs, vcs) => ErrorsAfter(dcs, vcs)
    case Listing(dc, dcs, vcs) => ListingError(dc) + ErrorsAfter(dcs, vcs)
    case Pushing(items, dcs, vcs) => ErrorsAfter(dcs, vcs)
    case Closed => []
  }

  // ---------- the invariant ----------

  /** The walk so far is a prefix of the full walk, and a complete one until a hit is published. */
  ghost predicate WalkInv(world: seq<VCenter>, s: State) {
    && s.pushed + Committed(s.producer) <= AllItems(world)
    && (!s.found ==> s.pushed + RemainingItems(s.producer) == AllItems(world))
    && (forall e :: e in RemainingErrors(s.producer) ==> e in WalkErrors(world))
    && (!s.found && s.err.None? ==> RemainingErrors(s.producer) == WalkErrors(world))
    && ConnectingInv(s.producer)
  }

  /** Only refused attempts are behind the producer, and fewer than it is allowed. */
  predicate ConnectingInv(p: Producer) {
    p.Connecting? ==> p.attempt < CONNECTION_ATTEMPTS && p.attempt <= |p.vc.refusals|
  }

  function Tickets(items: seq<Item>): seq<Ticket> {
    seq(|items|, i requires 0 <= i < |items| => Ticket(i, items[i]))
  }

  function InHands(workers: seq<Worker>): multiset<Ticket> {
    if workers == [] then multiset{}
    else Hand(workers[0]) + InHands(workers[1..])
  }

  function Hand(w: Worker): multiset<Ticket> {
    if w.Holding? then multiset{w.ticket} else multiset{}
  }

  /** Each pushed item is in exactly one of: the channel, one worker's hand, the processed list. */
  ghost predicate TicketInv(s: State) {
    && |s.workers| == POOL_SIZE
    && |s.queue| <= QUEUE_SIZE
    && multiset(s.queue) + InHands(s.workers) + multiset(s.processed) == multiset(Tickets(s.pushed))
  }

  ghost predicate Publishing(s: State) {
    s.found || exists i :: 0 <= i < |s.workers| && s.workers[i].Raising?
  }

  /** Results and errors are justified by the inventory, and nothing a worker saw is lost. */
  ghost predicate OutcomeInv(world: seq<VCenter>, s: State) {
    && (s.err.Some? ==> s.err.value in WorldErrors(world))
    && (s.info.Some? ==> s.info.value in WorldHits(world))
    && (Publishing(s) ==> s.info.Some?)
    && (forall t :: t in s.processed && t.item.outcome.Fault? ==> s.err.Some?)
    && (forall t :: t in s.processed && t.item.outcome.Hit? ==> Publishing(s))
  }

  /** A worker leaves without a hit only after the channel is closed and drained. */
  ghost predicate ExitInv(s: State) {
    !s.found && (exists i :: 0 <= i < |s.workers| && s.workers[i].Done?) ==> s.producer.Closed? && s.queue == []
  }

  ghost predicate Inv(world: seq<VCenter>, s: State) {
    WalkInv(world, s) && TicketInv(s) && OutcomeInv(world, s) && ExitInv(s)
  }

  // ---------- sequences, hands and hits ----------

  lemma MultisetShift(a: multiset<Ticket>, x: multiset<Ticket>, y: multiset<Ticket>,
                      x': multiset<Ticket>, y': multiset<Ticket>)
    requires x + y == x' + y'
    ensures (a + x) + y == (a + x') + y'
  {
    assert (a + x) + y == a + (x + y);
  }

  lemma {:induction false} InHandsUpdate(workers: seq<Worker>, i: nat, w: Worker)
    requires i < |workers|
    ensures InHands(workers[i := w]) + Hand(workers[i]) == InHands(workers) + Hand(w)
  {
    if i == 0 {
      assert workers[i := w][1..] == workers[1..];
    } else {
      assert workers[i := w][1..] == workers[1..][i - 1 := w];
      assert workers[1..][i - 1] == workers[i];
      InHandsUpdate(workers[1..], i - 1, w);
      MultisetShift(Hand(workers[0]), InHands(workers[1..][i - 1 := w]), Hand(workers[i]),
                    InHands(workers[1..]), Hand(w));
    }
  }

  lemma {:induction false} HandIsInHands(workers: seq<Worker>, i: nat)
    requires i < |workers|
    ensures Hand(workers[i]) <= InHands(workers)
  {
    if i > 0 {
      HandIsInHands(workers[1..], i - 1);
    }
  }

  lemma {:induction false} NoHands(workers: seq<Worker>)
    requires forall i | 0 <= i < |workers| :: !workers[i].Holding?
    ensures InHands(workers) == multiset{}
  {
    if workers != [] {
      NoHands(workers[1..]);
    }
  }

  lemma {:induction false} OutcomesListed(items: seq<Item>, k: nat)
    requires k < |items|
    ensures items[k].outcome.Hit? ==> InfoOf(items[k]) in Hits(items)
    ensures items[k].outcome.Fault? ==> items[k].outcome.error in Faults(items)
  {
    if k > 0 {
      assert items[k] == items[1..][k - 1];
      OutcomesListed(items[1..], k - 1);
    }
  }

  lemma {:induction false} NothingListed(items: seq<Item>)
    ensures (forall k | 0 <= k < |items| :: !items[k].outcome.Hit?) ==> Hits(items) == []
    ensures (forall k | 0 <= k < |items| :: !items[k].outcome.Fault?) ==> Faults(items) == []
  {
    if items != [] {
      NothingListed(items[1..]);
    }
  }

  lemma TicketsPush(items: seq<Item>, item: Item)
    ensures Tickets(items + [item]) == Tickets(items) + [Ticket(|items|, item)]
  {
  }

  /** A ticket anywhere in the program is the one made for its position of the walk. */
  lemma TicketIsGenuine(world: seq<VCenter>, s: State, t: Ticket)
    requires WalkInv(world, s) && TicketInv(s)
    requires t in s.queue || t in InHands(s.workers) || t in s.processed
    ensures t.serial < |s.pushed| <= |AllItems(world)| && t.item == AllItems(world)[t.serial]
  {
    assert t in multiset(Tickets(s.pushed));
    assert t in Tickets(s.pushed);
    assert s.pushed <= AllItems(world);
  }

  // ---------- every step keeps the invariant ----------

  lemma InitHolds(world: seq<VCenter>)
    ensures Inv(world, Init(world))
  {
    NoHands(Init(world).workers);
    assert Tickets([]) == [];
    hide InHands, Hand, Tickets, AllItems, WalkErrors, Hits, Faults;
    assert [] + AllItems(world) == AllItems(world);
  }

  /** The producer leaves the rest of a vCenter or of the inventory because it saw a hit. */
  predicate Breaks(s: State) {
    s.found && (s.producer.AtVCenter? || s.producer.AtDatacenter?)
  }

  /** No item is skipped or repeated, whatever the listing calls answer. */
  lemma ProducerItems(s: State)
    requires ProducerEnabled(s) && !Breaks(s) && ConnectingInv(s.producer)
    ensures ProducerStep(s).pushed + RemainingItems(ProducerStep(s).producer) ==
            s.pushed + RemainingItems(s.producer)
  {
    if s.producer.AtDatacenter? || s.producer.Listing? || s.producer.Pushing? {
      DatacenterStepItems(s);
    } else if s.producer.Enumerating? || s.producer.Resolving? {
      EnumerationStepItems(s);
    } else {
      hide ItemsAfter, EnumerationItems;
    }
  }

  lemma DatacenterStepItems(s: State)
    requires ProducerEnabled(s) && !Breaks(s)
    requires s.producer.AtDatacenter? || s.producer.Listing? || s.producer.Pushing?
    ensures ProducerStep(s).pushed + RemainingItems(ProducerStep(s).producer) ==
            s.pushed + RemainingItems(s.producer)
  {
    hide ProducerStep, RemainingItems;
    if s.producer.AtDatacenter? {
      NextDatacenterItems(s);
    } else if s.producer.Listing? {
      ListingStepItems(s);
    } else {
      PushingStepItems(s);
    }
  }

  lemma NextDatacenterItems(s: State)
    requires s.producer.AtDatacenter? && !Breaks(s)
    ensures ProducerStep(s).pushed + RemainingItems(ProducerStep(s).producer) ==
            s.pushed + RemainingItems(s.producer)
  {
    hide AllItems, DatacenterItems;
    var dcs, rest := s.producer.datacenters, AllItems(s.producer.vcs);
    if dcs != [] {
      Assoc(DatacenterItems(dcs[0]), ItemsOfAll(dcs[1..]), rest);
    }
  }

  lemma ListingStepItems(s: State)
    requires s.producer.Listing?
    ensures ProducerStep(s).pushed + RemainingItems(ProducerStep(s).producer) ==
            s.pushed + RemainingItems(s.producer)
  {
    hide AllItems, ItemsOfAll, ItemsAfter;
    var after := ItemsAfter(s.producer.datacenters, s.producer.vcs);
    assert [] + after == after;
  }

  lemma PushingStepItems(s: State)
    requires s.producer.Pushing? && ProducerEnabled(s)
    ensures ProducerStep(s).pushed + RemainingItems(ProducerStep(s).producer) ==
            s.pushed + RemainingItems(s.producer)
  {
    hide AllItems, ItemsOfAll, ItemsAfter;
    var items, after := s.producer.items, ItemsAfter(s.producer.datacenters, s.producer.vcs);
    if items != [] {
      assert s.pushed + (items + after) == (s.pushed + [items[0]]) + (items[1..] + after);
    } else {
      assert [] + after == after;
    }
  }

  lemma EnumerationStepItems(s: State)
    requires ProducerEnabled(s) && !Breaks(s)
    requires s.producer.Enumerating? || s.producer.Resolving?
    ensures ProducerStep(s).pushed + RemainingItems(ProducerStep(s).producer) ==
            s.pushed + RemainingItems(s.producer)
  {
    hide AllItems, ItemsOfAll;
    if s.producer.Resolving? {
      hide ItemsAfter;
      ResolvingStep(s.producer.names, s.producer.datacenters);
    } else if s.producer.enumeration.Named? {
      var dcs := NamedDatacenters(s.producer.enumeration.names);
      assert [] + dcs == dcs;
    }
  }

  lemma ResolvingStep(names: seq<NameLookup>, dcs: seq<Datacenter>)
    ensures names == [] ==> dcs + NamedDatacenters(names) == dcs
    ensures names != [] && names[0].Resolved? ==>
              dcs + NamedDatacenters(names) == (dcs + [names[0].datacenter]) + NamedDatacenters(names[1..])
    ensures names != [] && !names[0].Resolved? ==> NamedDatacenters(names) == NamedDatacenters(names[1..])
  {
  }

  /** The step records the error at the head of those ahead, or none and drops none. */
  ghost predicate ErrorsAccounted(s: State, s': State) {
    || (s'.err == s.err && RemainingErrors(s'.producer) == RemainingErrors(s.producer))
    || (s'.err.Some? && RemainingErrors(s.producer) == [s'.err.value] + RemainingErrors(s'.producer))
  }

  lemma ProducerErrors(s: State)
    requires ProducerEnabled(s) && !Breaks(s) && ConnectingInv(s.producer)
    ensures ErrorsAccounted(s, ProducerStep(s))
  {
    if s.producer.AtDatacenter? || s.producer.Listing? || s.producer.Pushing? {
      DatacenterStepErrors(s);
    } else if s.producer.Enumerating? || s.producer.Resolving? {
      EnumerationStepErrors(s);
    } else {
      hide ErrorsAfter, EnumerationErrors;
    }
  }

  lemma DatacenterStepErrors(s: State)
    requires ProducerEnabled(s) && !Breaks(s)
    requires s.producer.AtDatacenter? || s.producer.Listing? || s.producer.Pushing?
    ensures ErrorsAccounted(s, ProducerStep(s))
  {
    hide WalkErrors;
    if !s.producer.AtDatacenter? {
      hide ErrorsAfter;
    }
  }

  lemma EnumerationStepErrors(s: State)
    requires ProducerEnabled(s) && !Breaks(s)
    requires s.producer.Enumerating? || s.producer.Resolving?
    ensures ErrorsAccounted(s, ProducerStep(s))
  {
    hide ErrorsAccounted, ProducerStep;
    if s.producer.Resolving? {
      ResolvingStepErrors(s);
    } else {
      StartStepErrors(s);
    }
  }

  lemma StartStepErrors(s: State)
    requires s.producer.Enumerating?
    ensures ErrorsAccounted(s, ProducerStep(s))
  {
    hide WalkErrors, DatacenterErrors, NamedDatacenters, NameErrors;
    if s.producer.enumeration.Named? {
      var dcs := NamedDatacenters(s.producer.enumeration.names);
      assert [] + dcs == dcs;
      Assoc(NameErrors(s.producer.enumeration.names), DatacenterErrors(dcs), WalkErrors(s.producer.vcs));
    }
  }

  lemma ResolvingStepErrors(s: State)
    requires s.producer.Resolving?
    ensures ErrorsAccounted(s, ProducerStep(s))
  {
    hide WalkErrors, DatacenterErrors, NamedDatacenters, ErrorsAfter;
    ResolvingStep(s.producer.names, s.producer.datacenters);
  }

  lemma ProducerBreaks(world: seq<VCenter>, s: State)
    requires WalkInv(world, s) && ProducerEnabled(s) && Breaks(s)
    ensures WalkInv(world, ProducerStep(s)) && ProducerStep(s).err == s.err
  {
    assert s.pushed + [] == s.pushed;
  }

  lemma PrefixSteps(pushed: seq<Item>, items: seq<Item>, rest: seq<Item>, all: seq<Item>)
    ensures pushed + items <= all && items != [] ==> (pushed + [items[0]]) + items[1..] <= all
    ensures pushed + (items + rest) == all ==> pushed + items <= all
    ensures pushed + items <= all ==> pushed + [] <= all
  {
    if items != [] {
      assert (pushed + [items[0]]) + items[1..] == pushed + items;
    }
    assert pushed + (items + rest) == (pushed + items) + rest;
    assert pushed + [] == pushed;
  }

  lemma CommittedIsPrefix(world: seq<VCenter>, s: State)
    requires WalkInv(world, s) && ProducerEnabled(s) && !Breaks(s)
    ensures ProducerStep(s).pushed + Committed(ProducerStep(s).producer) <= AllItems(world)
  {
    hide AllItems, ItemsAfter, WalkErrors, RemainingErrors;
    PrefixSteps(s.pushed, Committed(s.producer), [], AllItems(world));
    var s' := ProducerStep(s);
    if s.producer.AtDatacenter? && s.producer.datacenters != [] {
      ProducerItems(s);
      PrefixSteps(s'.pushed, Committed(s'.producer), ItemsAfter(s'.producer.datacenters, s'.producer.vcs),
                  AllItems(world));
    }
  }

  lemma ProducerKeepsWalk(world: seq<VCenter>, s: State)
    requires WalkInv(world, s) && ProducerEnabled(s) && !Breaks(s)
    ensures WalkInv(world, ProducerStep(s))
    ensures ProducerStep(s).err != s.err ==> ProducerStep(s).err.Some? &&
                                             ProducerStep(s).err.value in WalkErrors(world)
  {
    hide RemainingItems, RemainingErrors, Committed, AllItems, WalkErrors;
    ProducerItems(s);
    ProducerErrors(s);
    CommittedIsPrefix(world, s);
    var s' := ProducerStep(s);
    assert forall e :: e in RemainingErrors(s'.producer) ==> e in RemainingErrors(s.producer);
  }

  lemma ProducerKeepsTickets(s: State)
    requires TicketInv(s) && ProducerEnabled(s)
    ensures TicketInv(ProducerStep(s))
  {
    var s' := ProducerStep(s);
    if s.producer.Pushing? && s.producer.items != [] {
      TicketsPush(s.pushed, s.producer.items[0]);
      hide Tickets, InHands;
      assert s'.processed == s.processed && s'.workers == s.workers;
    } else {
      ProducerFrame(s);
    }
  }

  /** Only a send changes the channel; the producer never touches the rest but the error cell. */
  lemma ProducerFrame(s: State)
    requires ProducerEnabled(s)
    ensures var s' := ProducerStep(s);
            && s'.(producer := s.producer, queue := s.queue, pushed := s.pushed, err := s.err) == s
            && (s'.queue != s.queue || s'.pushed != s.pushed ==>
                  s.producer.Pushing? && s.producer.items != [])
            && (s.err.Some? ==> s'.err.Some?)
            && !s.producer.Closed?
  {
  }

  lemma ProducerKeepsInv(world: seq<VCenter>, s: State)
    requires Inv(world, s) && ProducerEnabled(s)
    ensures Inv(world, ProducerStep(s))
  {
    hide WalkInv, TicketInv, ProducerStep, ProducerEnabled, AllItems, WalkErrors, Faults, Hits;
    ProducerFrame(s);
    ProducerKeepsTickets(s);
    if Breaks(s) {
      ProducerBreaks(world, s);
    } else {
      ProducerKeepsWalk(world, s);
    }
  }

  lemma WorkerKeepsWalk(world: seq<VCenter>, s: State, i: nat)
    requires WalkInv(world, s) && WorkerEnabled(s, i)
    ensures WalkInv(world, WorkerStep(s, i))
  {
    hide RemainingItems, RemainingErrors, Committed, AllItems, WalkErrors;
  }

  /** Tickets outside the other workers' hands. */
  function Nearby(s: State, i: nat): multiset<Ticket>
    requires i < |s.workers|
  {
    multiset(s.queue) + multiset(s.processed) + Hand(s.workers[i])
  }

  lemma WorkerReceives(s: State, i: nat)
    requires i < |s.workers| && s.workers[i].Idle? && s.queue != []
    ensures Nearby(WorkerStep(s, i), i) == Nearby(s, i)
  {
    var s' := WorkerStep(s, i);
    assert s.queue == [s.queue[0]] + s'.queue;
    assert multiset(s.queue) == Hand(s'.workers[i]) + multiset(s'.queue);
  }

  lemma WorkerLooksUp(s: State, i: nat)
    requires i < |s.workers| && s.workers[i].Holding?
    ensures Nearby(WorkerStep(s, i), i) == Nearby(s, i)
  {
    var s' := WorkerStep(s, i);
    assert multiset(s'.processed) == multiset(s.processed) + Hand(s.workers[i]);
    assert Hand(s'.workers[i]) == multiset{};
  }

  lemma WorkerMovesTicket(s: State, i: nat)
    requires WorkerEnabled(s, i)
    ensures Nearby(WorkerStep(s, i), i) == Nearby(s, i)
  {
    if s.workers[i].Idle? && s.queue != [] {
      WorkerReceives(s, i);
    } else if s.workers[i].Holding? {
      WorkerLooksUp(s, i);
    }
  }

  lemma WorkerKeepsTickets(s: State, i: nat)
    requires TicketInv(s) && WorkerEnabled(s, i)
    ensures TicketInv(WorkerStep(s, i))
  {
    var s' := WorkerStep(s, i);
    assert |s'.queue| <= |s.queue|;
    assert s'.workers == s.workers[i := s'.workers[i]] && s'.pushed == s.pushed;
    WorkerMovesTicket(s, i);
    InHandsUpdate(s.workers, i, s'.workers[i]);
    hide WorkerStep, WorkerEnabled, InHands, Tickets, Hand;
    Conserved(multiset(s.queue), InHands(s.workers), multiset(s.processed), Hand(s'.workers[i]),
              multiset(s'.queue), InHands(s'.workers), multiset(s'.processed), Hand(s.workers[i]));
  }

  /** What leaves one place enters another, so the total is the same. */
  lemma Conserved(queue: multiset<Ticket>, hands: multiset<Ticket>, processed: multiset<Ticket>, put: multiset<Ticket>,
                  queue': multiset<Ticket>, hands': multiset<Ticket>, processed': multiset<Ticket>,
                  taken: multiset<Ticket>)
    requires hands' + taken == hands + put
    requires queue' + processed' + put == queue + processed + taken
    ensures queue' + hands' + processed' == queue + hands + processed
  {
    forall t: Ticket
      ensures (queue' + hands' + processed')[t] == (queue + hands + processed)[t]
    {
      assert (hands' + taken)[t] == (hands + put)[t];
      assert (queue' + processed' + put)[t] == (queue + processed + taken)[t];
    }
  }

  /** What one worker step does to the set of workers publishing, and of those that left. */
  lemma WorkerPublishes(s: State, i: nat)
    requires WorkerEnabled(s, i)
    ensures Publishing(s) ==> Publishing(WorkerStep(s, i))
    ensures s.workers[i].Holding? && s.workers[i].ticket.item.outcome.Hit? ==> Publishing(WorkerStep(s, i))
    ensures Publishing(WorkerStep(s, i)) ==>
              Publishing(s) || (s.workers[i].Holding? && s.workers[i].ticket.item.outcome.Hit?)
  {
    var s' := WorkerStep(s, i);
    assert forall j | 0 <= j < |s.workers| && j != i :: s'.workers[j] == s.workers[j];
    if s.workers[i].Holding? && s.workers[i].ticket.item.outcome.Hit? {
      assert s'.workers[i].Raising?;
    }
  }

  /** What a worker writes after a lookup is justified by the inventory. */
  lemma WorkerWrites(world: seq<VCenter>, s: State, i: nat)
    requires WalkInv(world, s) && TicketInv(s) && WorkerEnabled(s, i)
    ensures var s' := WorkerStep(s, i);
            && (s'.err != s.err ==> s'.err.Some? && s'.err.value in WorldErrors(world))
            && (s'.info != s.info ==> s'.info.Some? && s'.info.value in WorldHits(world))
  {
    if s.workers[i].Holding? {
      var t := s.workers[i].ticket;
      HandIsInHands(s.workers, i);
      assert t in Hand(s.workers[i]);
      hide AllItems, WalkErrors, Faults, Hits;
      TicketIsGenuine(world, s, t);
      OutcomesListed(AllItems(world), t.serial);
    }
  }

  /** What a worker step leaves alone, and what a lookup writes. */
  lemma WorkerFrame(s: State, i: nat)
    requires WorkerEnabled(s, i)
    ensures var s', w := WorkerStep(s, i), s.workers[i];
            && s'.producer == s.producer
            && s'.processed == (if w.Holding? then s.processed + [w.ticket] else s.processed)
            && s'.err == (if w.Holding? && w.ticket.item.outcome.Fault? then Some(w.ticket.item.outcome.error)
                          else s.err)
            && s'.info == (if w.Holding? && w.ticket.item.outcome.Hit? then Some(InfoOf(w.ticket.item)) else s.info)
  {
  }

  lemma WorkerKeepsOutcomes(world: seq<VCenter>, s: State, i: nat)
    requires WalkInv(world, s) && TicketInv(s) && OutcomeInv(world, s) && WorkerEnabled(s, i)
    ensures OutcomeInv(world, WorkerStep(s, i))
  {
    WorkerPublishes(s, i);
    WorkerWrites(world, s, i);
    WorkerFrame(s, i);
    hide WalkInv, TicketInv, Publishing, WorldErrors, WorldHits, WorkerStep, WorkerEnabled;
  }

  lemma WorkerKeepsExits(s: State, i: nat)
    requires ExitInv(s) && WorkerEnabled(s, i)
    ensures ExitInv(WorkerStep(s, i))
  {
    var s' := WorkerStep(s, i);
    assert forall j | 0 <= j < |s.workers| && j != i :: s'.workers[j] == s.workers[j];
  }

  lemma StepKeepsInv(world: seq<VCenter>, s: State, a: Actor)
    requires Inv(world, s) && Enabled(s, a)
    ensures Inv(world, Step(s, a))
  {
    hide WalkInv, TicketInv, OutcomeInv, ExitInv, ProducerStep, ProducerEnabled;
    match a
    case Produce =>
      ProducerKeepsInv(world, s);
    case Work(i) =>
      WorkerKeepsWalk(world, s, i);
      WorkerKeepsTickets(s, i);
      WorkerKeepsOutcomes(world, s, i);
      WorkerKeepsExits(s, i);
  }

  lemma {:induction false} RunKeepsInv(world: seq<VCenter>, s: State, schedule: seq<Actor>)
    requires Inv(world, s) && Follows(s, schedule)
    ensures Inv(world, Run(s, schedule))
    decreases |schedule|
  {
    if schedule != [] {
      StepKeepsInv(world, s, schedule[0]);
      RunKeepsInv(world, Step(s, schedule[0]), schedule[1..]);
    }
  }

  // ---------- past the join ----------

  /**
   When the caller is past the join and no hit was published, nothing was lost or cut
   short: the channel is closed, every item of the inventory was pushed, and each one was
   looked up by exactly one worker.
   */
  lemma JoinWithoutHit(world: seq<VCenter>, s: State)
    requires Inv(world, s) && Joined(s) && !s.found
    ensures s.producer.Closed? && s.queue == [] && s.pushed == AllItems(world)
    ensures multiset(s.processed) == multiset(Tickets(AllItems(world)))
  {
    assert s.workers[0].Done?;
    NoHands(s.workers);
    assert s.pushed + [] == s.pushed;
  }

  lemma JoinedAnswer(world: seq<VCenter>, s: State)
    requires Inv(world, s) && Joined(s)
    ensures s.found <==> s.info.Some?
    ensures Justified(world, AnswerOf(s))
  {
    if !s.found {
      JoinWithoutHit(world, s);
      var items := AllItems(world);
      hide WalkInv, TicketInv, ExitInv, Joined, AllItems;
      forall k | 0 <= k < |items|
        ensures !items[k].outcome.Hit? && (items[k].outcome.Fault? ==> s.err.Some?)
      {
        EveryItemProcessed(s, items, k);
      }
      hide OutcomeInv;
      NothingListed(items);
    }
  }

  lemma EveryItemProcessed(s: State, items: seq<Item>, k: nat)
    requires k < |items| && multiset(s.processed) == multiset(Tickets(items))
    ensures Ticket(k, items[k]) in s.processed
  {
    assert Tickets(items)[k] in multiset(Tickets(items));
    assert Ticket(k, items[k]) in multiset(s.processed);
  }
}
