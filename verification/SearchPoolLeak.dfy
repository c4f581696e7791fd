/**
 The producer is not joined.  This module says exactly which inventories let it stay blocked
 on a full channel after the caller has returned: those that list more items than the channel
 holds after their eighth hit.
 */
module SearchPoolLeak {
  import opened Sequences
  import opened Wrappers
  import opened SearchPool
  import opened SearchPoolInvariant
  import opened SearchPoolProgress

  /** The caller is past the join, nothing can move any more, and the producer never finished. */
  ghost predicate LeavesProducerBehind(world: seq<VCenter>, schedule: seq<Actor>) {
    && Follows(Init(world), schedule)
    && var s := Run(Init(world), schedule); Joined(s) && Stuck(s) && !s.producer.Closed?
  }

  /** Among the first m items there is one hit for each worker, and the rest overfills the channel. */
  ghost predicate Overfills(items: seq<Item>, m: nat) {
    m + 80 < |items| && |Hits(items[..m])| == 8
  }

  // ---------- a producer left behind has met eight hits ----------

  function Leaving(w: Worker): nat {
    if w.Raising? || w.Done? then 1 else 0
  }

  function Leavers(workers: seq<Worker>): nat {
    if workers == [] then 0 else Leaving(workers[0]) + Leavers(workers[1..])
  }

  function HitCount(tickets: seq<Ticket>): nat {
    if tickets == [] then 0 else |HitOf(tickets[0].item)| + HitCount(tickets[1..])
  }

  /**
   The channel is first in, first out; and while it is open a worker leaves only with a hit,
   so as many workers have left or are leaving as hits have been looked up.
   */
  ghost predicate LeaveInv(s: State) {
    && |s.queue| <= |s.pushed|
    && s.queue == Tickets(s.pushed)[|s.pushed| - |s.queue|..]
    && (!s.producer.Closed? ==> Leavers(s.workers) == HitCount(s.processed))
  }

  lemma {:induction false} LeaversUpdate(workers: seq<Worker>, i: nat, w: Worker)
    requires i < |workers|
    ensures Leavers(workers[i := w]) + Leaving(workers[i]) == Leavers(workers) + Leaving(w)
  {
    if i == 0 {
      assert workers[i := w][1..] == workers[1..];
    } else {
      assert workers[i := w][1..] == workers[1..][i - 1 := w];
      LeaversUpdate(workers[1..], i - 1, w);
    }
  }

  lemma {:induction false} HitCountAppend(a: seq<Ticket>, b: seq<Ticket>)
    ensures HitCount(a + b) == HitCount(a) + HitCount(b)
  {
    if a == [] {
      assert a + b == b;
    } else {
      assert (a + b)[1..] == a[1..] + b;
      HitCountAppend(a[1..], b);
    }
  }

  lemma {:induction false} HitCountPermutation(a: seq<Ticket>, b: seq<Ticket>)
    requires multiset(a) == multiset(b)
    ensures HitCount(a) == HitCount(b)
    decreases |a|
  {
    if a == [] {
      assert |multiset(b)| == 0;
    } else {
      var k := SplitAtHead(a, b);
      var front, rest := b[..k], b[k + 1..];
      HitCountPermutation(a[1..], front + rest);
      HitCountAppend(front, [a[0]] + rest);
      HitCountAppend(front, rest);
      assert b == front + ([a[0]] + rest);
    }
  }

  lemma {:induction false} HitCountOfTickets(items: seq<Item>, m: nat)
    requires m <= |items|
    ensures HitCount(Tickets(items)[..m]) == |Hits(items[..m])|
  {
    hide HitOf;
    if m > 0 {
      HitCountOfTickets(items, m - 1);
      var t := Tickets(items)[m - 1];
      assert Tickets(items)[..m] == Tickets(items)[..m - 1] + [t];
      assert items[..m] == items[..m - 1] + [items[m - 1]];
      HitCountAppend(Tickets(items)[..m - 1], [t]);
      HitsAppend(items[..m - 1], [items[m - 1]]);
      assert HitCount([t]) == |HitOf(t.item)|;
      assert Hits([t.item]) == HitOf(t.item);
    }
  }

  lemma {:induction false} NobodyLeft(workers: seq<Worker>)
    requires forall i | 0 <= i < |workers| :: workers[i].Idle?
    ensures Leavers(workers) == 0
  {
    if workers != [] { NobodyLeft(workers[1..]); }
  }

  lemma {:induction false} EverybodyLeft(workers: seq<Worker>)
    requires forall i | 0 <= i < |workers| :: workers[i].Done?
    ensures Leavers(workers) == |workers|
  {
    if workers != [] { EverybodyLeft(workers[1..]); }
  }

  lemma ProducerKeepsLeave(s: State)
    requires LeaveInv(s) && ProducerEnabled(s)
    ensures LeaveInv(ProducerStep(s))
  {
    ProducerFrame(s);
    if s.producer.Pushing? && s.producer.items != [] {
      TicketsPush(s.pushed, s.producer.items[0]);
    }
    hide HitCount, Leavers, Tickets;
  }

  lemma WorkerKeepsLeave(s: State, i: nat)
    requires LeaveInv(s) && WorkerEnabled(s, i)
    ensures LeaveInv(WorkerStep(s, i))
  {
    WorkerCounts(s, i);
    WorkerReceivesFirst(s, i);
    hide WorkerStep, WorkerEnabled, HitCount, Leavers, Tickets;
  }

  lemma WorkerReceivesFirst(s: State, i: nat)
    requires WorkerEnabled(s, i) && |s.queue| <= |s.pushed| && s.queue == Tickets(s.pushed)[|s.pushed| - |s.queue|..]
    ensures var s' := WorkerStep(s, i);
            && s'.pushed == s.pushed && s'.producer == s.producer
            && |s'.queue| <= |s'.pushed| && s'.queue == Tickets(s'.pushed)[|s'.pushed| - |s'.queue|..]
  {
    var all, k := Tickets(s.pushed), |s.pushed| - |s.queue|;
    assert |all| == |s.pushed|;
    hide Tickets;
    assert k < |all| ==> all[k..][1..] == all[k + 1..];
  }

  lemma WorkerCounts(s: State, i: nat)
    requires WorkerEnabled(s, i)
    ensures var s' := WorkerStep(s, i);
            Leavers(s'.workers) - HitCount(s'.processed) == Leavers(s.workers) - HitCount(s.processed) ||
            (s.producer.Closed? && s'.producer.Closed?)
  {
    var s' := WorkerStep(s, i);
    LeaversUpdate(s.workers, i, s'.workers[i]);
    if s.workers[i].Holding? {
      var t := s.workers[i].ticket;
      HitCountAppend(s.processed, [t]);
      assert HitCount([t]) == |HitOf(t.item)|;
    }
    hide HitCount, Leavers;
  }

  lemma {:induction false} RunKeepsLeave(s: State, schedule: seq<Actor>)
    requires LeaveInv(s) && Follows(s, schedule)
    ensures LeaveInv(Run(s, schedule))
    decreases |schedule|
  {
    hide LeaveInv;
    if schedule != [] {
      match schedule[0] {
        case Produce => ProducerKeepsLeave(s);
        case Work(i) => WorkerKeepsLeave(s, i);
      }
      RunKeepsLeave(Step(s, schedule[0]), schedule[1..]);
    }
  }

  /** What was received is the front of the walk, and past the join all of it was looked up. */
  lemma ReceivedIsFront(s: State)
    requires TicketInv(s) && LeaveInv(s) && Joined(s) && !s.producer.Closed?
    ensures |Hits(s.pushed[..|s.pushed| - |s.queue|])| == POOL_SIZE
  {
    var m := |s.pushed| - |s.queue|;
    var all := Tickets(s.pushed);
    NoHands(s.workers);
    assert all == all[..m] + s.queue;
    assert multiset(all) == multiset(all[..m]) + multiset(s.queue);
    assert multiset(s.processed) == multiset(all) - multiset(s.queue);
    HitCountPermutation(s.processed, all[..m]);
    HitCountOfTickets(s.pushed, m);
    EverybodyLeft(s.workers);
  }

  lemma LeftBehindOverfills(world: seq<VCenter>, schedule: seq<Actor>)
    requires LeavesProducerBehind(world, schedule)
    ensures exists m: nat :: Overfills(AllItems(world), m)
  {
    InitHolds(world);
    RunKeepsInv(world, Init(world), schedule);
    NobodyLeft(Init(world).workers);
    assert LeaveInv(Init(world));
    RunKeepsLeave(Init(world), schedule);
    hide Inv, LeaveInv, Follows, Run, Stuck, Joined, Overfills;
    BlockedOverfills(world, Run(Init(world), schedule));
  }

  lemma BlockedOverfills(world: seq<VCenter>, s: State)
    requires Inv(world, s) && LeaveInv(s) && Joined(s) && Stuck(s) && !s.producer.Closed?
    ensures exists m: nat :: Overfills(AllItems(world), m)
  {
    StuckMeansJoined(world, s);
    ReceivedIsFront(s);
    assert s.pushed + Committed(s.producer) <= AllItems(world);
    hide Hits, Stuck, AllItems, Inv, LeaveInv, Joined;
    var m := |s.pushed| - |s.queue|;
    assert AllItems(world)[..m] == s.pushed[..m];
    assert Overfills(AllItems(world), m);
  }

  // ---------- and eight hits followed by a crowd leave it behind ----------

  ghost predicate Reaches(s: State, t: State) {
    exists schedule :: Follows(s, schedule) && Run(s, schedule) == t
  }

  /** A state of the search before any hit is published. */
  ghost predicate Before(world: seq<VCenter>, s: State) {
    Reaches(Init(world), s) && Inv(world, s) && !s.found
  }

  lemma {:induction false} RunAppend(s: State, x: seq<Actor>, y: seq<Actor>)
    requires Follows(s, x) && Follows(Run(s, x), y)
    ensures Follows(s, x + y) && Run(s, x + y) == Run(Run(s, x), y)
    decreases |x|
  {
    if x == [] {
      assert x + y == y;
    } else {
      assert (x + y)[1..] == x[1..] + y;
      RunAppend(Step(s, x[0]), x[1..], y);
    }
  }

  lemma ThenStep(s: State, t: State, a: Actor)
    requires Reaches(s, t) && Enabled(t, a)
    ensures Reaches(s, Step(t, a))
  {
    hide Enabled, Step;
    var x :| Follows(s, x) && Run(s, x) == t;
    assert [a][1..] == [];
    assert Follows(t, [a]) && Run(t, [a]) == Step(t, a);
    RunAppend(s, x, [a]);
  }

  lemma StepBefore(world: seq<VCenter>, s: State, a: Actor)
    requires Before(world, s) && Enabled(s, a) && !Step(s, a).found
    ensures Before(world, Step(s, a))
  {
    hide Reaches, Inv, Enabled, Step;
    ThenStep(Init(world), s, a);
    StepKeepsInv(world, s, a);
  }

  /** The producer walks on to the next item and is about to send it. */
  lemma {:induction false} WalkToItem(world: seq<VCenter>, s: State) returns (t: State)
    requires Before(world, s) && |s.pushed| < |AllItems(world)|
    ensures Before(world, t) && t == s.(producer := t.producer, err := t.err)
    ensures t.producer.Pushing? && t.producer.items != []
    ensures t.producer.items[0] == AllItems(world)[|s.pushed|]
    decreases ProducerCost(s.producer)
  {
    if s.producer.Pushing? && s.producer.items != [] {
      t := s;
      assert (s.pushed + Committed(s.producer))[|s.pushed|] == s.producer.items[0];
    } else {
      NotClosedYet(world, s);
      hide AllItems, Inv;
      ProducerFrame(s);
      ProducerLowers(s);
      StepBefore(world, s, Produce);
      t := WalkToItem(world, ProducerStep(s));
    }
  }

  lemma NotClosedYet(world: seq<VCenter>, s: State)
    requires Inv(world, s) && !s.found && |s.pushed| < |AllItems(world)|
    ensures !s.producer.Closed?
  {
    assert s.pushed + RemainingItems(s.producer) == AllItems(world);
  }

  /** The next item of the walk is sent; nothing else changes but the error cell. */
  lemma SendNext(world: seq<VCenter>, s: State) returns (t: State)
    requires Before(world, s) && |s.pushed| < |AllItems(world)| && |s.queue| < QUEUE_SIZE
    ensures Before(world, t)
    ensures var item := AllItems(world)[|s.pushed|];
            t == s.(producer := t.producer, err := t.err,
                    queue := s.queue + [Ticket(|s.pushed|, item)], pushed := s.pushed + [item])
  {
    t := WalkToItem(world, s);
    hide Before, AllItems;
    StepBefore(world, t, Produce);
    t := Step(t, Produce);
  }

  ghost predicate HoldsHit(w: Worker) {
    w.Holding? && w.ticket.item.outcome.Hit?
  }

  /** h workers hold a hit each and have not looked it up; the others wait. */
  ghost predicate HitsInHand(s: State, h: nat) {
    && h <= POOL_SIZE == |s.workers|
    && forall j | 0 <= j < POOL_SIZE :: if j < h then HoldsHit(s.workers[j]) else s.workers[j].Idle?
  }

  /** A waiting worker takes the one item in the channel, and keeps it if it is a hit. */
  lemma TakeOne(world: seq<VCenter>, s: State, h: nat) returns (t: State)
    requires Before(world, s) && HitsInHand(s, h) && h < POOL_SIZE && |s.queue| == 1
    ensures Before(world, t) && t.pushed == s.pushed && t.queue == []
    ensures HitsInHand(t, h + |HitOf(s.queue[0].item)|)
  {
    hide Inv, Reaches;
    StepBefore(world, s, Work(h));
    t := Step(s, Work(h));
    if !s.queue[0].item.outcome.Hit? {
      StepBefore(world, t, Work(h));
      t := Step(t, Work(h));
    }
  }

  /** The first m items are received, the hits among them kept in hand. */
  lemma {:induction false} CollectHits(world: seq<VCenter>, m: nat) returns (t: State)
    requires m <= |AllItems(world)| && |Hits(AllItems(world)[..m])| <= POOL_SIZE
    requires forall k | 0 <= k < m :: |Hits(AllItems(world)[..k])| < POOL_SIZE
    ensures Before(world, t) && |t.pushed| == m && t.queue == []
    ensures HitsInHand(t, |Hits(AllItems(world)[..m])|)
  {
    var items := AllItems(world);
    if m == 0 {
      t := Init(world);
      InitHolds(world);
      assert Follows(t, []) && Run(t, []) == t;
    } else {
      HitsOneMore(items, m - 1);
      t := CollectHits(world, m - 1);
      hide Before, AllItems, Hits, HitOf;
      t := SendNext(world, t);
      t := TakeOne(world, t, |Hits(items[..m - 1])|);
    }
  }

  lemma HitsOneMore(items: seq<Item>, k: nat)
    requires k < |items|
    ensures |Hits(items[..k + 1])| == |Hits(items[..k])| + |HitOf(items[k])|
  {
    assert items[..k + 1] == items[..k] + [items[k]];
    HitsAppend(items[..k], [items[k]]);
    assert Hits([items[k]]) == HitOf(items[k]) + Hits([]);
  }

  /** The channel fills up while the workers do nothing. */
  lemma {:induction false} FillQueue(world: seq<VCenter>, s: State, n: nat) returns (t: State)
    requires Before(world, s) && |s.queue| + n == QUEUE_SIZE && |s.pushed| + n <= |AllItems(world)|
    ensures Before(world, t) && |t.queue| == QUEUE_SIZE && |t.pushed| == |s.pushed| + n && t.workers == s.workers
    decreases n
  {
    t := s;
    if n > 0 {
      hide Before, AllItems;
      t := SendNext(world, s);
      t := FillQueue(world, t, n - 1);
    }
  }

  /** Every worker reports its hit and leaves; none of them receives again. */
  lemma {:induction false} EmptyHands(start: State, s: State, i: nat) returns (t: State)
    requires i <= POOL_SIZE == |s.workers| && Reaches(start, s)
    requires forall j | 0 <= j < POOL_SIZE :: if j < i then s.workers[j].Done? else HoldsHit(s.workers[j])
    ensures Reaches(start, t) && Joined(t) && t.producer == s.producer && t.queue == s.queue
    decreases POOL_SIZE - i
  {
    t := s;
    if i < POOL_SIZE {
      hide Reaches;
      ThenStep(start, t, Work(i));
      t := Step(t, Work(i));
      ThenStep(start, t, Work(i));
      t := Step(t, Work(i));
      t := EmptyHands(start, t, i + 1);
    }
  }

  /** The eighth hit ends the shortest front with eight hits. */
  lemma {:induction false} ShortestFront(items: seq<Item>, m: nat) returns (k: nat)
    requires m <= |items| && |Hits(items[..m])| == POOL_SIZE
    ensures k <= m && |Hits(items[..k])| == POOL_SIZE
    ensures forall j | 0 <= j < k :: |Hits(items[..j])| < POOL_SIZE
  {
    if m > 0 && |Hits(items[..m - 1])| == POOL_SIZE {
      k := ShortestFront(items, m - 1);
    } else {
      k := m;
      if m > 0 { HitsOneMore(items, m - 1); }
      forall j | 0 <= j < k ensures |Hits(items[..j])| < POOL_SIZE {
        HitsGrow(items, j, m - 1);
      }
    }
  }

  lemma {:induction false} HitsGrow(items: seq<Item>, j: nat, k: nat)
    requires j <= k <= |items|
    ensures |Hits(items[..j])| <= |Hits(items[..k])|
  {
    if j < k {
      HitsGrow(items, j, k - 1);
      HitsOneMore(items, k - 1);
    }
  }

  lemma OverfillsLeavesBehind(world: seq<VCenter>, m: nat)
    requires Overfills(AllItems(world), m)
    ensures exists schedule :: LeavesProducerBehind(world, schedule)
  {
    var k := ShortestFront(AllItems(world), m);
    var s := CollectHits(world, k);
    hide AllItems, Hits, Inv, Reaches;
    s := FillQueue(world, s, QUEUE_SIZE);
    s := WalkToItem(world, s);
    var start := Init(world);
    var t := EmptyHands(start, s, 0);
    BlockedIsStuck(t);
    hide Follows, Run, Joined, Stuck, Overfills;
    var schedule :| Follows(start, schedule) && Run(start, schedule) == t;
    assert LeavesProducerBehind(world, schedule);
  }

  lemma BlockedIsStuck(s: State)
    requires Joined(s) && s.producer.Pushing? && s.producer.items != [] && |s.queue| == QUEUE_SIZE
    ensures Stuck(s) && !s.producer.Closed?
  {
  }

  // ---------- exactly when ----------

  /** Some schedule leaves the producer behind exactly when the inventory overfills the channel. */
  lemma LeftBehindExactly(world: seq<VCenter>)
    ensures (exists schedule :: LeavesProducerBehind(world, schedule)) <==>
            (exists m: nat :: Overfills(AllItems(world), m))
  {
    if schedule :| LeavesProducerBehind(world, schedule) {
      LeftBehindOverfills(world, schedule);
    }
    if m: nat :| Overfills(AllItems(world), m) {
      OverfillsLeavesBehind(world, m);
    }
  }

  /** With at most as many items as the channel and the workers hold the producer always finishes. */
  lemma SmallInventoriesFinish(world: seq<VCenter>, schedule: seq<Actor>)
    requires |AllItems(world)| <= 88
    requires Follows(Init(world), schedule) && Stuck(Run(Init(world), schedule))
    ensures Run(Init(world), schedule).producer.Closed?
  {
    EveryMaximalScheduleJoins(world, schedule);
    if !Run(Init(world), schedule).producer.Closed? {
      LeftBehindOverfills(world, schedule);
      var m: nat :| Overfills(AllItems(world), m);
      HitsAreFew(AllItems(world)[..m]);
      assert false;
    }
  }

  lemma {:induction false} HitsAreFew(items: seq<Item>)
    ensures |Hits(items)| <= |items|
  {
    if items != [] { HitsAreFew(items[1..]); }
  }

  // ---------- one that does ----------

  const HIT: Item := Item("vc", "dc", Hit("cluster"))

  /** One more item than the workers can hold and the channel can store. */
  const CROWD: nat := 89

  lemma {:induction false} OnlyHits(items: seq<Item>)
    requires forall i | 0 <= i < |items| :: items[i] == HIT
    ensures |Hits(items)| == |items|
  {
    if items != [] { OnlyHits(items[1..]); }
  }

  /** One datacenter with enough matching clusters. */
  function CrowdedWorld(): seq<VCenter> {
    [VCenter([], All([Items(seq(CROWD, _ => HIT))]))]
  }

  lemma ProducerCanBeLeftBehind()
    ensures exists schedule :: LeavesProducerBehind(CrowdedWorld(), schedule)
  {
    var items, world := seq(CROWD, _ => HIT), CrowdedWorld();
    assert ItemsOfAll([Items(items)]) == items + ItemsOfAll([]) == items;
    assert AllItems(world) == items + AllItems([]) == items;
    OnlyHits(items[..POOL_SIZE]);
    assert Overfills(AllItems(world), POOL_SIZE);
    OverfillsLeavesBehind(world, POOL_SIZE);
  }
}
