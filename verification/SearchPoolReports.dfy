/**
 Which hit and which error a search reports.  Both cells keep the last value written: of several
 hits the one looked up last, and without a hit the last of all the inventory's errors, each of
 which is met once.
 */
module SearchPoolReports {
  import opened Sequences
  import opened Wrappers
  import opened SearchPool
  import opened SearchPoolInvariant
  import opened SearchPoolProgress

  /**
   The error met in one step: the next one of the walk if it is no longer ahead of the producer, or
   that of the item a worker has just looked up.
   */
  ghost function Met(s: State, a: Actor): seq<Error>
    requires Enabled(s, a)
  {
    var s' := Step(s, a);
    if |RemainingErrors(s'.producer)| < |RemainingErrors(s.producer)| then [RemainingErrors(s.producer)[0]]
    else if |s'.processed| > |s.processed| then FaultOf(s'.processed[|s'.processed| - 1].item)
    else []
  }

  /** The errors met over a schedule, in order. */
  ghost function Log(s: State, schedule: seq<Actor>): seq<Error>
    requires Follows(s, schedule)
    decreases |schedule|
  {
    if schedule == [] then [] else Met(s, schedule[0]) + Log(Step(s, schedule[0]), schedule[1..])
  }

  function TicketFaults(tickets: seq<Ticket>): seq<Error> {
    if tickets == [] then [] else FaultOf(tickets[0].item) + TicketFaults(tickets[1..])
  }

  lemma {:induction false} TicketFaultsAppend(a: seq<Ticket>, b: seq<Ticket>)
    ensures TicketFaults(a + b) == TicketFaults(a) + TicketFaults(b)
  {
    hide FaultOf;
    if a == [] {
      assert a + b == b;
    } else {
      assert (a + b)[1..] == a[1..] + b;
      TicketFaultsAppend(a[1..], b);
      Assoc(FaultOf(a[0].item), TicketFaults(a[1..]), TicketFaults(b));
    }
  }

  lemma {:induction false} TicketFaultsPermutation(a: seq<Ticket>, b: seq<Ticket>)
    requires multiset(a) == multiset(b)
    ensures multiset(TicketFaults(a)) == multiset(TicketFaults(b))
    decreases |a|
  {
    hide FaultOf;
    if a == [] {
      assert |multiset(b)| == 0;
    } else {
      var k := SplitAtHead(a, b);
      TicketFaultsPermutation(a[1..], b[..k] + b[k + 1..]);
      hide TicketFaults;
      assert a == [] + ([a[0]] + a[1..]) && [] + a[1..] == a[1..];
      TicketFaultsInside([], a[0], a[1..]);
      TicketFaultsInside(b[..k], a[0], b[k + 1..]);
      assert b == b[..k] + ([a[0]] + b[k + 1..]);
    }
  }

  lemma TicketFaultsInside(front: seq<Ticket>, t: Ticket, rest: seq<Ticket>)
    ensures multiset(TicketFaults(front + ([t] + rest))) ==
            multiset(FaultOf(t.item)) + multiset(TicketFaults(front + rest))
  {
    TicketFaultsAppend(front, [t] + rest);
    TicketFaultsAppend(front, rest);
    assert ([t] + rest)[1..] == rest;
  }

  lemma {:induction false} TicketFaultsOf(items: seq<Item>)
    ensures TicketFaults(Tickets(items)) == Faults(items)
  {
    hide FaultOf;
    if items == [] {
      assert Tickets(items) == [];
    } else {
      var n := |items| - 1;
      var front, last := items[..n], items[n];
      TicketFaultsOf(front);
      assert items == front + [last] && Tickets(items) == Tickets(front) + [Ticket(n, last)];
      TicketFaultsAppend(Tickets(front), [Ticket(n, last)]);
      FaultsAppend(front, [last]);
      assert TicketFaults([Ticket(n, last)]) == FaultOf(last) == Faults([last]);
    }
  }

  // ---------- one step ----------

  lemma ProducerMeets(s: State)
    requires ProducerEnabled(s) && !s.found && ConnectingInv(s.producer)
    ensures var s', met := ProducerStep(s), Met(s, Produce);
            && RemainingErrors(s.producer) == met + RemainingErrors(s'.producer) && s'.processed == s.processed
            && s'.err == (if met == [] then s.err else Some(met[|met| - 1]))
  {
    ProducerErrors(s);
    ProducerFrame(s);
    hide ProducerStep, RemainingErrors, ProducerEnabled;
  }

  lemma WorkerMeets(s: State, i: nat)
    requires WorkerEnabled(s, i)
    ensures var s', met := WorkerStep(s, i), Met(s, Work(i));
            && s'.producer == s.producer && TicketFaults(s'.processed) == TicketFaults(s.processed) + met
            && s'.err == (if met == [] then s.err else Some(met[|met| - 1]))
  {
    WorkerFrame(s, i);
    hide RemainingErrors, WorkerStep, TicketFaults;
    if s.workers[i].Holding? {
      OneTicket(s.processed, s.workers[i].ticket);
    } else {
      assert TicketFaults(s.processed) + [] == TicketFaults(s.processed);
    }
  }

  lemma OneTicket(tickets: seq<Ticket>, t: Ticket)
    ensures TicketFaults(tickets + [t]) == TicketFaults(tickets) + FaultOf(t.item)
  {
    TicketFaultsAppend(tickets, [t]);
    assert TicketFaults([t]) == FaultOf(t.item) + TicketFaults([]);
  }

  /** All errors are met, still ahead of the producer, or those of items not yet looked up. */
  ghost predicate Accounted(world: seq<VCenter>, s: State, log: seq<Error>) {
    multiset(log) + multiset(RemainingErrors(s.producer)) ==
    multiset(WalkErrors(world)) + multiset(TicketFaults(s.processed))
  }

  lemma MetAhead(log: seq<Error>, met: seq<Error>, ahead: seq<Error>, total: multiset<Error>)
    requires multiset(log) + multiset(met + ahead) == total
    ensures multiset(log + met) + multiset(ahead) == total
  {
  }

  lemma MetInHand(log: seq<Error>, met: seq<Error>, ahead: multiset<Error>, walk: multiset<Error>, looked: seq<Error>)
    requires multiset(log) + ahead == walk + multiset(looked)
    ensures multiset(log + met) + ahead == walk + multiset(looked + met)
  {
    assert multiset(log + met) + ahead == multiset(log) + ahead + multiset(met);
    assert walk + multiset(looked) + multiset(met) == walk + multiset(looked + met);
  }

  lemma StepAccounts(world: seq<VCenter>, s: State, a: Actor, log: seq<Error>)
    requires Inv(world, s) && Enabled(s, a) && !s.found && Accounted(world, s, log)
    ensures Accounted(world, Step(s, a), log + Met(s, a))
    ensures Step(s, a).err == if Met(s, a) == [] then s.err else Some(Met(s, a)[|Met(s, a)| - 1])
  {
    hide TicketInv, OutcomeInv, ExitInv, RemainingErrors, WalkErrors, TicketFaults, Met, ProducerStep, WorkerStep,
         ProducerEnabled, WorkerEnabled;
    match a {
      case Produce =>
        ProducerMeets(s);
        MetAhead(log, Met(s, a), RemainingErrors(Step(s, a).producer),
                 multiset(WalkErrors(world)) + multiset(TicketFaults(s.processed)));
      case Work(i) =>
        WorkerMeets(s, i);
        MetInHand(log, Met(s, a), multiset(RemainingErrors(s.producer)), multiset(WalkErrors(world)),
                  TicketFaults(s.processed));
    }
  }

  lemma {:induction false} FoundStays(s: State, schedule: seq<Actor>)
    requires Follows(s, schedule) && s.found
    ensures Run(s, schedule).found
    decreases |schedule|
  {
    if schedule != [] {
      if schedule[0].Produce? { ProducerFrame(s); }
      FoundStays(Step(s, schedule[0]), schedule[1..]);
    }
  }

  /** What has been met before counts only as long as nothing is met afterwards. */
  lemma {:induction false} RunAccounts(world: seq<VCenter>, s: State, schedule: seq<Actor>, log: seq<Error>)
    requires Inv(world, s) && Follows(s, schedule) && !Run(s, schedule).found && Accounted(world, s, log)
    ensures var met := Log(s, schedule);
            && Accounted(world, Run(s, schedule), log + met)
            && Run(s, schedule).err == if met == [] then s.err else Some(met[|met| - 1])
    decreases |schedule|
  {
    hide Inv, Accounted, Met, Step, Enabled;
    if schedule == [] {
      assert log + [] == log;
    } else {
      if s.found { FoundStays(s, schedule); }
      var a, rest := schedule[0], schedule[1..];
      StepAccounts(world, s, a, log);
      StepKeepsInv(world, s, a);
      RunAccounts(world, Step(s, a), rest, log + Met(s, a));
      Assoc(log, Met(s, a), Log(Step(s, a), rest));
    }
  }

  /**
   Under every schedule a search without a hit meets each error of the walk and of the look-ups
   exactly once, and answers with the one it met last, or with not-found if there is none.
   */
  lemma LastErrorIsReported(world: seq<VCenter>, schedule: seq<Actor>)
    requires Follows(Init(world), schedule) && Joined(Run(Init(world), schedule))
    requires !Run(Init(world), schedule).found
    ensures var log := Log(Init(world), schedule);
            && multiset(log) == multiset(WorldErrors(world))
            && AnswerOf(Run(Init(world), schedule)) == if log == [] then NotFound else Failed(log[|log| - 1])
  {
    var start, s, log := Init(world), Run(Init(world), schedule), Log(Init(world), schedule);
    InitHolds(world);
    NothingMetYet(world);
    hide Inv, Accounted, Init, Run, Log, Follows, AllItems;
    RunAccounts(world, start, schedule, []);
    assert [] + log == log;
    RunKeepsInv(world, start, schedule);
    AllMet(world, s, log);
    assert start.err.None? by { NothingMetYet(world); }
  }

  lemma NothingMetYet(world: seq<VCenter>)
    ensures Accounted(world, Init(world), []) && Init(world).err.None?
  {
    hide WalkErrors;
  }

  lemma AllMet(world: seq<VCenter>, s: State, log: seq<Error>)
    requires Inv(world, s) && Joined(s) && !s.found && Accounted(world, s, log)
    ensures multiset(log) == multiset(WorldErrors(world))
  {
    JoinWithoutHit(world, s);
    hide Inv, Joined, WalkErrors, AllItems, Faults, TicketFaults;
    TicketFaultsPermutation(s.processed, Tickets(AllItems(world)));
    TicketFaultsOf(AllItems(world));
  }

  // ---------- the hit ----------

  /** The hit looked up last. */
  function LastHit(processed: seq<Ticket>): Option<DiscoveryInfo> {
    if processed == [] then None
    else
      var item := processed[|processed| - 1].item;
      if item.outcome.Hit? then Some(InfoOf(item)) else LastHit(processed[..|processed| - 1])
  }

  lemma StepKeepsLastHit(s: State, a: Actor)
    requires Enabled(s, a) && s.info == LastHit(s.processed)
    ensures Step(s, a).info == LastHit(Step(s, a).processed)
  {
    match a
    case Produce => ProducerFrame(s);
    case Work(i) =>
      if s.workers[i].Holding? {
        assert (s.processed + [s.workers[i].ticket])[..|s.processed|] == s.processed;
      }
  }

  lemma {:induction false} RunKeepsLastHit(s: State, schedule: seq<Actor>)
    requires Follows(s, schedule) && s.info == LastHit(s.processed)
    ensures Run(s, schedule).info == LastHit(Run(s, schedule).processed)
    decreases |schedule|
  {
    hide Step, Enabled;
    if schedule != [] {
      StepKeepsLastHit(s, schedule[0]);
      RunKeepsLastHit(Step(s, schedule[0]), schedule[1..]);
    }
  }

  /** Position k is that of the last hit among the tickets looked up. */
  ghost predicate IsLastHit(processed: seq<Ticket>, k: int) {
    && 0 <= k < |processed| && processed[k].item.outcome.Hit?
    && forall j | k < j < |processed| :: !processed[j].item.outcome.Hit?
  }

  lemma {:induction false} LastHitExactly(processed: seq<Ticket>)
    ensures var hit := LastHit(processed);
            && (hit.Some? ==> exists k | IsLastHit(processed, k) :: hit.value == InfoOf(processed[k].item))
            && (hit.None? ==> forall k | 0 <= k < |processed| :: !processed[k].item.outcome.Hit?)
  {
    if processed != [] {
      var n := |processed| - 1;
      var front := processed[..n];
      LastHitExactly(front);
      if processed[n].item.outcome.Hit? {
        assert IsLastHit(processed, n);
      } else if LastHit(front).Some? {
        var k :| IsLastHit(front, k) && LastHit(front).value == InfoOf(front[k].item);
        assert IsLastHit(processed, k);
      }
    }
  }

  /** Under every schedule a search that finds something names what was looked up last of all hits looked up. */
  lemma LastHitIsReported(world: seq<VCenter>, schedule: seq<Actor>)
    requires Follows(Init(world), schedule) && Joined(Run(Init(world), schedule)) && Run(Init(world), schedule).found
    ensures var s := Run(Init(world), schedule);
            s.info.Some? && exists k | IsLastHit(s.processed, k) :: AnswerOf(s) == Found(InfoOf(s.processed[k].item))
  {
    EveryScheduleAnswers(world, schedule);
    RunKeepsLastHit(Init(world), schedule);
    LastHitExactly(Run(Init(world), schedule).processed);
  }
}
