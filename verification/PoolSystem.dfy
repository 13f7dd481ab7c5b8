/**
 * The worker pool as a transition system: producers push, workers pop and exit, the manager
 * samples the queue, collects exited workers, spawns or poisons, and finally poisons everybody.
 * Every action is one atomic step; a run is any sequence of enabled actions.
 */
module PoolSystem {
  import opened MultiThreadQueue

  const SIZE_MODULUS := 0x1_0000_0000_0000_0000

  /** What the queue carries; a job is named by the number of the push that offered it. */
  datatype Item = Pill | Job(id: nat)

  datatype Config = Config(minThreads: nat, maxThreads: nat, minQueued: nat, maxQueued: nat)

  /** Where the manager is: in start, at the top of its loop, inside a round, or shutting down. */
  datatype Phase =
    | Unstarted
    | Starting
    | LoopTop
    | Collecting(queued: nat, threadsThen: nat)   // what the round sampled
    | Poisoning(sent: nat)
    | LastCollect
    | Done

  /** What happened since the counters were last read; the size of the queue then. */
  datatype Ledger = Ledger(size: nat, accepted: nat, refused: nat, fronts: nat, evicted: nat, taken: nat)

  datatype State = State(
    config: Config,
    queue: Content<Item>,
    threads: nat,            // entries of mThreads
    dying: nat,              // workers that took a pill and have not exited yet
    exited: nat,             // exited workers the manager has not collected yet
    beingKilled: int,
    running: bool,
    phase: Phase,
    offered: nat,            // pushes so far
    delivered: seq<nat>,     // the jobs taken by workers, in order
    ledger: Ledger)
  {
    function Live(): int { threads - dying - exited }
  }

  datatype Action =
    | Push            // a producer offers a job
    | Pop             // a worker takes the first item
    | Exit            // a worker that took a pill exits
    | Begin           // start() sets the queue limit
    | StartThread     // start() spawns one of the minimum workers
    | StartManager
    | Sample          // the manager's loop, running: reads the sizes
    | Collect         // joins an exited worker
    | Decide          // ends the round: spawns, poisons, or neither
    | ReadCounters
    | Stop
    | Leave           // the manager's loop, stopped
    | Poison          // one pill of the final loop
    | EndPoison
    | EndCollect

  /** Unsigned difference of sizes. */
  function Minus(a: int, b: int): int { (a - b) % SIZE_MODULUS }

  predicate Manages(p: Phase) { p.LoopTop? || p.Collecting? }

  predicate WantsThread(s: State)
    requires s.phase.Collecting?
  {
    s.phase.queued > s.config.maxQueued * s.phase.threadsThen && s.threads < s.config.maxThreads
  }

  predicate WantsKill(s: State)
    requires s.phase.Collecting?
  {
    && !WantsThread(s)
    && s.phase.queued < s.config.minQueued * s.phase.threadsThen
    && Minus(s.threads, s.beingKilled) > s.config.minThreads
  }

  predicate Enabled(s: State, a: Action) {
    match a
    case Push => true
    case Pop => s.queue.items != [] && s.Live() > 0
    case Exit => s.dying > 0
    case Begin => s.phase.Unstarted?
    case StartThread => s.phase.Starting? && s.threads < s.config.minThreads
    case StartManager => s.phase.Starting? && s.threads >= s.config.minThreads
    case Sample => s.phase.LoopTop? && s.running
    case Collect => (s.phase.Collecting? || s.phase.LastCollect?) && s.exited > 0 && s.threads > 0
    case Decide => s.phase.Collecting?
    case ReadCounters => s.phase.LoopTop?
    case Stop => !s.phase.Unstarted? && !s.phase.Starting?
    case Leave => s.phase.LoopTop? && !s.running
    case Poison => s.phase.Poisoning? && s.phase.sent < s.threads
    case EndPoison => s.phase.Poisoning? && s.phase.sent >= s.threads
    case EndCollect => s.phase.LastCollect?
  }

  /** poisonThread: a pill to the front of the queue. */
  function Poisoned(s: State): State {
    s.(queue := s.queue.PushedFront(Pill), beingKilled := s.beingKilled + 1,
       ledger := if s.queue.Full() then s.ledger.(fronts := s.ledger.fronts + 1, evicted := s.ledger.evicted + 1)
                 else s.ledger.(fronts := s.ledger.fronts + 1))
  }

  function Popped(s: State): State
    requires s.queue.items != []
  {
    var s' := s.(queue := s.queue.Popped(), ledger := s.ledger.(taken := s.ledger.taken + 1));
    match s.queue.items[0]
    case Pill => s'.(dying := s.dying + 1)
    case Job(id) => s'.(delivered := s.delivered + [id])
  }

  function Apply(s: State, a: Action): State
    requires Enabled(s, a)
  {
    match a
    case Push => s.(queue := s.queue.Pushed(Job(s.offered)), offered := s.offered + 1,
                    ledger := if s.queue.Full() then s.ledger.(refused := s.ledger.refused + 1)
                              else s.ledger.(accepted := s.ledger.accepted + 1))
    case Pop => Popped(s)
    case Exit => s.(dying := s.dying - 1, exited := s.exited + 1)
    case Begin => s.(phase := Starting, running := true,
                     queue := s.queue.(dropSize := s.config.maxQueued * s.config.maxThreads))
    case StartThread => s.(threads := s.threads + 1)
    case StartManager => s.(phase := LoopTop)
    case Sample => s.(phase := Collecting(|s.queue.items|, s.threads))
    case Collect => s.(threads := s.threads - 1, exited := s.exited - 1, beingKilled := s.beingKilled - 1)
    case Decide =>
      var s' := s.(phase := LoopTop);
      if WantsThread(s) then s'.(threads := s.threads + 1)
      else if WantsKill(s) then Poisoned(s')
      else s'
    case ReadCounters => s.(queue := s.queue.CountersRead(), ledger := Ledger(|s.queue.items|, 0, 0, 0, 0, 0))
    case Stop => s.(running := false)
    case Leave => s.(phase := Poisoning(0))
    case Poison => Poisoned(s).(phase := Poisoning(s.phase.sent + 1))
    case EndPoison => s.(phase := LastCollect)
    case EndCollect => s.(phase := Done)
  }

  /** A new pool. */
  predicate Initial(s: State) {
    && s.config.minThreads <= s.config.maxThreads < SIZE_MODULUS
    && s.queue == Content([], 0, 0, 0, 0)
    && s.threads == 0 && s.dying == 0 && s.exited == 0 && s.beingKilled == 0
    && s.phase == Unstarted && s.offered == 0 && s.delivered == []
    && s.ledger == Ledger(0, 0, 0, 0, 0, 0)
  }

  // ----- the queue's shape -----

  function Pills(q: seq<Item>): nat {
    if q == [] then 0 else Pills(q[..|q| - 1]) + (if q[|q| - 1].Pill? then 1 else 0)
  }

  function Jobs(q: seq<Item>): seq<nat> {
    if q == [] then [] else Jobs(q[..|q| - 1]) + (if q[|q| - 1].Job? then [q[|q| - 1].id] else [])
  }

  /** The pills come first. */
  ghost predicate PillsFirst(q: seq<Item>) {
    forall i, j :: 0 <= i < j < |q| && q[j].Pill? ==> q[i].Pill?
  }

  ghost predicate Increasing(s: seq<nat>) {
    forall i, j :: 0 <= i < j < |s| ==> s[i] < s[j]
  }

  lemma PillsAppend(q: seq<Item>, x: Item)
    ensures Pills(q + [x]) == Pills(q) + (if x.Pill? then 1 else 0)
    ensures Jobs(q + [x]) == Jobs(q) + (if x.Job? then [x.id] else [])
  {
    assert (q + [x])[..|q|] == q;
  }

  lemma {:induction false} PillsPrepend(q: seq<Item>, x: Item)
    ensures Pills([x] + q) == Pills(q) + (if x.Pill? then 1 else 0)
    ensures Jobs([x] + q) == (if x.Job? then [x.id] else []) + Jobs(q)
    decreases |q|
  {
    if q == [] {
      PillsAppend([], x);
      assert [x] + q == [] + [x];
    } else {
      var q', e := q[..|q| - 1], q[|q| - 1];
      PillsPrepend(q', x);
      PillsAppend(q', e);
      PillsAppend([x] + q', e);
      assert q == q' + [e] && [x] + q == ([x] + q') + [e];
    }
  }

  lemma {:induction false} PillsBound(q: seq<Item>)
    ensures Pills(q) + |Jobs(q)| == |q|
    ensures Pills(q) == |q| <==> forall i :: 0 <= i < |q| ==> q[i].Pill?
  {
    if q == [] {
    } else {
      PillsBound(q[..|q| - 1]);
    }
  }

  // ----- the invariant -----

  /** Pills before jobs; jobs taken and waiting are in the order of their pushes. */
  ghost predicate QueueOk(s: State) {
    && PillsFirst(s.queue.items)
    && InPushOrder(s.delivered + Jobs(s.queue.items), s.offered)
  }

  ghost predicate InPushOrder(jobs: seq<nat>, offered: nat) {
    Increasing(jobs) && forall i :: 0 <= i < |jobs| ==> jobs[i] < offered
  }

  lemma PushOrderSteps(jobs: seq<nat>, offered: nat, e: nat)
    ensures InPushOrder(jobs, offered) ==> InPushOrder(jobs + [offered], offered + 1) && InPushOrder(jobs, offered + 1)
    ensures InPushOrder(jobs + [e], offered) ==> InPushOrder(jobs, offered)
  {
    if InPushOrder(jobs + [e], offered) {
      assert forall i :: 0 <= i < |jobs| ==> (jobs + [e])[i] == jobs[i];
    }
  }

  /** The counters tell what happened since they were read, and explain the size of the queue. */
  ghost predicate LedgerOk(s: State) {
    var l := s.ledger;
    && |s.queue.items| == l.size + l.accepted + l.fronts - l.taken - l.evicted
    && s.queue.inCount == l.accepted % UINT_MODULUS
    && s.queue.outCount == l.taken % UINT_MODULUS
    && s.queue.dropCount == (l.refused + l.evicted) % UINT_MODULUS
  }

  /** Where all the pills went. */
  ghost predicate CountsOk(s: State) {
    var pills, c := Pills(s.queue.items), s.config;
    && c.minThreads <= c.maxThreads < SIZE_MODULUS
    && s.queue.dropSize == (if s.phase.Unstarted? then 0 else c.maxQueued * c.maxThreads)
    && s.dying + s.exited <= s.threads <= c.maxThreads
    && match s.phase
       case Unstarted => s.threads == 0 && s.beingKilled == 0 == pills
       case Starting => s.threads <= c.minThreads && s.dying == 0 == s.exited && s.beingKilled == 0 == pills
       case LoopTop => s.beingKilled == pills + s.dying + s.exited && c.minThreads <= s.threads - s.beingKilled
       case Collecting(_, _) => s.beingKilled == pills + s.dying + s.exited && c.minThreads <= s.threads - s.beingKilled
       case Poisoning(sent) => sent <= s.threads && sent <= pills + s.dying + s.exited <= s.beingKilled
       case LastCollect => s.threads <= pills + s.dying + s.exited <= s.beingKilled
       case Done => s.threads <= pills + s.dying + s.exited <= s.beingKilled
  }

  ghost predicate Inv(s: State) { QueueOk(s) && LedgerOk(s) && CountsOk(s) }

  lemma InitialInv(s: State)
    requires Initial(s)
    ensures Inv(s)
  {
  }

  // ----- what the queue operations do to pills and jobs -----

  lemma PushKeepsQueue(s: State)
    requires QueueOk(s)
    ensures QueueOk(Apply(s, Push)) && Pills(Apply(s, Push).queue.items) == Pills(s.queue.items)
  {
    hide Increasing, Jobs, Pills, InPushOrder;
    var q, x := s.queue.items, Job(s.offered);
    PillsAppend(q, x);
    PushOrderSteps(s.delivered + Jobs(q), s.offered, 0);
    assert s.delivered + (Jobs(q) + [s.offered]) == (s.delivered + Jobs(q)) + [s.offered];
  }

  /** Dropping the last item of a queue. */
  lemma EvictKeepsQueue(q: seq<Item>, delivered: seq<nat>, offered: nat)
    requires q != [] && PillsFirst(q) && InPushOrder(delivered + Jobs(q), offered)
    ensures var q0 := q[..|q| - 1];
            && PillsFirst(q0) && InPushOrder(delivered + Jobs(q0), offered)
            && Pills(q0) == Pills(q) - (if Pills(q) == |q| then 1 else 0)
  {
    hide Increasing, Jobs, Pills, InPushOrder;
    var q0, last := q[..|q| - 1], q[|q| - 1];
    assert q == q0 + [last];
    PillsAppend(q0, last);
    PillsBound(q);
    if last.Job? {
      assert delivered + (Jobs(q0) + [last.id]) == (delivered + Jobs(q0)) + [last.id];
      PushOrderSteps(delivered + Jobs(q0), offered, last.id);
    } else {
      assert Jobs(q0) + [] == Jobs(q0);
    }
  }

  /** A pill at the front evicts at most the last item, which is a pill only if all items are. */
  lemma PoisonKeepsQueue(s: State)
    requires QueueOk(s)
    ensures QueueOk(Poisoned(s))
    ensures var q, q' := s.queue.items, Poisoned(s).queue.items;
            Pills(q') == Pills(q) + (if s.queue.Full() && Pills(q) == |q| then 0 else 1)
  {
    hide Increasing, Jobs, Pills, InPushOrder;
    var q := s.queue.items;
    if s.queue.Full() { EvictKeepsQueue(q, s.delivered, s.offered); }
    var q0 := if s.queue.Full() then q[..|q| - 1] else q;
    PillsPrepend(q0, Pill);
    assert [] + Jobs(q0) == Jobs(q0);
  }

  lemma PopKeepsQueue(s: State)
    requires QueueOk(s) && s.queue.items != []
    ensures QueueOk(Popped(s))
    ensures Pills(Popped(s).queue.items) == Pills(s.queue.items) - (if s.queue.items[0].Pill? then 1 else 0)
    ensures s.queue.items[0].Job? ==> Pills(s.queue.items) == 0
  {
    hide Increasing, Jobs, Pills, InPushOrder;
    var q := s.queue.items;
    var x, q' := q[0], q[1..];
    assert q == [x] + q';
    PillsPrepend(q', x);
    if x.Job? {
      assert s.delivered + ([x.id] + Jobs(q')) == s.delivered + [x.id] + Jobs(q');
      NoPills(q);
    } else {
      assert [] + Jobs(q') == Jobs(q');
    }
  }

  lemma {:induction false} NoPills(q: seq<Item>)
    requires forall i :: 0 <= i < |q| ==> q[i].Job?
    ensures Pills(q) == 0
  {
    if q == [] {
    } else {
      NoPills(q[..|q| - 1]);
    }
  }

  // ----- every step keeps the invariant -----

  lemma Unwrapped(a: int, b: int)
    requires 0 <= a - b < SIZE_MODULUS
    ensures Minus(a, b) == a - b
  {
  }

  lemma LimitHoldsAllWorkers(maxQueued: nat, maxThreads: nat)
    requires maxQueued * maxThreads > 0
    ensures maxThreads <= maxQueued * maxThreads
  {
  }

  /** During a round the evicted item is never a pill. */
  lemma RoundEvictsNoPill(s: State)
    requires Inv(s) && s.phase.Collecting? && WantsKill(s)
    ensures Pills(Poisoned(s).queue.items) == Pills(s.queue.items) + 1
  {
    PillsBound(s.queue.items);
    Unwrapped(s.threads, s.beingKilled);
    PoisonKeepsQueue(s);
    if s.queue.Full() {
      LimitHoldsAllWorkers(s.config.maxQueued, s.config.maxThreads);
    }
  }

  lemma CounterStep(n: nat)
    ensures Inc(n % UINT_MODULUS) == (n + 1) % UINT_MODULUS
  {
  }

  lemma {:induction false} LedgerStep(s: State, a: Action)
    requires LedgerOk(s) && Enabled(s, a)
    ensures LedgerOk(Apply(s, a))
  {
    hide Inc;
    CounterStep(s.ledger.accepted);
    CounterStep(s.ledger.taken);
    CounterStep(s.ledger.refused + s.ledger.evicted);
  }

  lemma PopStep(s: State)
    requires Inv(s) && Enabled(s, Pop)
    ensures CountsOk(Apply(s, Pop)) && QueueOk(Apply(s, Pop))
  {
    hide Pills, Jobs, LedgerOk, InPushOrder, PillsFirst;
    PopKeepsQueue(s);
  }

  lemma DecideStep(s: State)
    requires Inv(s) && Enabled(s, Decide)
    ensures CountsOk(Apply(s, Decide)) && QueueOk(Apply(s, Decide))
  {
    hide Pills, Jobs, LedgerOk, InPushOrder, PillsFirst;
    PoisonKeepsQueue(s);
    if WantsKill(s) {
      Unwrapped(s.threads, s.beingKilled);
      RoundEvictsNoPill(s);
    }
  }

  lemma PoisonStep(s: State)
    requires Inv(s) && Enabled(s, Poison)
    ensures CountsOk(Apply(s, Poison)) && QueueOk(Apply(s, Poison))
  {
    hide Pills, Jobs, LedgerOk, InPushOrder, PillsFirst;
    PoisonKeepsQueue(s);
    PillsBound(s.queue.items);
    if s.queue.Full() { LimitHoldsAllWorkers(s.config.maxQueued, s.config.maxThreads); }
  }

  lemma {:induction false} CountsStep(s: State, a: Action)
    requires Inv(s) && Enabled(s, a)
    ensures CountsOk(Apply(s, a)) && QueueOk(Apply(s, a))
  {
    hide Pills, Jobs, LedgerOk, InPushOrder, PillsFirst, Popped, WantsKill, WantsThread;
    if a.Push? {
      PushKeepsQueue(s);
    } else if a.Pop? {
      PopStep(s);
    } else if a.Decide? {
      DecideStep(s);
    } else if a.Poison? {
      PoisonStep(s);
    }
  }

  lemma {:induction false} StepKeepsInv(s: State, a: Action)
    requires Inv(s) && Enabled(s, a)
    ensures Inv(Apply(s, a))
  {
    LedgerStep(s, a);
    CountsStep(s, a);
  }

  // ----- whole runs -----

  predicate Runs(s: State, actions: seq<Action>)
    decreases |actions|
  {
    actions == [] || (Enabled(s, actions[0]) && Runs(Apply(s, actions[0]), actions[1..]))
  }

  function RunTo(s: State, actions: seq<Action>): State
    requires Runs(s, actions)
    decreases |actions|
  {
    if actions == [] then s else RunTo(Apply(s, actions[0]), actions[1..])
  }

  /** Every run keeps the invariant, whatever the interleaving. */
  lemma {:induction false} RunKeepsInv(s: State, actions: seq<Action>)
    requires Inv(s) && Runs(s, actions)
    ensures Inv(RunTo(s, actions))
    decreases |actions|
  {
    hide Inv, Apply, Enabled;
    if actions == [] {
    } else {
      StepKeepsInv(s, actions[0]);
      RunKeepsInv(Apply(s, actions[0]), actions[1..]);
    }
  }

  lemma {:induction false} RunAppend(s: State, actions: seq<Action>, a: Action)
    requires Runs(s, actions) && Enabled(RunTo(s, actions), a)
    ensures Runs(s, actions + [a]) && RunTo(s, actions + [a]) == Apply(RunTo(s, actions), a)
    decreases |actions|
  {
    hide Apply, Enabled;
    if actions != [] {
      RunAppend(Apply(s, actions[0]), actions[1..], a);
      assert (actions + [a])[0] == actions[0] && (actions + [a])[1..] == actions[1..] + [a];
    } else {
      assert [] + [a] == [a] && [a][1..] == [];
    }
  }

  lemma {:induction false} RunConcat(s: State, first: seq<Action>, second: seq<Action>)
    requires Runs(s, first) && Runs(RunTo(s, first), second)
    ensures Runs(s, first + second) && RunTo(s, first + second) == RunTo(RunTo(s, first), second)
    decreases |first|
  {
    hide Apply, Enabled;
    if first == [] {
      assert first + second == second;
    } else {
      RunConcat(Apply(s, first[0]), first[1..], second);
      assert (first + second)[0] == first[0] && (first + second)[1..] == first[1..] + second;
    }
  }

  /** While the manager runs its rounds, enough workers are alive and not condemned. */
  lemma WorkersStayAlive(s: State, actions: seq<Action>)
    requires Initial(s) && Runs(s, actions) && Manages(RunTo(s, actions).phase)
    ensures var t := RunTo(s, actions);
            && t.config.minThreads <= t.threads - t.beingKilled <= t.Live()
            && t.beingKilled == Pills(t.queue.items) + t.dying + t.exited
            && 0 <= t.beingKilled <= t.threads <= t.config.maxThreads
  {
    InitialInv(s);
    RunKeepsInv(s, actions);
    hide Runs, RunTo, Pills, QueueOk, LedgerOk;
  }

  /** Pills before jobs; what was taken and what waits is a duplicate-free subsequence of the pushes, in order. */
  lemma JobsKeepTheirOrder(s: State, actions: seq<Action>)
    requires Initial(s) && Runs(s, actions)
    ensures var t := RunTo(s, actions);
            && PillsFirst(t.queue.items) && InPushOrder(t.delivered + Jobs(t.queue.items), t.offered)
            && LedgerOk(t)
  {
    InitialInv(s);
    RunKeepsInv(s, actions);
    hide Runs, RunTo, Jobs, InPushOrder, CountsOk;
  }

  /** A positive limit, once respected, is respected for good. */
  lemma {:induction false} SizeStaysBounded(s: State, actions: seq<Action>)
    requires Runs(s, actions) && !s.phase.Unstarted? && 0 < s.queue.dropSize && |s.queue.items| <= s.queue.dropSize
    ensures var t := RunTo(s, actions); t.queue.dropSize == s.queue.dropSize && |t.queue.items| <= t.queue.dropSize
    decreases |actions|
  {
    hide Inc, RunTo, Runs;
    if actions == [] {
      RunNowhere(s);
    } else {
      RunFirst(s, actions);
      var a, t := actions[0], Apply(s, actions[0]);
      assert !t.phase.Unstarted? && t.queue.dropSize == s.queue.dropSize && |t.queue.items| <= t.queue.dropSize;
      SizeStaysBounded(t, actions[1..]);
    }
  }

  lemma RunNowhere(s: State)
    ensures Runs(s, []) && RunTo(s, []) == s
  {
  }

  lemma RunFirst(s: State, actions: seq<Action>)
    requires Runs(s, actions) && actions != []
    ensures Enabled(s, actions[0]) && Runs(Apply(s, actions[0]), actions[1..])
    ensures RunTo(s, actions) == RunTo(Apply(s, actions[0]), actions[1..])
  {
  }

  // ----- what the rounds of the manager come to -----

  /** The round sampled more than it should per thread. */
  predicate Overloaded(s: State)
    requires s.phase.Collecting?
  {
    && s.config.maxQueued * s.phase.threadsThen < s.phase.queued
    && s.config.minQueued * s.phase.threadsThen <= s.phase.queued
  }

  /** The round sampled less than it should per thread. */
  predicate Underloaded(s: State)
    requires s.phase.Collecting?
  {
    && s.phase.queued < s.config.minQueued * s.phase.threadsThen
    && s.phase.queued <= s.config.maxQueued * s.phase.threadsThen
  }

  /** Every round that ends in the run is overloaded, or every one is underloaded, and the manager goes on. */
  predicate Steady(s: State, actions: seq<Action>, high: bool)
    requires Runs(s, actions)
    decreases |actions|
  {
    actions == [] ||
    (&& !actions[0].Leave?
     && (actions[0].Decide? ==> if high then Overloaded(s) else Underloaded(s))
     && Steady(Apply(s, actions[0]), actions[1..], high))
  }

  /** The rounds that end in the run. */
  function Rounds(actions: seq<Action>): nat {
    if actions == [] then 0 else (if actions[0].Decide? then 1 else 0) + Rounds(actions[1..])
  }

  lemma SteadyFirst(s: State, actions: seq<Action>, high: bool)
    requires Runs(s, actions) && actions != [] && Steady(s, actions, high)
    ensures !actions[0].Leave? && (actions[0].Decide? ==> if high then Overloaded(s) else Underloaded(s))
    ensures Enabled(s, actions[0]) && Runs(Apply(s, actions[0]), actions[1..])
    ensures Steady(Apply(s, actions[0]), actions[1..], high)
  {
  }

  /** How one step under steady load changes the threads that no pill is meant for. */
  lemma SteadyStep(s: State, a: Action, high: bool)
    requires Inv(s) && Manages(s.phase) && Enabled(s, a) && !a.Leave?
    requires a.Decide? ==> if high then Overloaded(s) else Underloaded(s)
    ensures var t := Apply(s, a);
            var was, free := s.threads - s.beingKilled, t.threads - t.beingKilled;
            && Manages(t.phase) && t.config == s.config
            && free == was + (if !a.Decide? then 0
                              else if high then (if s.threads < s.config.maxThreads then 1 else 0)
                              else if was > s.config.minThreads then -1 else 0)
            && (high ==> t.beingKilled <= s.beingKilled)
  {
    hide QueueOk, LedgerOk, Pills;
    Unwrapped(s.threads, s.beingKilled);
  }

  /**
   * Under steady overload every round adds a worker until the maximum is reached, whatever producers
   * and workers do meanwhile; condemned workers count until they are collected.
   */
  lemma {:induction false} OverloadFillsThePool(s: State, actions: seq<Action>)
    requires Inv(s) && Manages(s.phase) && Runs(s, actions) && Steady(s, actions, true)
    ensures var t := RunTo(s, actions);
            var was, free := s.threads - s.beingKilled, t.threads - t.beingKilled;
            && t.config == s.config && t.beingKilled <= s.beingKilled && was <= free
            && (free >= was + Rounds(actions) || free >= s.config.maxThreads - s.beingKilled)
            && free <= was + Rounds(actions)
    decreases |actions|
  {
    hide RunTo, Runs, Steady, Inv, Apply, Enabled;
    if actions == [] {
      RunNowhere(s);
    } else {
      SteadyFirst(s, actions, true);
      RunFirst(s, actions);
      StepKeepsInv(s, actions[0]);
      SteadyStep(s, actions[0], true);
      OverloadFillsThePool(Apply(s, actions[0]), actions[1..]);
    }
  }

  /** So a pool without condemned workers has as many as rounds allow, up to the maximum. */
  lemma OverloadReachesTheMaximum(s: State, actions: seq<Action>)
    requires Inv(s) && Manages(s.phase) && Runs(s, actions) && Steady(s, actions, true) && s.beingKilled == 0
    ensures var t, n := RunTo(s, actions), s.threads + Rounds(actions);
            t.beingKilled == 0 && t.threads == if n < s.config.maxThreads then n else s.config.maxThreads
  {
    hide RunTo, Runs, Steady;
    OverloadFillsThePool(s, actions);
    RunKeepsInv(s, actions);
    RunsKeepManaging(s, actions, true);
    hide QueueOk, LedgerOk, Pills;
  }

  lemma {:induction false} RunsKeepManaging(s: State, actions: seq<Action>, high: bool)
    requires Inv(s) && Manages(s.phase) && Runs(s, actions) && Steady(s, actions, high)
    ensures Manages(RunTo(s, actions).phase) && RunTo(s, actions).config == s.config
    decreases |actions|
  {
    hide RunTo, Runs, Steady, Inv, Apply, Enabled;
    if actions == [] {
      RunNowhere(s);
    } else {
      SteadyFirst(s, actions, high);
      RunFirst(s, actions);
      StepKeepsInv(s, actions[0]);
      SteadyStep(s, actions[0], high);
      RunsKeepManaging(Apply(s, actions[0]), actions[1..], high);
    }
  }

  /** Under steady underload every round condemns one worker until only the minimum is left uncondemned. */
  lemma {:induction false} UnderloadReachesTheMinimum(s: State, actions: seq<Action>)
    requires Inv(s) && Manages(s.phase) && Runs(s, actions) && Steady(s, actions, false)
    ensures var t, n := RunTo(s, actions), s.threads - s.beingKilled - Rounds(actions);
            t.threads - t.beingKilled == if n > s.config.minThreads then n else s.config.minThreads
    decreases |actions|
  {
    hide RunTo, Runs, Steady, Apply, Enabled, QueueOk, LedgerOk, Pills;
    if actions == [] {
      RunNowhere(s);
    } else {
      SteadyFirst(s, actions, false);
      RunFirst(s, actions);
      StepKeepsInv(s, actions[0]);
      SteadyStep(s, actions[0], false);
      UnderloadReachesTheMinimum(Apply(s, actions[0]), actions[1..]);
    }
  }

  // ----- shutdown -----

  function Pops(actions: seq<Action>): nat {
    if actions == [] then 0 else (if actions[0].Pop? then 1 else 0) + Pops(actions[1..])
  }

  /** After the final poisoning there is a pill for every live worker, and it is next in line. */
  lemma EveryWorkerHasAPill(s: State)
    requires Inv(s) && (s.phase.LastCollect? || s.phase.Done?)
    ensures s.Live() <= Pills(s.queue.items)
    ensures s.Live() > 0 ==> Enabled(s, Pop) && s.queue.items[0].Pill?
    ensures s.Live() > 0 ==> Apply(s, Pop).Live() == s.Live() - 1
  {
    hide QueueOk, LedgerOk, Pills;
    if s.Live() > 0 {
      PillsBound(s.queue.items);
      assert s.queue.items != [];
      PopKeepsQueue(s);
    }
  }

  /** Once the manager is done, every pop ends a worker: after as many pops as there are live workers, none is left. */
  lemma {:induction false} PopsEndWorkers(s: State, actions: seq<Action>)
    requires Inv(s) && s.phase.Done? && Runs(s, actions)
    ensures RunTo(s, actions).Live() == s.Live() - Pops(actions) && 0 <= RunTo(s, actions).Live()
    ensures RunTo(s, actions).delivered == s.delivered
    decreases |actions|
  {
    hide Inv, RunTo, Runs;
    if actions == [] {
      RunNowhere(s);
      LiveIsNatural(s);
    } else {
      RunFirst(s, actions);
      var a, t := actions[0], Apply(s, actions[0]);
      EveryWorkerHasAPill(s);
      StepKeepsInv(s, a);
      assert t.phase.Done? && t.delivered == s.delivered && t.Live() == s.Live() - (if a.Pop? then 1 else 0);
      PopsEndWorkers(t, actions[1..]);
    }
  }

  lemma LiveIsNatural(s: State)
    requires Inv(s)
    ensures 0 <= s.Live()
  {
  }

  /** Any run to the end of the shutdown leaves no worker waiting on a queue without pills. */
  lemma NobodyLeftWaiting(s: State, actions: seq<Action>)
    requires Initial(s) && Runs(s, actions)
    requires RunTo(s, actions).phase.LastCollect? || RunTo(s, actions).phase.Done?
    ensures var t := RunTo(s, actions);
            && t.Live() <= Pills(t.queue.items) && (Pills(t.queue.items) == 0 ==> t.Live() == 0)
            && 0 <= t.dying + t.exited <= t.beingKilled
  {
    InitialInv(s);
    RunKeepsInv(s, actions);
    EveryWorkerHasAPill(RunTo(s, actions));
    LiveIsNatural(RunTo(s, actions));
    hide Runs, RunTo, Pills, QueueOk, LedgerOk;
  }
}
