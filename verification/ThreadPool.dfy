/**
 * The pool's own methods, run without interference. Each one is a run of the transition system,
 * so what every run keeps holds after each of them.
 */
module ThreadPool {
  import opened MultiThreadQueue
  import opened PoolSystem

  /** A worker thread as the manager sees it: only an exited one can be joined. */
  datatype Worker = Working | Condemned | Exited

  function Count(ws: seq<Worker>, w: Worker): nat {
    if ws == [] then 0 else Count(ws[..|ws| - 1], w) + (if ws[|ws| - 1] == w then 1 else 0)
  }

  /** The workers that have not exited. */
  function Remaining(ws: seq<Worker>): seq<Worker> {
    if ws == [] then [] else Remaining(ws[..|ws| - 1]) + (if ws[|ws| - 1].Exited? then [] else [ws[|ws| - 1]])
  }

  lemma CountAppend(ws: seq<Worker>, x: Worker)
    ensures forall w :: Count(ws + [x], w) == Count(ws, w) + (if x == w then 1 else 0)
    ensures Remaining(ws + [x]) == Remaining(ws) + (if x.Exited? then [] else [x])
  {
    assert (ws + [x])[..|ws|] == ws;
  }

  lemma {:induction false} CountConcat(ws: seq<Worker>, vs: seq<Worker>)
    ensures forall w :: Count(ws + vs, w) == Count(ws, w) + Count(vs, w)
    decreases |vs|
  {
    if vs == [] {
      assert ws + vs == ws;
    } else {
      var v, x := vs[..|vs| - 1], vs[|vs| - 1];
      CountConcat(ws, v);
      assert ws + vs == (ws + v) + [x] && vs == v + [x];
      CountAppend(ws + v, x);
      CountAppend(v, x);
    }
  }

  /** The queue after n pills have been pushed to its front, one by one. */
  function WithPills(q: Content<Item>, n: nat): Content<Item> {
    if n == 0 then q else WithPills(q, n - 1).PushedFront(Pill)
  }

  lemma OneMorePill(q: Content<Item>, n: nat)
    ensures WithPills(q, n + 1) == WithPills(q, n).PushedFront(Pill)
  {
  }

  lemma NoMorePills(q: Content<Item>)
    ensures WithPills(q, 0) == q
  {
  }

  /** Poisoning does not look at the phase, and changes the queue by one pill. */
  lemma PoisonedPhase(s: State, phase: Phase)
    ensures Poisoned(s.(phase := phase)) == Poisoned(s).(phase := phase)
    ensures Poisoned(s).queue == s.queue.PushedFront(Pill) && Poisoned(s).beingKilled == s.beingKilled + 1
  {
  }

  /** Nobody but the exited workers goes. */
  lemma {:induction false} RemainingCount(ws: seq<Worker>)
    ensures forall w :: Count(Remaining(ws), w) == if w.Exited? then 0 else Count(ws, w)
    ensures |Remaining(ws)| == |ws| - Count(ws, Exited)
  {
    hide Count, Remaining;
    if ws == [] {
      NobodyRemains();
    } else {
      var v, x := ws[..|ws| - 1], ws[|ws| - 1];
      RemainingCount(v);
      assert ws == v + [x] && Remaining(v) + [] == Remaining(v);
      CountAppend(v, x);
      CountAppend(Remaining(v), x);
    }
  }

  lemma NobodyRemains()
    ensures Remaining([]) == [] && forall w :: Count([], w) == 0
  {
  }

  class ThreadPool {
    var mThreads: seq<Worker>
    const config: Config
    var mBeingKilled: int
    const mQueue: MultiThreadQueue<Item>
    var mRunning: bool
    ghost var offered: nat
    ghost var delivered: seq<nat>
    ghost var ledger: Ledger

    ghost function View(phase: Phase): State
      reads this, mQueue
    {
      State(config, mQueue.View(), |mThreads|, Count(mThreads, Condemned), Count(mThreads, Exited), mBeingKilled,
            mRunning, phase, offered, delivered, ledger)
    }

    constructor (c: Config)
      requires c.minThreads <= c.maxThreads < SIZE_MODULUS
      ensures Initial(View(Unstarted)) && config == c && !mRunning && fresh(mQueue)
    {
      config := c;
      mThreads := [];
      mBeingKilled := 0;
      mRunning := false;
      mQueue := new MultiThreadQueue<Item>();
      offered, delivered, ledger := 0, [], Ledger(0, 0, 0, 0, 0, 0);
    }

    method NewThread()
      modifies this
      ensures forall p :: View(p) == old(View(p)).(threads := old(|mThreads|) + 1)
      ensures mThreads == old(mThreads) + [Working]
    {
      CountAppend(mThreads, Working);
      mThreads := mThreads + [Working];
    }

    method PoisonThread()
      modifies this, mQueue
      ensures forall p :: View(p) == Poisoned(old(View(p)))
      ensures mThreads == old(mThreads) && mBeingKilled == old(mBeingKilled) + 1
      ensures mQueue.View() == old(mQueue.View()).PushedFront(Pill)
    {
      ledger := Poisoned(View(Unstarted)).ledger;
      mQueue.PushFront(Pill);
      mBeingKilled := mBeingKilled + 1;
    }

    /** Joins every exited worker and takes it off the list. */
    method CollectKilled(ghost phase: Phase)
      requires phase.Collecting? || phase.LastCollect?
      modifies this
      ensures mThreads == Remaining(old(mThreads)) && mBeingKilled == old(mBeingKilled) - old(Count(mThreads, Exited))
      ensures exists actions :: Runs(old(View(phase)), actions) && View(phase) == RunTo(old(View(phase)), actions)
      ensures Count(mThreads, Exited) == 0
    {
      hide Count, Remaining, Runs, RunTo;
      ghost var start, actions := View(phase), [];
      RunNowhere(start);
      NothingCounted();
      ghost var was := mThreads;
      ghost var seen := 0;
      var it := 0;
      assert was[..0] == [] && mThreads[..0] == [];
      while it != |mThreads|
        invariant 0 <= it <= |mThreads| && seen + |mThreads| - it == |was| && 0 <= seen
        invariant mThreads[it..] == was[seen..] && mThreads[..it] == Remaining(was[..seen])
        invariant mBeingKilled == old(mBeingKilled) - Count(was[..seen], Exited) && Count(mThreads[..it], Exited) == 0
        invariant Runs(start, actions) && View(phase) == RunTo(start, actions)
        decreases |mThreads| - it
      {
        ghost var w, rest := mThreads[it], mThreads[it + 1..];
        assert w == mThreads[it..][0] == was[seen] && rest == mThreads[it..][1..] == was[seen + 1..];
        assert was[..seen + 1] == was[..seen] + [w] && mThreads[..it + 1] == mThreads[..it] + [w];
        CountAppend(was[..seen], w);
        CountAppend(mThreads[..it], w);
        if mThreads[it].Exited? {
          assert mThreads == mThreads[..it] + [w] + rest;
          CountConcat(mThreads[..it] + [w], rest);
          CountConcat(mThreads[..it], rest);
          RunAppend(start, actions, Collect);
          ghost var left := mThreads[..it];
          mThreads := mThreads[..it] + mThreads[it + 1..];
          mBeingKilled := mBeingKilled - 1;
          actions := actions + [Collect];
          assert mThreads[..it] == left && mThreads[it..] == rest;
        } else {
          it := it + 1;
        }
        seen := seen + 1;
      }
      assert was[..seen] == was && mThreads[..it] == mThreads;
    }

    lemma NothingCounted()
      ensures forall w :: Count([], w) == 0
      ensures Remaining([]) == []
    {
    }

    /** Sets the queue limit and spawns the minimum number of workers. */
    method Start()
      requires Inv(View(Unstarted))
      modifies this, mQueue
      ensures exists actions ::
                Runs(old(View(Unstarted)), actions) && View(LoopTop) == RunTo(old(View(Unstarted)), actions)
      ensures mThreads == old(mThreads) + seq(config.minThreads, i => Working) && mRunning
      ensures mQueue.View() == old(mQueue.View()).(dropSize := config.maxQueued * config.maxThreads)
    {
      hide Count, Runs, RunTo, QueueOk, LedgerOk;
      ghost var start, actions := View(Unstarted), [];
      RunNowhere(start);
      RunAppend(start, actions, Begin);
      actions := actions + [Begin];
      mRunning := true;
      mQueue.SetDropSize(config.maxQueued * config.maxThreads);
      var i := 0;
      while i < config.minThreads
        invariant 0 <= i <= config.minThreads && |mThreads| == i && mRunning
        invariant mThreads == seq(i, j => Working)
        invariant mQueue.View() == old(mQueue.View()).(dropSize := config.maxQueued * config.maxThreads)
        invariant Runs(start, actions) && View(Starting) == RunTo(start, actions)
      {
        RunAppend(start, actions, StartThread);
        actions := actions + [StartThread];
        NewThread();
        i := i + 1;
      }
      RunAppend(start, actions, StartManager);
      actions := actions + [StartManager];
    }

    /** One round of the manager's loop. */
    method ManageOnce()
      requires mRunning
      modifies this, mQueue
      ensures exists actions :: Runs(old(View(LoopTop)), actions) && View(LoopTop) == RunTo(old(View(LoopTop)), actions)
      // what the round leaves: the exited workers are gone, and then one of three things has happened
      ensures var left, q := Remaining(old(mThreads)), old(mQueue.View());
              var queued, t, killed := |q.items|, old(|mThreads|), old(mBeingKilled - Count(mThreads, Exited));
              if queued > config.maxQueued * t && |left| < config.maxThreads then
                mThreads == left + [Working] && mQueue.View() == q && mBeingKilled == killed
              else if queued < config.minQueued * t && (|left| - killed) % SIZE_MODULUS > config.minThreads then
                mThreads == left && mQueue.View() == q.PushedFront(Pill) && mBeingKilled == killed + 1
              else
                mThreads == left && mQueue.View() == q && mBeingKilled == killed
    {
      hide Count, Runs, RunTo, Remaining;
      ghost var start, actions := View(LoopTop), [];
      RunNowhere(start);
      RunAppend(start, actions, Sample);
      actions := actions + [Sample];
      var queued := mQueue.Size();
      var threads := |mThreads|;
      ghost var phase := Collecting(queued, threads);
      ghost var middle := View(phase);
      CollectKilled(phase);
      ghost var joins :| Runs(middle, joins) && View(phase) == RunTo(middle, joins);
      RunConcat(start, actions, joins);
      actions := actions + joins;
      RunAppend(start, actions, Decide);
      actions := actions + [Decide];
      if queued > config.maxQueued * threads && |mThreads| < config.maxThreads {
        NewThread();
      } else if queued < config.minQueued * threads && Minus(|mThreads|, mBeingKilled) > config.minThreads {
        PoisonThread();
      }
    }

    /** The final loop: a pill for every thread. */
    method PoisonAll()
      requires !mRunning
      modifies this, mQueue
      ensures exists actions ::
                Runs(old(View(LoopTop)), actions) && View(LastCollect) == RunTo(old(View(LoopTop)), actions)
      ensures mThreads == old(mThreads) && mBeingKilled == old(mBeingKilled) + |mThreads|
      ensures mQueue.View() == WithPills(old(mQueue.View()), |mThreads|)
    {
      hide Count, Runs, RunTo, Remaining, Poisoned, WithPills;
      ghost var start, actions := View(LoopTop), [];
      RunNowhere(start);
      NoMorePills(mQueue.View());
      RunAppend(start, actions, Leave);
      actions := actions + [Leave];
      var i := 0;
      while i < |mThreads|
        invariant 0 <= i <= |mThreads|
        invariant Runs(start, actions) && View(Poisoning(i)) == RunTo(start, actions)
        invariant mThreads == old(mThreads) && mBeingKilled == old(mBeingKilled) + i
        invariant mQueue.View() == WithPills(old(mQueue.View()), i)
        decreases |mThreads| - i
      {
        RunAppend(start, actions, Poison);
        actions := actions + [Poison];
        ghost var before := View(Poisoning(i));
        PoisonThread();
        PoisonedPhase(before, Poisoning(i + 1));
        OneMorePill(old(mQueue.View()), i);
        i := i + 1;
      }
      RunAppend(start, actions, EndPoison);
      actions := actions + [EndPoison];
    }

    /** What the manager does after its loop: a pill for every thread, and a last collection. */
    method ShutDown()
      requires !mRunning
      modifies this, mQueue
      ensures exists actions :: Runs(old(View(LoopTop)), actions) && View(Done) == RunTo(old(View(LoopTop)), actions)
      ensures mThreads == Remaining(old(mThreads)) && mQueue.View() == WithPills(old(mQueue.View()), old(|mThreads|))
      ensures mBeingKilled == old(mBeingKilled + |mThreads| - Count(mThreads, Exited))
    {
      hide Count, Runs, RunTo, Remaining;
      ghost var start := View(LoopTop);
      PoisonAll();
      ghost var actions :| Runs(start, actions) && View(LastCollect) == RunTo(start, actions);
      ghost var middle := View(LastCollect);
      CollectKilled(LastCollect);
      ghost var joins :| Runs(middle, joins) && View(LastCollect) == RunTo(middle, joins);
      RunConcat(start, actions, joins);
      RunAppend(start, actions + joins, EndCollect);
      assert View(Done) == RunTo(start, actions + joins + [EndCollect]);
    }
  }

}
