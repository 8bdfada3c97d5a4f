/** The order in which callbacks are taken, and what puts them into the list. */
module SchedulerOrder {
  import opened Wrappers
  import opened SchedulerModel

  /** The list holds exactly the latest submissions, in the order of submission: ids count submissions. */
  predicate InOrder(s: System) {
    && |s.pending| <= |s.fibers|
    && forall i :: 0 <= i < |s.pending| ==> s.pending[i] == |s.fibers| - |s.pending| + i
  }

  /** What a step may do to the list: nothing, one more fiber at its end, or its head taken. */
  ghost predicate Queues(s: System, s': System) {
    || (s'.pending == s.pending && |s'.fibers| == |s.fibers|)
    || (s'.pending == s.pending + [|s.fibers|] && s'.fibers == s.fibers + [Init])
    || (s.pending != [] && s'.pending == s.pending[1..] && s'.fibers == s.fibers)
  }

  /** The fiber that this worker has back is to be run again. */
  predicate Resubmits(s: System, w: nat)
    requires w < |s.workers|
  {
    var x := s.workers[w];
    x.point.Settling? && x.doing.Some? && x.doing.value < |s.fibers| && s.fibers[x.doing.value].Ready?
  }

  lemma SettlingAdds(s: System, w: nat)
    requires InRange(s) && w < |s.workers| && s.workers[w].point.Settling?
    ensures var s' := AdvanceWorker(s, w);
            if Resubmits(s, w) then s'.pending == s.pending + [|s.fibers|] && s'.fibers == s.fibers + [Init]
            else s'.pending == s.pending && |s'.fibers| == |s.fibers|
  {
    hide FirstRunnable;
  }

  lemma OthersAddNothing(s: System, w: nat)
    requires InRange(s) && w < |s.workers| && !s.workers[w].point.Settling? && !s.workers[w].point.Look?
    ensures var s' := AdvanceWorker(s, w); s'.pending == s.pending && |s'.fibers| == |s.fibers|
  {
    assert s.workers[w].doing.Some? ==> s.workers[w].doing.value < |s.fibers|;
    hide FirstRunnable, InRange;
  }

  lemma AdvanceQueues(s: System, w: nat)
    requires Inv(s) && InRange(s) && w < |s.workers|
    ensures Queues(s, AdvanceWorker(s, w))
  {
    hide Inv, InRange, FirstRunnable, AdvanceWorker, Resubmits;
    if s.workers[w].point.Look? {
      LookFindsHead(s) by { InvHasPending(s); }
      LookTakes(s, w);
    } else if s.workers[w].point.Settling? {
      SettlingAdds(s, w);
    } else {
      OthersAddNothing(s, w);
    }
  }

  lemma InvHasPending(s: System)
    requires Inv(s)
    ensures PendingOk(s)
  {
  }

  /** The worker's search. */
  lemma LookTakes(s: System, w: nat)
    requires InRange(s) && w < |s.workers| && s.workers[w].point.Look? && FirstRunnable(s.pending, s.fibers) == 0
    ensures var s' := AdvanceWorker(s, w);
            && s'.fibers == s.fibers && |s'.workers| == |s.workers|
            && if s.pending == [] then s'.workers[w].point.NoWork? && s'.pending == []
               else s'.workers[w].point.Found? && s'.workers[w].doing == Some(s.pending[0]) && s'.pending == s.pending[1..]
  {
    hide InRange, FirstRunnable;
    if s.pending != [] { assert s.pending[..0] + s.pending[1..] == s.pending[1..]; }
  }

  lemma NextQueues(s: System, step: Step)
    requires Inv(s) && InRange(s)
    ensures Queues(s, Next(s, step))
  {
    match step {
      case Advance(w) => if w < |s.workers| { AdvanceQueues(s, w); }
      case _ =>
    }
  }

  lemma QueuesKeepsOrder(s: System, s': System)
    requires InOrder(s) && Queues(s, s')
    ensures InOrder(s')
  {
  }

  /** In every run the list is in the order of submission, without a gap. */
  lemma {:induction false} RunInOrder(n: nat, steps: seq<Step>)
    ensures InOrder(Run(n, steps))
    decreases |steps|
  {
    hide InOrder, Queues, Next;
    if steps == [] {
      NothingInOrder(n);
    } else {
      var front, last := steps[..|steps| - 1], steps[|steps| - 1];
      RunInOrder(n, front);
      RunUnfolds(n, steps);
      NextQueues(Run(n, front), last);
      QueuesKeepsOrder(Run(n, front), Next(Run(n, front), last));
    }
  }

  lemma NothingInOrder(n: nat)
    ensures InOrder(Started(n))
  {
  }

  lemma LaterWaitsToo(s: System, f: FiberId, g: FiberId)
    requires InOrder(s) && f in s.pending && f < g < |s.fibers|
    ensures g in s.pending
  {
    var i :| 0 <= i < |s.pending| && s.pending[i] == f;
    assert s.pending[i + (g - f)] == g;
  }

  /** In every run, whatever was submitted before a callback that has been taken has been taken, too. */
  lemma TakenBefore(n: nat, steps: seq<Step>, f: FiberId, g: FiberId)
    requires f < g < |Run(n, steps).fibers| && g !in Run(n, steps).pending
    ensures f !in Run(n, steps).pending
  {
    hide InOrder;
    RunInOrder(n, steps);
    if f in Run(n, steps).pending { LaterWaitsToo(Run(n, steps), f, g); }
  }

  /**
   In every run, a worker that looks takes the callback that was submitted first of all that are left, and
   leaves the others as they are; it finds none only when there is none.
   */
  lemma TakesOldest(n: nat, steps: seq<Step>, w: nat)
    requires w < |Run(n, steps).workers| && Run(n, steps).workers[w].point.Look?
    ensures var s := Run(n, steps);
            var s' := Run(n, steps + [Advance(w)]);
            && s'.fibers == s.fibers && w < |s'.workers|
            && if s.pending == [] then s'.workers[w].point.NoWork? && s'.pending == []
               else
                 && s'.workers[w].point.Found? && s'.workers[w].doing.Some?
                 && var f := s'.workers[w].doing.value;
                 && s.pending == [f] + s'.pending
                 && (forall g :: g in s'.pending ==> f < g)
                 && (forall g :: 0 <= g < f ==> g !in s.pending)
  {
    hide *;
    var s := Run(n, steps);
    RunInOrder(n, steps);
    RunMore(n, steps, Advance(w));
    NextAdvances(s, w);
    InvHasPending(s);
    LookFindsHead(s);
    LookTakes(s, w);
    if s.pending != [] { HeadIsOldest(s); }
  }

  lemma NextAdvances(s: System, w: nat)
    requires InRange(s) && w < |s.workers|
    ensures Next(s, Advance(w)) == AdvanceWorker(s, w)
  {
  }

  lemma HeadIsOldest(s: System)
    requires InOrder(s) && s.pending != []
    ensures s.pending == [s.pending[0]] + s.pending[1..]
    ensures forall g :: g in s.pending[1..] ==> s.pending[0] < g
    ensures forall g :: 0 <= g < s.pending[0] ==> g !in s.pending
  {
  }

  /**
   In every run, a worker puts a callback into the list if and only if its fiber came back to be run again:
   as a new fiber, behind all others.
   */
  lemma AdvanceAddsIff(n: nat, steps: seq<Step>, w: nat)
    requires w < |Run(n, steps).workers|
    ensures var s := Run(n, steps);
            var s' := Run(n, steps + [Advance(w)]);
            if Resubmits(s, w) then s'.pending == s.pending + [|s.fibers|] && s'.fibers == s.fibers + [Init]
            else |s'.fibers| == |s.fibers| && |s'.pending| <= |s.pending|
  {
    hide Inv, FirstRunnable, Run, InRange, AdvanceWorker, Resubmits;
    var s := Run(n, steps);
    RunMore(n, steps, Advance(w));
    if s.workers[w].point.Look? {
      TakesOldest(n, steps, w);
      NotSettling(s, w);
    } else if s.workers[w].point.Settling? {
      SettlingAdds(s, w);
    } else {
      OthersAddNothing(s, w);
      NotSettling(s, w);
    }
  }

  lemma NotSettling(s: System, w: nat)
    requires w < |s.workers| && !s.workers[w].point.Settling?
    ensures !Resubmits(s, w)
  {
  }

  // ---------------------------------------------------------------- when a worker leaves

  lemma {:induction false} ActiveIff(ws: seq<Worker>)
    ensures ActiveIn(ws) == 0 <==> forall i :: 0 <= i < |ws| ==> !CountsAsActive(ws[i].point)
    decreases |ws|
  {
    if ws != [] {
      var front, last := ws[..|ws| - 1], ws[|ws| - 1];
      ActiveIff(front);
      assert ws == front + [last];
    }
  }

  /**
   In every run, an idle fiber that asks whether all is done ends if and only if stop() has set both its
   flags, the list is empty, and no worker is between counting a callback and counting it off again.
   */
  lemma IdleEndsIff(n: nat, steps: seq<Step>, w: nat)
    requires w < |Run(n, steps).workers| && Run(n, steps).workers[w].point.Idling?
    ensures var s := Run(n, steps);
            var s' := Run(n, steps + [Advance(w)]);
            && w < |s'.workers| && s'.workers[w].point.IdleLeaving?
            && (HasEnded(s'.workers[w].idle) <==>
                  && s.autoStop && s.clean && s.pending == []
                  && forall i :: 0 <= i < |s.workers| ==> !CountsAsActive(s.workers[i].point))
  {
    var s := Run(n, steps);
    RunMore(n, steps, Advance(w));
    ActiveIff(s.workers);
    InvCountsActive(s);
    hide Inv, FirstRunnable, Run, ActiveIn, AdvanceWorker, InRange;
    IdleAsks(s, w);
  }

  lemma IdleAsks(s: System, w: nat)
    requires InRange(s) && w < |s.workers| && s.workers[w].point.Idling?
    ensures var s' := AdvanceWorker(s, w);
            && w < |s'.workers| && s'.workers[w].point.IdleLeaving?
            && (HasEnded(s'.workers[w].idle) <==> s.autoStop && s.clean && s.pending == [] && s.active == 0)
  {
    hide InRange, FirstRunnable;
  }

  lemma InvCountsActive(s: System)
    requires Inv(s)
    ensures s.active == ActiveIn(s.workers)
  {
  }

  /** No idle fiber has ended before stop() has set both flags. */
  ghost predicate StoppedFirst(s: System) {
    (forall i :: 0 <= i < |s.workers| && HasEnded(s.workers[i].idle) ==> s.autoStop && s.clean) && (s.clean ==> s.autoStop)
  }

  lemma AdvanceKeepsStopped(s: System, w: nat)
    requires InRange(s) && w < |s.workers| && StoppedFirst(s)
    ensures StoppedFirst(AdvanceWorker(s, w))
  {
    hide InRange, AdvanceWorker, HasEnded;
    IdleAfter(s, w);
    OnlyOneMoves(s, w);
  }

  /** An idle fiber ends only when it asks, and all is done. */
  lemma IdleAfter(s: System, w: nat)
    requires InRange(s) && w < |s.workers|
    ensures var s' := AdvanceWorker(s, w);
            |s'.workers| == |s.workers| && (HasEnded(s'.workers[w].idle) ==> HasEnded(s.workers[w].idle) || (s.autoStop && s.clean))
  {
    hide FirstRunnable, InRange;
  }

  lemma OnlyOneMoves(s: System, w: nat)
    requires InRange(s) && w < |s.workers|
    ensures var s' := AdvanceWorker(s, w);
            && s'.autoStop == s.autoStop && s'.clean == s.clean && |s'.workers| == |s.workers|
            && forall i :: 0 <= i < |s.workers| && i != w ==> s'.workers[i] == s.workers[i]
  {
    hide FirstRunnable, InRange, IsClean;
  }

  lemma NextKeepsStopped(s: System, step: Step)
    requires InRange(s) && StoppedFirst(s)
    ensures StoppedFirst(Next(s, step))
  {
    hide InRange, AdvanceWorker, FirstRunnable;
    match step {
      case Advance(w) => if w < |s.workers| { AdvanceKeepsStopped(s, w); }
      case _ =>
    }
  }

  /** In every run, a worker leaves only after stop() has set both flags. */
  lemma {:induction false} LeavesAfterStop(n: nat, steps: seq<Step>, w: nat)
    requires w < |Run(n, steps).workers| && Run(n, steps).workers[w].point.Exited?
    ensures Run(n, steps).autoStop && Run(n, steps).clean
  {
    hide Run, Inv, InRange;
    RunStopsFirst(n, steps);
    ExitedHasEnded(Run(n, steps), w);
  }

  lemma {:induction false} RunStopsFirst(n: nat, steps: seq<Step>)
    ensures StoppedFirst(Run(n, steps))
    decreases |steps|
  {
    hide StoppedFirst, Next;
    if steps == [] {
      NobodyHasEnded(n);
    } else {
      var front, last := steps[..|steps| - 1], steps[|steps| - 1];
      RunStopsFirst(n, front);
      RunUnfolds(n, steps);
      NextKeepsStopped(Run(n, front), last);
    }
  }

  lemma NobodyHasEnded(n: nat)
    ensures StoppedFirst(Started(n))
  {
  }

  lemma ExitedHasEnded(s: System, w: nat)
    requires Inv(s) && w < |s.workers| && s.workers[w].point.Exited?
    ensures HasEnded(s.workers[w].idle)
  {
    assert WorkerOk(s, s.workers[w]);
  }
}
