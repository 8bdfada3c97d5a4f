/**
 The scheduler: N workers that take fibers from one list, run them to their end, and leave once
 stop() has been called and nothing is left to do.  Every access to shared state is a step of its
 own, so a run is any interleaving.
 */
module SchedulerModel {
  import opened Wrappers

  /** Fiber::State. */
  datatype FiberState = Init | Hold | Exec | Term | Ready | Exception

  /** A fiber is named by the order of its creation. */
  type FiberId = nat

  /** Where in `run` a worker stands; each point lies between two accesses to shared state. */
  datatype Point =
    | Start         // about to drop the fiber it holds
    | Look          // about to search the list
    | Found         // holds a fiber, not yet counted as active
    | Entering      // counted, about to switch to the fiber
    | Inside        // the fiber runs
    | Leaving       // back from the fiber, still counted
    | Settling      // about to look at the state the fiber came back with
    | NoWork        // found nothing, about to look at the idle fiber
    | IdleEntering  // about to switch to the idle fiber
    | Idling        // the idle fiber is about to ask IsClean
    | IdleLeaving   // back from the idle fiber
    | Exited

  datatype Worker = Worker(point: Point, doing: Option<FiberId>, idle: FiberState)

  /**
   `fibers` holds the state of every fiber ever submitted; `yielded` the fibers that came back before
   their end, `destroyed` those whose last reference is gone, `leaked` those that no worker holds any
   more but that still hold themselves, and `late` those submitted from outside when every worker had
   already looked for the last time.
   */
  datatype System = System(
    workers: seq<Worker>, fibers: seq<FiberState>, pending: seq<FiberId>,
    active: int, idleThreads: int, autoStop: bool, clean: bool,
    yielded: set<FiberId>, destroyed: set<FiberId>, leaked: set<FiberId>, late: seq<FiberId>)

  /** What happens next: worker w goes on, its callback acts, or an outside thread does something. */
  datatype Step =
    | Advance(w: nat)
    | CallbackSubmits(w: nat)
    | CallbackEnds(w: nat, throws: bool)
    | CallbackYields(w: nat, ready: bool)
    | OutsideSubmits
    | StopBegins
    | StopCleans

  /** The system when start() has returned. */
  function Started(n: nat): System {
    System(seq(n, i => Worker(Start, None, Init)), [], [], 0, 0, false, false, {}, {}, {}, [])
  }

  /** schedulerNoLock: a new fiber at the end of the list. */
  function Submit(s: System): System {
    s.(fibers := s.fibers + [Init], pending := s.pending + [|s.fibers|])
  }

  predicate Runnable(f: FiberState) {
    f.Init? || f.Hold? || f.Ready?
  }

  predicate HasEnded(f: FiberState) {
    f.Term? || f.Exception?
  }

  /**
   The references that a fiber's own stack holds: that of FiberRun, as long as it runs, and that of the
   call it yielded in.
   */
  function OwnReferences(f: FiberState): nat {
    match f
    case Exec => 1
    case Hold => 2
    case Ready => 2
    case _ => 0
  }

  /** The states in which ~Fiber lets a fiber with a stack go. */
  predicate MayBeDestroyed(f: FiberState) {
    f.Init? || f.Term? || f.Exception?
  }

  /** The first fiber of the list that can run; the length of the list when there is none. */
  function FirstRunnable(pending: seq<FiberId>, fibers: seq<FiberState>): (k: nat)
    requires forall i :: 0 <= i < |pending| ==> pending[i] < |fibers|
    ensures k <= |pending|
    ensures k < |pending| ==> Runnable(fibers[pending[k]])
    ensures forall i :: 0 <= i < k ==> !Runnable(fibers[pending[i]])
  {
    if pending == [] || Runnable(fibers[pending[0]]) then 0
    else
      var k := FirstRunnable(pending[1..], fibers);
      assert forall i :: 1 <= i < |pending| ==> pending[i] == pending[1..][i - 1];
      k + 1
  }

  predicate IsClean(s: System) {
    s.autoStop && s.clean && s.pending == [] && s.active == 0
  }

  /** The worker has looked for the last time. */
  predicate HasLooked(x: Worker) {
    x.point == Exited || (x.point == NoWork && HasEnded(x.idle))
  }

  predicate AllLooked(s: System) {
    forall i :: 0 <= i < |s.workers| ==> HasLooked(s.workers[i])
  }

  function Put(s: System, w: nat, x: Worker): System
    requires w < |s.workers|
  {
    s.(workers := s.workers[w := x])
  }

  /** Every fiber named in the list or held by a worker exists. */
  ghost predicate InRange(s: System) {
    && (forall i :: 0 <= i < |s.pending| ==> s.pending[i] < |s.fibers|)
    && forall i :: 0 <= i < |s.workers| && s.workers[i].doing.Some? ==> s.workers[i].doing.value < |s.fibers|
  }

  /** Worker w goes on by one step of `run` or of `Idle`. */
  ghost function AdvanceWorker(s: System, w: nat): System
    requires w < |s.workers| && InRange(s)
  {
    var x := s.workers[w];
    match x.point
    case Start =>
      var s' := Put(s, w, x.(point := Look, doing := None));
      if x.doing.None? then s'
      else if OwnReferences(s.fibers[x.doing.value]) == 0 then s'.(destroyed := s.destroyed + {x.doing.value})
      else s'.(leaked := s.leaked + {x.doing.value})
    case Look =>
      var k := FirstRunnable(s.pending, s.fibers);
      if k < |s.pending|
      then Put(s, w, x.(point := Found, doing := Some(s.pending[k]))).(pending := s.pending[..k] + s.pending[k + 1..])
      else Put(s, w, x.(point := NoWork))
    case Found => Put(s, w, x.(point := Entering)).(active := s.active + 1)
    case Entering =>
      if x.doing.None? then s
      else Put(s, w, x.(point := Inside)).(fibers := s.fibers[x.doing.value := Exec])
    case Inside => s
    case Leaving => Put(s, w, x.(point := Settling)).(active := s.active - 1)
    case Settling =>
      if x.doing.None? then s
      else
        var s' := Put(s, w, x.(point := Start));
        var f := s.fibers[x.doing.value];
        if f == Ready then Submit(s')
        else if !HasEnded(f) then s'.(fibers := s.fibers[x.doing.value := Hold])
        else s'
    case NoWork =>
      if HasEnded(x.idle) then Put(s, w, x.(point := Exited))
      else Put(s, w, x.(point := IdleEntering)).(idleThreads := s.idleThreads + 1)
    case IdleEntering => Put(s, w, x.(point := Idling, idle := Exec))
    case Idling => Put(s, w, x.(point := IdleLeaving, idle := if IsClean(s) then Term else Hold))
    case IdleLeaving => Put(s, w, x.(point := Start)).(idleThreads := s.idleThreads - 1)
    case Exited => s
  }

  /** The running callback of worker w comes back, its fiber in state f. */
  ghost function ComeBack(s: System, w: nat, f: FiberState): System
    requires w < |s.workers| && InRange(s)
  {
    var x := s.workers[w];
    if x.point == Inside && x.doing.Some?
    then Put(s, w, x.(point := Leaving)).(fibers := s.fibers[x.doing.value := f])
    else s
  }

  /** One step; a step that cannot be taken changes nothing. */
  ghost function Next(s: System, step: Step): System
    requires InRange(s)
  {
    match step
    case Advance(w) => if w < |s.workers| then AdvanceWorker(s, w) else s
    case CallbackSubmits(w) => if w < |s.workers| && s.workers[w].point == Inside then Submit(s) else s
    case CallbackEnds(w, throws) => if w < |s.workers| then ComeBack(s, w, if throws then Exception else Term) else s
    case CallbackYields(w, ready) =>
      if w < |s.workers| && s.workers[w].point == Inside && s.workers[w].doing.Some?
      then ComeBack(s, w, if ready then Ready else Hold).(yielded := s.yielded + {s.workers[w].doing.value})
      else s
    case OutsideSubmits => if AllLooked(s) then Submit(s).(late := s.late + [|s.fibers|]) else Submit(s)
    case StopBegins => s.(autoStop := true)
    case StopCleans => if s.autoStop then s.(clean := true) else s
  }

  // ---------------------------------------------------------------- the invariant

  /** What the held fiber's state may be at each point. */
  predicate HeldAt(p: Point, f: FiberState) {
    match p
    case Start => !f.Init? && !f.Exec?
    case Found => f.Init?
    case Entering => f.Init?
    case Inside => f.Exec?
    case Leaving => !f.Init? && !f.Exec?
    case Settling => !f.Init? && !f.Exec?
    case _ => false
  }

  predicate MustHold(p: Point) {
    p.Found? || p.Entering? || p.Inside? || p.Leaving? || p.Settling?
  }

  predicate IdleAt(p: Point, idle: FiberState) {
    match p
    case Idling => idle.Exec?
    case IdleEntering => idle.Init? || idle.Hold?
    case Exited => idle.Term?
    case _ => idle.Init? || idle.Hold? || idle.Term?
  }

  ghost predicate WorkerOk(s: System, x: Worker) {
    && IdleAt(x.point, x.idle) && (x.idle.Term? ==> s.autoStop)
    && (x.doing.None? ==> !MustHold(x.point))
    && (x.doing.Some? ==>
          && x.doing.value < |s.fibers| && HeldAt(x.point, s.fibers[x.doing.value])
          && x.doing.value !in s.pending && x.doing.value !in s.destroyed && x.doing.value !in s.leaked)
  }

  ghost predicate WorkersOk(s: System) {
    forall i :: 0 <= i < |s.workers| ==> WorkerOk(s, s.workers[i])
  }

  /** No fiber is held by two workers. */
  ghost predicate HeldOnce(s: System) {
    forall i, j :: 0 <= i < j < |s.workers| && s.workers[i].doing.Some? ==> s.workers[i].doing != s.workers[j].doing
  }

  ghost predicate PendingOk(s: System) {
    && (forall i :: 0 <= i < |s.pending| ==>
          s.pending[i] < |s.fibers| && s.fibers[s.pending[i]] == Init
          && s.pending[i] !in s.destroyed && s.pending[i] !in s.leaked)
    && forall i, j :: 0 <= i < j < |s.pending| ==> s.pending[i] != s.pending[j]
  }

  ghost predicate Held(s: System, f: FiberId) {
    exists i :: 0 <= i < |s.workers| && s.workers[i].doing == Some(f)
  }

  /** Every fiber is in the list, held by a worker, destroyed, having ended, or leaked, having yielded. */
  ghost predicate FibersOk(s: System) {
    && (forall f :: 0 <= f < |s.fibers| ==> f in s.pending || Held(s, f) || f in s.destroyed || f in s.leaked)
    && (forall f :: 0 <= f < |s.fibers| && (s.fibers[f].Hold? || s.fibers[f].Ready?) ==> f in s.yielded)
    && (forall f :: f in s.yielded ==> f < |s.fibers| && (s.fibers[f].Hold? || s.fibers[f].Ready?))
    && (forall f :: f in s.destroyed ==> f < |s.fibers| && HasEnded(s.fibers[f]))
    && (forall f :: f in s.leaked ==> f < |s.fibers| && (s.fibers[f].Hold? || s.fibers[f].Ready?))
  }

  predicate CountsAsActive(p: Point) {
    p.Entering? || p.Inside? || p.Leaving?
  }

  function ActiveIn(ws: seq<Worker>): nat {
    if ws == [] then 0
    else ActiveIn(ws[..|ws| - 1]) + if CountsAsActive(ws[|ws| - 1].point) then 1 else 0
  }

  /** When no worker will look again, the list is what was submitted too late. */
  ghost predicate Drained(s: System) {
    (AllLooked(s) ==> s.pending == s.late) && (!AllLooked(s) ==> s.late == [])
  }

  ghost predicate Inv(s: System) {
    && WorkersOk(s) && HeldOnce(s) && PendingOk(s) && FibersOk(s)
    && s.active == ActiveIn(s.workers) && Drained(s)
  }

  lemma InvInRange(s: System)
    requires Inv(s)
    ensures InRange(s)
  {
    forall i | 0 <= i < |s.workers| && s.workers[i].doing.Some?
      ensures s.workers[i].doing.value < |s.fibers|
    {
      assert WorkerOk(s, s.workers[i]);
    }
  }

  // ---------------------------------------------------------------- every step keeps the invariant

  lemma {:induction false} ActivePut(ws: seq<Worker>, w: nat, x: Worker)
    requires w < |ws|
    ensures ActiveIn(ws[w := x]) == ActiveIn(ws) - (if CountsAsActive(ws[w].point) then 1 else 0)
                                    + (if CountsAsActive(x.point) then 1 else 0)
    decreases |ws|
  {
    var us := ws[w := x];
    if w == |ws| - 1 {
      assert us[..w] == ws[..w];
    } else {
      assert us[..|us| - 1] == ws[..|ws| - 1][w := x];
      ActivePut(ws[..|ws| - 1], w, x);
    }
  }

  /** Worker w moves on without touching fibers: what it holds and the list stay. */
  lemma MoveKeepsInv(s: System, s': System, w: nat, x: Worker)
    requires Inv(s) && w < |s.workers| && x.doing == s.workers[w].doing
    requires s' == Put(s, w, x).(active := s'.active, idleThreads := s'.idleThreads)
    requires s'.active == ActiveIn(s'.workers) && WorkerOk(s, x)
    requires !HasLooked(s.workers[w]) ==> !HasLooked(x) || s.pending == []
    requires HasLooked(s.workers[w]) ==> HasLooked(x)
    ensures Inv(s')
  {
    hide WorkersOk, PendingOk, FibersOk, ActiveIn, AllLooked, HeldOnce, Held;
    MoveKeepsWorkers(s, s', w, x);
    MoveKeepsHeld(s, s', w, x);
    MoveKeepsFibers(s, s');
    MoveKeepsLooked(s, s', w, x);
  }

  lemma MoveKeepsWorkers(s: System, s': System, w: nat, x: Worker)
    requires WorkersOk(s) && w < |s.workers| && WorkerOk(s, x)
    requires s' == Put(s, w, x).(active := s'.active, idleThreads := s'.idleThreads)
    ensures WorkersOk(s')
  {
    hide HeldAt, IdleAt;
    forall i | 0 <= i < |s'.workers|
      ensures WorkerOk(s', s'.workers[i])
    {
      assert WorkerOk(s, s.workers[i]);
    }
  }

  lemma MoveKeepsHeld(s: System, s': System, w: nat, x: Worker)
    requires HeldOnce(s) && w < |s.workers| && x.doing == s.workers[w].doing && s'.workers == s.workers[w := x]
    ensures HeldOnce(s') && forall f: FiberId :: Held(s, f) ==> Held(s', f)
  {
    HeldPut(s, w, x);
    assert forall f: FiberId :: Held(s', f) == Held(Put(s, w, x), f);
  }

  lemma MoveKeepsFibers(s: System, s': System)
    requires PendingOk(s) && FibersOk(s) && s' == s.(workers := s'.workers, active := s'.active, idleThreads := s'.idleThreads)
    requires forall f: FiberId :: Held(s, f) ==> Held(s', f)
    ensures PendingOk(s') && FibersOk(s')
  {
    hide Held;
  }

  lemma MoveKeepsLooked(s: System, s': System, w: nat, x: Worker)
    requires Drained(s) && w < |s.workers| && s'.workers == s.workers[w := x] && s'.pending == s.pending && s'.late == s.late
    requires !HasLooked(s.workers[w]) ==> !HasLooked(x) || s.pending == []
    requires HasLooked(s.workers[w]) ==> HasLooked(x)
    ensures Drained(s')
  {
    LookedPut(s, w, x);
    assert AllLooked(s') == AllLooked(Put(s, w, x));
  }

  /** What is held, when worker w changes. */
  lemma HeldPut(s: System, w: nat, x: Worker)
    requires w < |s.workers|
    ensures forall f: FiberId :: Held(Put(s, w, x), f) ==> Held(s, f) || x.doing == Some(f)
    ensures forall f: FiberId :: Held(s, f) && s.workers[w].doing != Some(f) ==> Held(Put(s, w, x), f)
    ensures forall f: FiberId :: x.doing == Some(f) ==> Held(Put(s, w, x), f)
  {
    var s' := Put(s, w, x);
    assert s'.workers[w] == x;
    forall f: FiberId | Held(s, f) && s.workers[w].doing != Some(f)
      ensures Held(s', f)
    {
      var i :| 0 <= i < |s.workers| && s.workers[i].doing == Some(f);
      assert s'.workers[i].doing == Some(f);
    }
  }

  /** Who has looked, when one worker changes. */
  lemma LookedPut(s: System, w: nat, x: Worker)
    requires w < |s.workers|
    ensures HasLooked(s.workers[w]) == HasLooked(x) ==> AllLooked(Put(s, w, x)) == AllLooked(s)
    ensures !HasLooked(s.workers[w]) ==> !AllLooked(s)
    ensures !HasLooked(x) ==> !AllLooked(Put(s, w, x))
  {
    var s' := Put(s, w, x);
    assert s'.workers[w] == x;
    if HasLooked(s.workers[w]) && HasLooked(x) {
      if AllLooked(s) {
        assert forall i :: 0 <= i < |s'.workers| ==> HasLooked(s'.workers[i]);
      } else {
        var i :| 0 <= i < |s.workers| && !HasLooked(s.workers[i]);
        assert !HasLooked(s'.workers[i]);
      }
    }
  }

  /** The fiber that worker w holds changes its state, and the worker moves on with it. */
  lemma FiberKeepsInv(s: System, s': System, w: nat, x: Worker, f: FiberId, st: FiberState)
    requires Inv(s) && w < |s.workers| && s.workers[w].doing == Some(f) && x.doing == Some(f)
    requires f < |s.fibers| && !st.Init? && HeldAt(x.point, st) && IdleAt(x.point, x.idle) && x.idle == s.workers[w].idle
    requires CountsAsActive(x.point) == CountsAsActive(s.workers[w].point)
    requires s' == Put(s, w, x).(fibers := s.fibers[f := st], yielded := s'.yielded)
    requires s'.yielded == if st.Hold? || st.Ready? then s.yielded + {f} else s.yielded
    requires s.fibers[f].Hold? || s.fibers[f].Ready? ==> s.fibers[f] == st
    requires !HasLooked(s.workers[w]) && !HasLooked(x)
    ensures Inv(s')
  {
    assert WorkerOk(s, s.workers[w]);
    FiberKeepsWorkers(s, s', w, x, f, st);
    HeldPut(s, w, x);
    assert forall g: FiberId :: Held(s', g) == Held(Put(s, w, x), g);
    assert forall g: FiberId :: Held(s', g) == Held(s, g);
    LookedPut(s, w, x);
    ActivePut(s.workers, w, x);
    hide WorkersOk, ActiveIn, AllLooked, Held, IdleAt;
    assert PendingOk(s') && HeldOnce(s');
    assert f !in s.destroyed && f !in s.leaked;
    hide WorkerOk, HeldOnce, PendingOk;
    FiberKeepsFibers(s, s', f, st);
  }

  lemma FiberKeepsFibers(s: System, s': System, f: FiberId, st: FiberState)
    requires FibersOk(s) && f < |s.fibers| && !st.Init? && f !in s.destroyed && f !in s.leaked
    requires s'.fibers == s.fibers[f := st] && s'.pending == s.pending
    requires s'.destroyed == s.destroyed && s'.leaked == s.leaked
    requires s'.yielded == if st.Hold? || st.Ready? then s.yielded + {f} else s.yielded
    requires s.fibers[f].Hold? || s.fibers[f].Ready? ==> s.fibers[f] == st
    requires forall g: FiberId :: Held(s', g) == Held(s, g)
    ensures FibersOk(s')
  {
    hide Held;
  }

  lemma FiberKeepsWorkers(s: System, s': System, w: nat, x: Worker, f: FiberId, st: FiberState)
    requires WorkersOk(s) && HeldOnce(s) && w < |s.workers| && s.workers[w].doing == Some(f) && x.doing == Some(f)
    requires f < |s.fibers| && HeldAt(x.point, st) && IdleAt(x.point, x.idle) && x.idle == s.workers[w].idle
    requires s' == Put(s, w, x).(fibers := s.fibers[f := st], yielded := s'.yielded)
    ensures WorkersOk(s')
  {
    hide HeldAt, IdleAt;
    forall i | 0 <= i < |s'.workers|
      ensures WorkerOk(s', s'.workers[i])
    {
      assert WorkerOk(s, s.workers[i]);
      if i < w { assert s.workers[i].doing.Some? ==> s.workers[i].doing != s.workers[w].doing; }
      if i > w { assert s.workers[w].doing != s.workers[i].doing; }
    }
  }

  /** Submitting keeps the invariant; `late` grows with the list when nobody will look again. */
  lemma SubmitKeepsInv(s: System)
    requires Inv(s)
    ensures Inv(if AllLooked(s) then Submit(s).(late := s.late + [|s.fibers|]) else Submit(s))
  {
    hide HeldAt, IdleAt, HasLooked;
    var s' := if AllLooked(s) then Submit(s).(late := s.late + [|s.fibers|]) else Submit(s);
    forall i | 0 <= i < |s'.workers|
      ensures WorkerOk(s', s'.workers[i])
    {
      assert WorkerOk(s, s.workers[i]);
    }
    hide WorkersOk, WorkerOk;
    assert AllLooked(s') == AllLooked(s);
    SubmitKeepsPending(s);
    SubmitKeepsFibers(s);
    assert PendingOk(s') && FibersOk(s') by {
      assert forall g: FiberId :: Held(s', g) == Held(Submit(s), g);
    }
  }

  lemma SubmitKeepsPending(s: System)
    requires PendingOk(s) && FibersOk(s)
    ensures PendingOk(Submit(s))
  {
    hide Held;
    var s' := Submit(s);
    assert |s.fibers| !in s.destroyed && |s.fibers| !in s.leaked;
    forall i | 0 <= i < |s'.pending|
      ensures s'.pending[i] < |s'.fibers| && s'.fibers[s'.pending[i]] == Init
      ensures s'.pending[i] !in s'.destroyed && s'.pending[i] !in s'.leaked
      ensures i < |s.pending| ==> s'.pending[i] < |s.fibers|
    {
    }
  }

  lemma SubmitKeepsFibers(s: System)
    requires FibersOk(s)
    ensures FibersOk(Submit(s))
  {
    var s' := Submit(s);
    assert forall g: FiberId :: Held(s', g) == Held(s, g);
    hide Held;
    assert s'.pending[|s.pending|] == |s.fibers|;
    forall f | 0 <= f < |s'.fibers|
      ensures f in s'.pending || Held(s', f) || f in s'.destroyed || f in s'.leaked
    {
      if f < |s.fibers| && f in s.pending {
        var i :| 0 <= i < |s.pending| && s.pending[i] == f;
        assert s'.pending[i] == f;
      }
    }
  }

  /** The worker drops what it holds. */
  lemma StartKeepsInv(s: System, w: nat)
    requires Inv(s) && InRange(s) && w < |s.workers| && s.workers[w].point == Start
    ensures Inv(AdvanceWorker(s, w))
  {
    assert s.workers[w].doing.Some? ==> s.workers[w].doing.value < |s.fibers|;
    hide Inv, InRange, FirstRunnable;
    DropKeepsInv(s, AdvanceWorker(s, w), w, s.workers[w].(point := Look, doing := None));
  }

  /** What letting go of a fiber adds to the two sets. */
  predicate Dropped(s: System, s': System, doing: Option<FiberId>) {
    if doing.None? then s'.destroyed == s.destroyed && s'.leaked == s.leaked
    else
      && doing.value < |s.fibers|
      && if OwnReferences(s.fibers[doing.value]) == 0
         then s'.destroyed == s.destroyed + {doing.value} && s'.leaked == s.leaked
         else s'.destroyed == s.destroyed && s'.leaked == s.leaked + {doing.value}
  }

  lemma DropKeepsInv(s: System, s': System, w: nat, x: Worker)
    requires Inv(s) && w < |s.workers| && s.workers[w].point == Start
    requires x == s.workers[w].(point := Look, doing := None)
    requires s' == Put(s, w, x).(destroyed := s'.destroyed, leaked := s'.leaked)
    requires Dropped(s, s', s.workers[w].doing)
    ensures Inv(s')
  {
    hide WorkersOk, PendingOk, FibersOk, ActiveIn, AllLooked, HeldOnce, Held, Dropped;
    DropKeepsWorkers(s, s', w, x);
    DropKeepsHeld(s, s', w, x);
    NoneHasLooked(s, w);
    NoneHasLooked(s', w);
    ActivePut(s.workers, w, x);
    if s.workers[w].doing.Some? {
      HeldIsBack(s, w);
      DropKeepsFibers(s, s', s.workers[w].doing.value);
    } else {
      DropNothing(s, s');
    }
  }

  lemma NoneHasLooked(s: System, w: nat)
    requires w < |s.workers| && !HasLooked(s.workers[w])
    ensures !AllLooked(s)
  {
  }

  /** A worker with no fiber lets go of none. */
  lemma DropNothing(s: System, s': System)
    requires PendingOk(s) && FibersOk(s) && Dropped(s, s', None)
    requires s'.fibers == s.fibers && s'.pending == s.pending && s'.yielded == s.yielded
    requires forall g: FiberId :: Held(s, g) ==> Held(s', g)
    ensures PendingOk(s') && FibersOk(s')
  {
    hide Held;
  }

  lemma HeldIsBack(s: System, w: nat)
    requires WorkersOk(s) && w < |s.workers| && s.workers[w].point == Start && s.workers[w].doing.Some?
    ensures var f := s.workers[w].doing.value;
            f < |s.fibers| && f !in s.pending && !s.fibers[f].Init? && !s.fibers[f].Exec?
  {
    assert WorkerOk(s, s.workers[w]);
  }

  lemma DropKeepsHeld(s: System, s': System, w: nat, x: Worker)
    requires HeldOnce(s) && w < |s.workers| && x == s.workers[w].(doing := None, point := x.point)
    requires s'.workers == s.workers[w := x]
    ensures HeldOnce(s')
    ensures forall g: FiberId :: Held(s, g) && s.workers[w].doing != Some(g) ==> Held(s', g)
  {
    HeldPut(s, w, x);
    assert forall g: FiberId :: Held(s', g) == Held(Put(s, w, x), g);
  }

  /** A fiber that came back, and is neither in the list nor held any more, is destroyed or leaked. */
  lemma DropKeepsFibers(s: System, s': System, f: FiberId)
    requires PendingOk(s) && FibersOk(s) && f < |s.fibers| && f !in s.pending && !s.fibers[f].Init? && !s.fibers[f].Exec?
    requires s'.fibers == s.fibers && s'.pending == s.pending && s'.yielded == s.yielded
    requires Dropped(s, s', Some(f))
    requires forall g: FiberId :: Held(s, g) && g != f ==> Held(s', g)
    ensures PendingOk(s') && FibersOk(s')
  {
    hide Held;
    assert forall i :: 0 <= i < |s.pending| ==> s.pending[i] != f;
  }

  lemma DropKeepsWorkers(s: System, s': System, w: nat, x: Worker)
    requires WorkersOk(s) && HeldOnce(s) && w < |s.workers| && s.workers[w].point == Start
    requires x == s.workers[w].(point := Look, doing := None)
    requires s' == Put(s, w, x).(destroyed := s'.destroyed, leaked := s'.leaked)
    requires Dropped(s, s', s.workers[w].doing)
    ensures WorkersOk(s')
  {
    hide HeldAt, IdleAt;
    StartIdle();
    forall i | 0 <= i < |s'.workers|
      ensures WorkerOk(s', s'.workers[i])
    {
      assert WorkerOk(s, s.workers[i]);
      if i < w { assert s.workers[i].doing.Some? ==> s.workers[i].doing != s.workers[w].doing; }
      if i > w && s.workers[w].doing.Some? { assert s.workers[w].doing != s.workers[i].doing; }
    }
  }

  lemma StartIdle()
    ensures forall idle {:trigger IdleAt(Look, idle)} {:trigger IdleAt(Start, idle)} ::
              IdleAt(Start, idle) ==> IdleAt(Look, idle)
  {
  }

  /** The search takes the head of the list; it finds nothing only when there is nothing. */
  lemma LookFindsHead(s: System)
    requires PendingOk(s) && InRange(s)
    ensures FirstRunnable(s.pending, s.fibers) == 0
  {
    if s.pending != [] {
      assert Runnable(s.fibers[s.pending[0]]);
    }
  }

  /** A worker takes the head of the list. */
  lemma TakeKeepsInv(s: System, w: nat, x: Worker, s': System)
    requires Inv(s) && w < |s.workers| && s.workers[w].point == Look && s.pending != []
    requires x == s.workers[w].(point := Found, doing := Some(s.pending[0]))
    requires s' == Put(s, w, x).(pending := s.pending[1..])
    ensures Inv(s')
  {
    var f := s.pending[0];
    TakeKeepsWorkers(s, w, x, s');
    assert s.pending == [f] + s'.pending;
    NotHeld(s, f);
    HeldPut(s, w, x);
    assert forall g: FiberId :: Held(s', g) == Held(Put(s, w, x), g);
    assert WorkerOk(s, s.workers[w]);
    assert forall g: FiberId :: Held(s', g) <==> Held(s, g) || g == f;
    LookedPut(s, w, x);
    ActivePut(s.workers, w, x);
    hide WorkersOk, WorkerOk, ActiveIn, AllLooked;
    assert HeldOnce(s') by {
      assert forall i :: 0 <= i < |s.workers| && s.workers[i].doing == Some(f) ==> Held(s, f);
    }
    hide HeldOnce, Held;
    TakeKeepsFibers(s, s');
  }

  lemma TakeKeepsFibers(s: System, s': System)
    requires PendingOk(s) && FibersOk(s) && s.pending != []
    requires s'.fibers == s.fibers && s'.pending == s.pending[1..] && s'.yielded == s.yielded
    requires s'.destroyed == s.destroyed && s'.leaked == s.leaked
    requires forall g: FiberId :: Held(s', g) <==> Held(s, g) || g == s.pending[0]
    ensures PendingOk(s') && FibersOk(s')
  {
    hide Held;
    assert s.pending == [s.pending[0]] + s'.pending;
  }

  /** A fiber in the list is held by nobody. */
  lemma NotHeld(s: System, f: FiberId)
    requires WorkersOk(s) && f in s.pending
    ensures !Held(s, f)
  {
    forall i | 0 <= i < |s.workers|
      ensures s.workers[i].doing != Some(f)
    {
      assert WorkerOk(s, s.workers[i]);
    }
  }

  lemma TakeKeepsWorkers(s: System, w: nat, x: Worker, s': System)
    requires WorkersOk(s) && PendingOk(s) && w < |s.workers| && s.workers[w].point == Look && s.pending != []
    requires x == s.workers[w].(point := Found, doing := Some(s.pending[0]))
    requires s' == Put(s, w, x).(pending := s.pending[1..])
    ensures WorkersOk(s')
  {
    assert WorkerOk(s, s.workers[w]);
    assert forall g :: g in s'.pending ==> g in s.pending;
    assert s.pending[0] !in s'.pending;
    forall i | 0 <= i < |s'.workers|
      ensures WorkerOk(s', s'.workers[i])
    {
      assert WorkerOk(s, s.workers[i]);
    }
  }

  lemma LookKeepsInv(s: System, w: nat)
    requires Inv(s) && InRange(s) && w < |s.workers| && s.workers[w].point == Look
    ensures Inv(AdvanceWorker(s, w))
  {
    LookFindsHead(s);
    assert WorkerOk(s, s.workers[w]);
    hide Inv, WorkersOk, WorkerOk, PendingOk, FirstRunnable, InRange;
    var s' := AdvanceWorker(s, w);
    if s.pending == [] {
      AdvanceLook(s, w);
    } else {
      assert s.pending[..0] + s.pending[1..] == s.pending[1..];
      TakeKeepsInv(s, w, s.workers[w].(point := Found, doing := Some(s.pending[0])), s');
    }
  }

  /** Nothing to take. */
  lemma AdvanceLook(s: System, w: nat)
    requires Inv(s) && w < |s.workers| && s.workers[w].point == Look && s.pending == []
    ensures Inv(Put(s, w, s.workers[w].(point := NoWork)))
  {
    var x := s.workers[w].(point := NoWork);
    assert WorkerOk(s, s.workers[w]);
    ActivePut(s.workers, w, x);
    MoveKeepsInv(s, Put(s, w, x), w, x);
  }

  lemma SettlingKeepsInv(s: System, w: nat)
    requires Inv(s) && InRange(s) && w < |s.workers| && s.workers[w].point == Settling
    ensures Inv(AdvanceWorker(s, w))
  {
    assert WorkerOk(s, s.workers[w]);
    var f := s.workers[w].doing.value;
    var x := s.workers[w].(point := Start);
    var m := Put(s, w, x);
    ActivePut(s.workers, w, x);
    if s.fibers[f] == Hold {
      assert f in s.yielded;
      FiberKeepsInv(s, AdvanceWorker(s, w), w, x, f, Hold);
    } else {
      MoveKeepsInv(s, m, w, x);
      if s.fibers[f] == Ready {
        LookedPut(s, w, x);
        SubmitKeepsInv(m);
      }
    }
  }

  /** What the steps that touch no fiber do to the worker. */
  lemma OtherWorkerOk(s: System, x: Worker, p: Point, idle: FiberState)
    requires WorkerOk(s, x) && IdleAt(p, idle) && (idle.Term? ==> s.autoStop)
    requires MustHold(p) ==> x.doing.Some?
    requires x.doing.Some? ==> HeldAt(p, s.fibers[x.doing.value])
    ensures WorkerOk(s, x.(point := p, idle := idle))
  {
  }

  lemma OtherStep(s: System, w: nat)
    requires InRange(s) && w < |s.workers| && WorkerOk(s, s.workers[w])
    requires var p := s.workers[w].point;
             p.Found? || p.Leaving? || p.NoWork? || p.IdleEntering? || p.Idling? || p.IdleLeaving?
    ensures var x, s' := s.workers[w], AdvanceWorker(s, w);
            && |s'.workers| == |s.workers|
            && var y := s'.workers[w];
            && s' == Put(s, w, y).(active := s'.active, idleThreads := s'.idleThreads)
            && WorkerOk(s, y) && y.doing == x.doing && HasLooked(y) == HasLooked(x)
            && s'.active - s.active == (if CountsAsActive(y.point) then 1 else 0) - (if CountsAsActive(x.point) then 1 else 0)
  {
    hide InRange, FirstRunnable;
    var x := s.workers[w];
    var y := AdvanceWorker(s, w).workers[w];
    OtherWorkerOk(s, x, y.point, y.idle);
  }

  lemma OtherKeepsInv(s: System, w: nat)
    requires Inv(s) && InRange(s) && w < |s.workers|
    requires var p := s.workers[w].point;
             p.Found? || p.Leaving? || p.NoWork? || p.IdleEntering? || p.Idling? || p.IdleLeaving?
    ensures Inv(AdvanceWorker(s, w))
  {
    var x := s.workers[w];
    assert WorkerOk(s, x);
    ActiveOk(s);
    hide Inv, WorkersOk, InRange, ActiveIn, FirstRunnable;
    hide WorkerOk;
    var s' := AdvanceWorker(s, w);
    var y := s'.workers[w];
    ActivePut(s.workers, w, y);
    OtherStep(s, w);
    MoveKeepsInv(s, s', w, y);
  }

  lemma ActiveOk(s: System)
    requires Inv(s)
    ensures s.active == ActiveIn(s.workers)
  {
  }

  lemma AdvanceKeepsInv(s: System, w: nat)
    requires Inv(s) && InRange(s) && w < |s.workers|
    ensures Inv(AdvanceWorker(s, w))
  {
    var x := s.workers[w];
    assert WorkerOk(s, x);
    hide Inv, WorkersOk, InRange, FirstRunnable;
    match x.point
    case Start => StartKeepsInv(s, w);
    case Look => LookKeepsInv(s, w);
    case Settling => SettlingKeepsInv(s, w);
    case Entering => FiberKeepsInv(s, AdvanceWorker(s, w), w, x.(point := Inside), x.doing.value, Exec);
    case Inside =>
    case Exited =>
    case _ => OtherKeepsInv(s, w);
  }

  lemma NextKeepsInv(s: System, step: Step)
    requires Inv(s) && InRange(s)
    ensures Inv(Next(s, step)) && InRange(Next(s, step))
  {
    hide WorkersOk, HeldOnce, PendingOk, FibersOk, Drained, ActiveIn, AdvanceWorker, Submit;
    match step {
      case Advance(w) =>
        if w < |s.workers| { AdvanceKeepsInv(s, w); }
      case CallbackSubmits(w) =>
        if w < |s.workers| && s.workers[w].point == Inside { SubmitKeepsInv(s); }
      case CallbackEnds(w, throws) =>
        if w < |s.workers| && s.workers[w].point == Inside {
          ComeBackKeepsInv(s, w, if throws then Exception else Term, Next(s, step));
        }
      case CallbackYields(w, ready) =>
        if w < |s.workers| && s.workers[w].point == Inside {
          ComeBackKeepsInv(s, w, if ready then Ready else Hold, Next(s, step));
        }
      case OutsideSubmits => SubmitKeepsInv(s);
      case StopBegins => FlagKeepsInv(s, Next(s, step));
      case StopCleans => FlagKeepsInv(s, Next(s, step));
    }
    InvInRange(Next(s, step));
  }

  lemma ComeBackKeepsInv(s: System, w: nat, st: FiberState, s': System)
    requires Inv(s) && InRange(s) && w < |s.workers| && s.workers[w].point == Inside && !st.Init? && !st.Exec?
    requires s' == ComeBack(s, w, st).(yielded := s'.yielded)
    requires s.workers[w].doing.Some? ==>
               s'.yielded == if st.Hold? || st.Ready? then s.yielded + {s.workers[w].doing.value} else s.yielded
    ensures Inv(s')
  {
    assert WorkerOk(s, s.workers[w]);
    FiberKeepsInv(s, s', w, s.workers[w].(point := Leaving), s.workers[w].doing.value, st);
  }

  lemma FlagKeepsInv(s: System, s': System)
    requires Inv(s) && s' == s.(autoStop := s'.autoStop, clean := s'.clean) && (s.autoStop ==> s'.autoStop)
    ensures Inv(s')
  {
    forall i | 0 <= i < |s'.workers|
      ensures WorkerOk(s', s'.workers[i])
    {
      assert WorkerOk(s, s.workers[i]);
    }
    assert forall g: FiberId :: Held(s', g) == Held(s, g);
    assert AllLooked(s') == AllLooked(s);
  }

  // ---------------------------------------------------------------- runs

  lemma {:induction false} NoneActive(n: nat)
    ensures ActiveIn(Started(n).workers) == 0
  {
    if n > 0 {
      var ws := Started(n).workers;
      assert ws[..|ws| - 1] == Started(n - 1).workers;
      NoneActive(n - 1);
    }
  }

  lemma StartedInv(n: nat)
    ensures Inv(Started(n)) && InRange(Started(n))
  {
    NoneActive(n);
  }

  /** Any interleaving of steps of n workers and of whoever else uses the scheduler. */
  ghost function Run(n: nat, steps: seq<Step>): (s: System)
    ensures Inv(s) && InRange(s)
  {
    if steps == [] then
      StartedInv(n);
      Started(n)
    else
      var s := Run(n, steps[..|steps| - 1]);
      NextKeepsInv(s, steps[|steps| - 1]);
      Next(s, steps[|steps| - 1])
  }

  lemma RunMore(n: nat, steps: seq<Step>, step: Step)
    ensures Run(n, steps + [step]) == Next(Run(n, steps), step)
  {
    var all := steps + [step];
    assert all[..|all| - 1] == steps;
  }

  lemma RunUnfolds(n: nat, steps: seq<Step>)
    ensures Run(n, []) == Started(n)
    ensures steps != [] ==> Run(n, steps) == Next(Run(n, steps[..|steps| - 1]), steps[|steps| - 1])
  {
    hide Inv;
  }

  /**
   In every run, every fiber ever submitted is in exactly one place: once in the list, not yet
   started; with exactly one worker; destroyed, its callback having ended; or leaked, its callback
   having yielded.
   */
  lemma OnePlace(n: nat, steps: seq<Step>, f: FiberId)
    requires f < |Run(n, steps).fibers|
    ensures var s := Run(n, steps);
            && (f in s.pending || Held(s, f) || f in s.destroyed || f in s.leaked)
            && !(f in s.pending && Held(s, f)) && !(f in s.pending && f in s.destroyed) && !(f in s.pending && f in s.leaked)
            && !(Held(s, f) && f in s.destroyed) && !(Held(s, f) && f in s.leaked) && !(f in s.destroyed && f in s.leaked)
            && (f in s.pending ==> s.fibers[f] == Init)
            && (f in s.destroyed ==> HasEnded(s.fibers[f]))
            && (f in s.leaked ==> f in s.yielded)
            && (forall i, j :: 0 <= i < j < |s.workers| ==>
                  !(s.workers[i].doing == Some(f) && s.workers[j].doing == Some(f)))
  {
    var s := Run(n, steps);
    if f in s.pending { NotHeld(s, f); }
    if Held(s, f) {
      var i :| 0 <= i < |s.workers| && s.workers[i].doing == Some(f);
      assert WorkerOk(s, s.workers[i]);
    }
  }

  /** swapIn is never applied to a fiber that runs: not to a submitted one, not to an idle one. */
  lemma SwapInIsSafe(n: nat, steps: seq<Step>, w: nat)
    requires w < |Run(n, steps).workers|
    ensures var s := Run(n, steps);
            var x := s.workers[w];
            && (x.point == Entering ==> x.doing.Some? && s.fibers[x.doing.value] == Init)
            && (x.point == IdleEntering ==> x.idle != Exec)
  {
    assert WorkerOk(Run(n, steps), Run(n, steps).workers[w]);
  }

  /**
   When a worker lets go of a fiber, the fiber is destroyed if and only if its callback has ended, and
   then the destructor's check on its state holds; it stays behind if and only if its callback yielded.
   */
  lemma DropIff(n: nat, steps: seq<Step>, w: nat)
    requires w < |Run(n, steps).workers|
    requires Run(n, steps).workers[w].point == Start && Run(n, steps).workers[w].doing.Some?
    ensures var s := Run(n, steps);
            var s' := Run(n, steps + [Advance(w)]);
            var f := s.workers[w].doing.value;
            && (f in s'.destroyed <==> HasEnded(s.fibers[f])) && (f in s'.leaked <==> f in s.yielded)
            && (f in s'.destroyed ==> MayBeDestroyed(s.fibers[f]))
  {
    var s := Run(n, steps);
    assert WorkerOk(s, s.workers[w]);
    RunMore(n, steps, Advance(w));
  }

  /**
   In every run, a fiber has been destroyed if and only if its callback has ended and no worker holds
   it, and it has leaked if and only if its callback yielded and no worker holds it.
   */
  lemma GoneIff(n: nat, steps: seq<Step>, f: FiberId)
    requires f < |Run(n, steps).fibers|
    ensures var s := Run(n, steps);
            && (f in s.destroyed <==> HasEnded(s.fibers[f]) && !Held(s, f))
            && (f in s.leaked <==> f in s.yielded && !Held(s, f))
  {
    var s := Run(n, steps);
    OnePlace(n, steps, f);
    assert f in s.yielded <==> s.fibers[f].Hold? || s.fibers[f].Ready?;
  }

  lemma NextKeepsLeaked(s: System, step: Step)
    requires InRange(s)
    ensures s.leaked <= Next(s, step).leaked
  {
    hide FirstRunnable, InRange, OwnReferences, HasLooked;
  }

  /** A leaked fiber stays so, whatever happens: no worker ever holds it again, so it never runs on. */
  lemma {:induction false} LeakedForGood(n: nat, steps: seq<Step>, more: seq<Step>, f: FiberId)
    requires f in Run(n, steps).leaked
    ensures var s := Run(n, steps + more);
            f in s.leaked && f < |s.fibers| && f in s.yielded && !Held(s, f) && f !in s.pending
    decreases |more|
  {
    hide Inv, InRange, Next, Held, Run;
    if more == [] {
      assert steps + more == steps;
    } else {
      var front, last := more[..|more| - 1], more[|more| - 1];
      LeakedForGood(n, steps, front, f);
      assert steps + more == (steps + front) + [last];
      RunMore(n, steps + front, last);
      NextKeepsLeaked(Run(n, steps + front), last);
    }
    LeakedExists(n, steps + more, f);
    OnePlace(n, steps + more, f);
  }

  lemma LeakedExists(n: nat, steps: seq<Step>, f: FiberId)
    requires f in Run(n, steps).leaked
    ensures f < |Run(n, steps).fibers|
  {
    assert FibersOk(Run(n, steps));
  }

  // ---------------------------------------------------------------- the drain

  predicate AllExited(s: System) {
    forall i :: 0 <= i < |s.workers| ==> s.workers[i].point == Exited
  }

  /** An outside thread submits after stop() has begun. */
  ghost predicate SubmitsLate(n: nat, steps: seq<Step>) {
    exists k :: 0 <= k < |steps| && steps[k] == OutsideSubmits && Run(n, steps[..k]).autoStop
  }

  predicate Yields(steps: seq<Step>) {
    exists k :: 0 <= k < |steps| && steps[k].CallbackYields?
  }

  lemma LookedMeansStopping(s: System)
    requires Inv(s) && AllLooked(s) && |s.workers| > 0
    ensures s.autoStop
  {
    assert HasLooked(s.workers[0]) && WorkerOk(s, s.workers[0]);
  }

  lemma NextKeepsCount(s: System, step: Step)
    requires InRange(s)
    ensures |Next(s, step).workers| == |s.workers|
  {
    hide InRange, FirstRunnable;
  }

  lemma {:induction false} WorkersAreKept(n: nat, steps: seq<Step>)
    ensures |Run(n, steps).workers| == n
  {
    if steps != [] {
      hide Inv, InRange, Next;
      WorkersAreKept(n, steps[..|steps| - 1]);
      NextKeepsCount(Run(n, steps[..|steps| - 1]), steps[|steps| - 1]);
    }
  }

  lemma {:induction false} NoneLate(n: nat, steps: seq<Step>)
    requires n > 0 && !SubmitsLate(n, steps)
    ensures Run(n, steps).late == []
  {
    hide Run, Inv, InRange, Next, AllLooked, SubmitsLate;
    RunUnfolds(n, steps);
    if steps != [] {
      var front, last := steps[..|steps| - 1], steps[|steps| - 1];
      var s := Run(n, front);
      NotLateInFront(n, steps);
      NoneLate(n, front);
      WorkersAreKept(n, front);
      if last == OutsideSubmits && AllLooked(s) {
        LookedMeansStopping(s);
        LateAtTheEnd(n, steps);
      }
      NextLate(s, last);
    }
  }

  lemma NotLateInFront(n: nat, steps: seq<Step>)
    requires steps != [] && !SubmitsLate(n, steps)
    ensures !SubmitsLate(n, steps[..|steps| - 1])
  {
    hide Run;
    var front := steps[..|steps| - 1];
    assert forall k :: 0 <= k < |front| ==> front[..k] == steps[..k] && front[k] == steps[k];
  }

  lemma LateAtTheEnd(n: nat, steps: seq<Step>)
    requires steps != [] && steps[|steps| - 1] == OutsideSubmits && Run(n, steps[..|steps| - 1]).autoStop
    ensures SubmitsLate(n, steps)
  {
  }

  lemma NextLate(s: System, step: Step)
    requires InRange(s)
    ensures Next(s, step).late != s.late ==> step == OutsideSubmits && AllLooked(s)
  {
  }

  lemma {:induction false} NoneYielded(n: nat, steps: seq<Step>)
    requires !Yields(steps)
    ensures Run(n, steps).yielded == {}
  {
    if steps != [] {
      var front := steps[..|steps| - 1];
      assert forall k :: 0 <= k < |front| ==> front[k] == steps[k];
      NoneYielded(n, front);
      NextYielded(Run(n, front), steps[|steps| - 1]);
    }
  }

  lemma NextYielded(s: System, step: Step)
    requires InRange(s) && !step.CallbackYields?
    ensures Next(s, step).yielded == s.yielded
  {
  }

  /**
   Drain on stop.  In every run with at least one worker, once all workers have left: what is left
   in the list is exactly what outside threads submitted too late, and every other fiber ever
   submitted, by an outside thread or by a callback, has ended or yielded.
   */
  lemma Drain(n: nat, steps: seq<Step>)
    requires n > 0 && AllExited(Run(n, steps))
    ensures var s := Run(n, steps);
            && s.pending == s.late
            && forall f :: 0 <= f < |s.fibers| && f !in s.late ==> HasEnded(s.fibers[f]) || f in s.yielded
  {
    var s := Run(n, steps);
    assert forall i :: 0 <= i < |s.workers| ==> HasLooked(s.workers[i]);
    forall f | 0 <= f < |s.fibers| && f !in s.late
      ensures HasEnded(s.fibers[f]) || f in s.yielded
    {
      OnePlace(n, steps, f);
      if Held(s, f) {
        var i :| 0 <= i < |s.workers| && s.workers[i].doing == Some(f);
        assert WorkerOk(s, s.workers[i]);
      }
    }
  }

  /**
   When no outside thread submits after stop() has begun, and no callback yields: once all workers
   have left, the list is empty and every callback ever submitted has run to TERM or EXCEPTION.
   */
  lemma DrainsCompletely(n: nat, steps: seq<Step>)
    requires n > 0 && AllExited(Run(n, steps)) && !SubmitsLate(n, steps) && !Yields(steps)
    ensures Run(n, steps).pending == []
    ensures forall f :: 0 <= f < |Run(n, steps).fibers| ==> HasEnded(Run(n, steps).fibers[f])
  {
    Drain(n, steps);
    NoneLate(n, steps);
    NoneYielded(n, steps);
  }

  // ---------------------------------------------------------------- leaving

  /** stop() has set both flags, the list is empty, and no worker is busy with a fiber. */
  ghost predicate Calm(s: System) {
    && s.autoStop && s.clean && s.pending == []
    && forall i :: 0 <= i < |s.workers| ==> !MustHold(s.workers[i].point)
  }

  /** How many more steps a worker takes in a calm system. */
  function StepsLeft(x: Worker): nat {
    match x.point
    case Exited => 0
    case NoWork => if HasEnded(x.idle) then 1 else 8
    case Look => if HasEnded(x.idle) then 2 else 9
    case Start => if HasEnded(x.idle) then 3 else 10
    case IdleLeaving => if HasEnded(x.idle) then 4 else 11
    case Idling => 6
    case IdleEntering => 7
    case _ => 0
  }

  lemma {:induction false} CalmMeansNoneActive(ws: seq<Worker>)
    requires forall i :: 0 <= i < |ws| ==> !MustHold(ws[i].point)
    ensures ActiveIn(ws) == 0
  {
    if ws != [] {
      CalmMeansNoneActive(ws[..|ws| - 1]);
      assert !MustHold(ws[|ws| - 1].point);
    }
  }

  lemma CalmIsClean(s: System, w: nat)
    requires Inv(s) && Calm(s) && w < |s.workers|
    ensures IsClean(s) && IdleAt(s.workers[w].point, s.workers[w].idle)
  {
    CalmMeansNoneActive(s.workers);
    ActiveOk(s);
    assert WorkerOk(s, s.workers[w]);
  }

  /** What one step does in a calm system. */
  lemma CalmStep(s: System, w: nat)
    requires InRange(s) && w < |s.workers| && s.pending == [] && FirstRunnable(s.pending, s.fibers) == 0 && IsClean(s)
    requires var x := s.workers[w]; x.point != Exited && !MustHold(x.point) && IdleAt(x.point, x.idle)
    ensures var s' := AdvanceWorker(s, w);
            && s'.workers == s.workers[w := s'.workers[w]] && s'.pending == [] && s'.autoStop == s.autoStop && s'.clean == s.clean
            && !MustHold(s'.workers[w].point)
            && StepsLeft(s'.workers[w]) < StepsLeft(s.workers[w]) <= 11
  {
    hide InRange, FirstRunnable;
  }

  /** In a calm system every step of a worker that has not left brings it closer to leaving. */
  lemma CalmWorkerLeaves(s: System, w: nat)
    requires Inv(s) && InRange(s) && Calm(s) && w < |s.workers| && s.workers[w].point != Exited
    ensures Calm(AdvanceWorker(s, w))
    ensures StepsLeft(AdvanceWorker(s, w).workers[w]) < StepsLeft(s.workers[w]) <= 11
    ensures forall i :: 0 <= i < |s.workers| && i != w ==> AdvanceWorker(s, w).workers[i] == s.workers[i]
  {
    hide WorkersOk, HeldOnce, PendingOk, FibersOk, InRange, FirstRunnable, ActiveIn, IsClean, AdvanceWorker;
    CalmIsClean(s, w);
    LookFindsHead(s);
    CalmStep(s, w);
    var s' := AdvanceWorker(s, w);
    forall i | 0 <= i < |s'.workers|
      ensures !MustHold(s'.workers[i].point)
    {
      assert !MustHold(s.workers[i].point);
    }
  }

  /** The workers go on in the order of the schedule. */
  ghost function RunWorkers(s: System, schedule: seq<nat>): System
    requires Inv(s) && InRange(s)
    decreases |schedule|
  {
    if schedule == [] then s
    else
      NextKeepsInv(s, Advance(schedule[0]));
      RunWorkers(Next(s, Advance(schedule[0])), schedule[1..])
  }

  function Turns(schedule: seq<nat>, w: nat): nat {
    if schedule == [] then 0 else (if schedule[0] == w then 1 else 0) + Turns(schedule[1..], w)
  }

  /** Once the system is calm, a worker leaves within eleven turns, whatever the others do. */
  lemma {:induction false} CalmLeaves(s: System, schedule: seq<nat>, w: nat)
    requires Inv(s) && InRange(s) && Calm(s) && w < |s.workers|
    requires Turns(schedule, w) >= StepsLeft(s.workers[w])
    ensures |RunWorkers(s, schedule).workers| == |s.workers|
    ensures RunWorkers(s, schedule).workers[w].point == Exited
    decreases |schedule|
  {
    assert !MustHold(s.workers[w].point);
    hide Inv, InRange, Calm, AdvanceWorker;
    if schedule != [] {
      var v := schedule[0];
      var s' := Next(s, Advance(v));
      NextKeepsInv(s, Advance(v));
      if v < |s.workers| && s.workers[v].point != Exited {
        CalmWorkerLeaves(s, v);
      } else if v < |s.workers| {
        ExitedStays(s, v);
      }
      NextKeepsCount(s, Advance(v));
      CalmLeaves(s', schedule[1..], w);
    }
  }

  lemma ExitedStays(s: System, w: nat)
    requires InRange(s) && w < |s.workers| && s.workers[w].point == Exited
    ensures AdvanceWorker(s, w) == s
  {
  }

  // ---------------------------------------------------------------- what does not hold

  /** One worker, in a given state, and the rest of the system. */
  function Solo(x: Worker, fibers: seq<FiberState>, pending: seq<FiberId>, active: int, idle: int, stopped: bool): System {
    System([x], fibers, pending, active, idle, stopped, stopped, {}, {}, {}, [])
  }

  /** One turn of worker 0. */
  lemma Turn(steps: seq<Step>, s: System, s': System)
    requires s == Run(1, steps) && |s.workers| == 1 && s' == AdvanceWorker(s, 0)
    ensures s' == Run(1, steps + [Advance(0)])
  {
    hide Inv, InRange, Run;
    RunMore(1, steps, Advance(0));
  }

  lemma StopNow(steps: seq<Step>)
    ensures Run(1, steps + [StopBegins] + [StopCleans]) == Run(1, steps).(autoStop := true, clean := true)
  {
    hide Inv, InRange, Run;
    RunMore(1, steps, StopBegins);
    RunMore(1, steps + [StopBegins], StopCleans);
  }

  lemma RunStarted()
    ensures Run(1, []) == Solo(Worker(Start, None, Init), [], [], 0, 0, false)
  {
    hide Inv, InRange, Run;
    RunUnfolds(1, []);
    assert Started(1).workers == [Worker(Start, None, Init)];
  }

  const SUBMITTED: seq<Step> := [] + [OutsideSubmits]

  lemma RunSubmitted()
    ensures Run(1, SUBMITTED) == Solo(Worker(Start, None, Init), [Init], [0], 0, 0, false)
  {
    hide Inv, InRange, Run;
    RunStarted();
    RunMore(1, [], OutsideSubmits);
    assert Run(1, []).workers[0].point == Start;
  }

  /** A worker has taken a callback from the list but has not run it. */
  const TAKEN: seq<Step> := SUBMITTED + [Advance(0)] + [Advance(0)]

  lemma RunTaken()
    ensures Run(1, TAKEN) == Solo(Worker(Found, Some(0), Init), [Init], [], 0, 0, false)
  {
    RunSubmitted();
    hide Inv, Run;
    var s1 := Solo(Worker(Look, None, Init), [Init], [0], 0, 0, false);
    Turn(SUBMITTED, Run(1, SUBMITTED), s1);
    Turn(SUBMITTED + [Advance(0)], s1, Solo(Worker(Found, Some(0), Init), [Init], [], 0, 0, false));
  }

  /**
   IsClean may hold although a callback has been taken and not yet run: the count of active workers
   is raised outside the lock.
   */
  lemma CleanTooSoon()
    ensures exists steps :: IsClean(Run(1, steps)) && Run(1, steps).workers == [Worker(Found, Some(0), Init)]
  {
    hide Inv, InRange, Run;
    RunTaken();
    StopNow(TAKEN);
    var steps := TAKEN + [StopBegins] + [StopCleans];
    assert IsClean(Run(1, steps));
  }

  /** A callback that yields: the worker that ran it lets go of it, and nobody will ever free it. */
  lemma YieldLeaks()
    ensures exists steps :: Run(1, steps).leaked == {0} && Run(1, steps).fibers == [Hold]
  {
    RunTaken();
    hide Inv, Run;
    var a := TAKEN + [Advance(0)];
    var s4 := Solo(Worker(Entering, Some(0), Init), [Init], [], 1, 0, false);
    Turn(TAKEN, Run(1, TAKEN), s4);
    var b := a + [Advance(0)];
    var s5 := Solo(Worker(Inside, Some(0), Init), [Exec], [], 1, 0, false);
    Turn(a, s4, s5);
    var c := b + [CallbackYields(0, false)];
    RunMore(1, b, CallbackYields(0, false));
    var s6 := Solo(Worker(Leaving, Some(0), Init), [Hold], [], 1, 0, false).(yielded := {0});
    assert Run(1, c) == s6;
    var s7 := Solo(Worker(Settling, Some(0), Init), [Hold], [], 0, 0, false).(yielded := {0});
    Turn(c, s6, s7);
    var d := c + [Advance(0)];
    var s8 := s7.(workers := [Worker(Start, Some(0), Init)]);
    Turn(d, s7, s8);
    var e := d + [Advance(0)];
    Turn(e, s8, s8.(workers := [Worker(Look, None, Init)], leaked := {0}));
    assert Run(1, e + [Advance(0)]).leaked == {0};
  }

  lemma {:induction false} NoneCounted(ws: seq<Worker>, w: nat)
    requires ActiveIn(ws) == 0 && w < |ws|
    ensures !CountsAsActive(ws[w].point)
    decreases |ws|
  {
    if w < |ws| - 1 {
      NoneCounted(ws[..|ws| - 1], w);
    }
  }

  /**
   When IsClean holds, every callback submitted so far has ended or yielded if and only if no worker
   has taken one from the list without being counted yet.
   */
  lemma CleanIsTrueIff(n: nat, steps: seq<Step>)
    requires IsClean(Run(n, steps))
    ensures var s := Run(n, steps);
            (forall f :: 0 <= f < |s.fibers| ==> HasEnded(s.fibers[f]) || f in s.yielded) <==>
            (forall w :: 0 <= w < |s.workers| ==> s.workers[w].point != Found)
  {
    var s := Run(n, steps);
    forall w | 0 <= w < |s.workers|
      ensures WorkerOk(s, s.workers[w]) && !CountsAsActive(s.workers[w].point)
    {
      NoneCounted(s.workers, w);
    }
    if w :| 0 <= w < |s.workers| && s.workers[w].point == Found {
      var f := s.workers[w].doing.value;
      assert s.fibers[f] == Init && f !in s.yielded;
    } else {
      forall f | 0 <= f < |s.fibers|
        ensures HasEnded(s.fibers[f]) || f in s.yielded
      {
        OnePlace(n, steps, f);
        if Held(s, f) {
          var i :| 0 <= i < |s.workers| && s.workers[i].doing == Some(f);
          assert HeldAt(s.workers[i].point, s.fibers[f]);
        }
      }
    }
  }

  function Turns0(steps: seq<Step>, n: nat): seq<Step> {
    if n == 0 then steps else Turns0(steps, n - 1) + [Advance(0)]
  }

  /** A lone worker without work, once stop() has been called. */
  lemma WorkerLeaves(steps: seq<Step>)
    requires Run(1, steps) == Solo(Worker(Start, None, Init), [], [], 0, 0, true)
    ensures Run(1, Turns0(steps, 5)) == Solo(Worker(IdleLeaving, None, Term), [], [], 0, 1, true)
  {
    hide Inv, Run;
    var s1 := Solo(Worker(Look, None, Init), [], [], 0, 0, true);
    Turn(steps, Run(1, steps), s1);
    var s2 := Solo(Worker(NoWork, None, Init), [], [], 0, 0, true);
    assert Turns0(steps, 1) == Turns0(steps, 0) + [Advance(0)] && Turns0(steps, 0) == steps;
    Turn(Turns0(steps, 1), s1, s2);
    var s3 := Solo(Worker(IdleEntering, None, Init), [], [], 0, 1, true);
    Turn(Turns0(steps, 2), s2, s3);
    var s4 := Solo(Worker(Idling, None, Exec), [], [], 0, 1, true);
    Turn(Turns0(steps, 3), s3, s4);
    Turn(Turns0(steps, 4), s4, Solo(Worker(IdleLeaving, None, Term), [], [], 0, 1, true));
  }

  lemma WorkerHasLeft(steps: seq<Step>)
    requires Run(1, steps) == Solo(Worker(IdleLeaving, None, Term), [], [], 0, 1, true)
    ensures Run(1, Turns0(steps, 4)) == Solo(Worker(Exited, None, Term), [], [], 0, 0, true)
  {
    hide Inv, Run;
    var s1 := Solo(Worker(Start, None, Term), [], [], 0, 0, true);
    Turn(steps, Run(1, steps), s1);
    var s2 := Solo(Worker(Look, None, Term), [], [], 0, 0, true);
    assert Turns0(steps, 1) == Turns0(steps, 0) + [Advance(0)] && Turns0(steps, 0) == steps;
    Turn(Turns0(steps, 1), s1, s2);
    var s3 := Solo(Worker(NoWork, None, Term), [], [], 0, 0, true);
    Turn(Turns0(steps, 2), s2, s3);
    Turn(Turns0(steps, 3), s3, Solo(Worker(Exited, None, Term), [], [], 0, 0, true));
  }

  /** A callback submitted after the workers have looked for the last time is never run. */
  lemma LateIsLost()
    ensures exists steps :: AllExited(Run(1, steps)) && Run(1, steps).fibers == [Init] && Run(1, steps).pending == [0]
  {
    hide Inv, InRange, Run;
    RunStarted();
    StopNow([]);
    var a := [] + [StopBegins] + [StopCleans];
    WorkerLeaves(a);
    var b := Turns0(Turns0(a, 5), 4);
    WorkerHasLeft(Turns0(a, 5));
    RunMore(1, b, OutsideSubmits);
    var c := b + [OutsideSubmits];
    assert AllExited(Run(1, c)) && Run(1, c).pending == [0] && Run(1, c).fibers == [Init];
  }
}
