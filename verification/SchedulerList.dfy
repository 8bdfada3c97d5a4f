/**
 The scheduler's methods that run under its lock, as they are written: each is one atomic step of the
 state machine.
 */
module SchedulerList {
  import opened Wrappers
  import opened SchedulerModel

  class Scheduler {
    var fibers: seq<FiberState>
    var pending: seq<FiberId>
    var activeThreads: int
    var autoStop: bool
    var clean: bool

    ghost predicate Valid()
      reads this
    {
      forall i :: 0 <= i < |pending| ==> pending[i] < |fibers|
    }

    /** The rest of the system, with this scheduler's shared part. */
    ghost function In(s: System): System
      reads this
    {
      s.(fibers := fibers, pending := pending, active := activeThreads, autoStop := autoStop, clean := clean)
    }

    constructor ()
      ensures Valid() && fibers == [] && pending == [] && activeThreads == 0 && !autoStop && !clean
    {
      fibers, pending, activeThreads, autoStop, clean := [], [], 0, false, false;
    }

    /** schedulerNoLock: a new fiber at the end of the list; wakes somebody up if there was none. */
    method SchedulerNoLock() returns (needWakeup: bool)
      requires Valid()
      modifies this`fibers, this`pending
      ensures Valid() && needWakeup == (old(pending) == [])
      ensures pending == old(pending) + [|old(fibers)|] && fibers == old(fibers) + [Init]
      ensures forall s: System :: In(s) == Submit(old(In(s)))
    {
      needWakeup := pending == [];
      pending := pending + [|fibers|];
      fibers := fibers + [Init];
    }

    /** The scheduler call for a range of callbacks: all of them, in order, and one wake-up. */
    method ScheduleRange(count: nat) returns (needWakeup: bool)
      requires Valid()
      modifies this`fibers, this`pending
      ensures Valid() && needWakeup == (old(pending) == [] && count > 0)
      ensures fibers == old(fibers) + seq(count, _ => Init)
      ensures pending == old(pending) + seq(count, i => old(|fibers|) + i)
    {
      needWakeup := false;
      var begin := 0;
      while begin < count
        invariant 0 <= begin <= count && Valid()
        invariant needWakeup == (old(pending) == [] && begin > 0)
        invariant fibers == old(fibers) + seq(begin, _ => Init)
        invariant pending == old(pending) + seq(begin, i => old(|fibers|) + i)
      {
        var wakeup := SchedulerNoLock();
        needWakeup := wakeup || needWakeup;
        begin := begin + 1;
      }
    }

    /** The search in run: takes the first fiber that can run out of the list. */
    method Pick() returns (doing: Option<FiberId>)
      requires Valid()
      modifies this`pending
      ensures Valid()
      ensures var k := FirstRunnable(old(pending), fibers);
              if k < |old(pending)|
              then doing == Some(old(pending)[k]) && pending == old(pending)[..k] + old(pending)[k + 1..]
              else doing == None && pending == old(pending)
      ensures forall s: System, w: nat :: Looks(old(In(s)), w) ==> Took(In(s), w, doing) == AdvanceWorker(old(In(s)), w)
    {
      doing := None;
      var it := 0;
      while it < |pending|
        invariant 0 <= it <= |pending| && pending == old(pending) && doing == None
        invariant forall i :: 0 <= i < it ==> !Runnable(fibers[pending[i]])
      {
        if Runnable(fibers[pending[it]]) {
          doing := Some(pending[it]);
          pending := pending[..it] + pending[it + 1..];
          return;
        }
        it := it + 1;
      }
    }

    /** A worker is about to search the list. */
    static ghost predicate Looks(s: System, w: nat) {
      w < |s.workers| && s.workers[w].point.Look? && InRange(s)
    }

    /** The worker with what the search gave it. */
    static function Took(s: System, w: nat, doing: Option<FiberId>): System
      requires w < |s.workers|
    {
      var x := s.workers[w];
      Put(s, w, if doing.Some? then x.(point := Found, doing := doing) else x.(point := NoWork))
    }

    method CheckClean() returns (r: bool)
      ensures forall s: System :: r == IsClean(In(s))
    {
      r := autoStop && clean && pending == [] && activeThreads == 0;
    }
  }
}
