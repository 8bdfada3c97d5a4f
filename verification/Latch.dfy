/** The count-down latch: nobody passes early, and nobody sleeps through the last count. */
module Latch {

  type Thread = nat

  /** `blocked` sleep in the condition; `woken` have been notified, or woke by chance, and wait for the lock. */
  datatype State = State(count: int, blocked: set<Thread>, woken: set<Thread>, passed: set<Thread>)

  /** What happens under the lock, or to a sleeper. */
  datatype Step = Wait(t: Thread) | CountDown | WakeByChance(t: Thread) | Resume(t: Thread)

  function Initial(n: int): State {
    State(n, {}, {}, {})
  }

  /** The test of the loop in wait. */
  function Test(s: State, t: Thread): State {
    if s.count > 0 then s.(blocked := s.blocked + {t}) else s.(passed := s.passed + {t})
  }

  function Next(s: State, step: Step): State {
    match step
    case Wait(t) => if t in s.blocked + s.woken + s.passed then s else Test(s, t)
    case CountDown =>
      var s' := s.(count := s.count - 1);
      if s'.count == 0 then s'.(blocked := {}, woken := s.woken + s.blocked) else s'
    case WakeByChance(t) => if t in s.blocked then s.(blocked := s.blocked - {t}, woken := s.woken + {t}) else s
    case Resume(t) => if t in s.woken then Test(s.(woken := s.woken - {t}), t) else s
  }

  function Run(n: int, steps: seq<Step>): State {
    if steps == [] then Initial(n) else Next(Run(n, steps[..|steps| - 1]), steps[|steps| - 1])
  }

  function CountDowns(steps: seq<Step>): nat {
    if steps == [] then 0 else CountDowns(steps[..|steps| - 1]) + if steps[|steps| - 1] == CountDown then 1 else 0
  }

  /**
   In every run from a count of n: a thread has passed only when countDown was called n times; and
   once it was, no thread sleeps: each that called wait has passed, or is awake and will.
   */
  lemma {:induction false} LatchIsExact(n: int, steps: seq<Step>)
    ensures var s := Run(n, steps);
            && s.count == n - CountDowns(steps)
            && (s.passed != {} ==> CountDowns(steps) >= n)
            && (CountDowns(steps) >= n ==> s.blocked == {})
  {
    if steps != [] {
      LatchIsExact(n, steps[..|steps| - 1]);
    }
  }

  /** A thread that is awake when the count has run out passes as soon as it gets the lock. */
  lemma ResumePasses(n: int, steps: seq<Step>, t: Thread)
    requires CountDowns(steps) >= n && t in Run(n, steps).woken
    ensures t in Run(n, steps + [Resume(t)]).passed
  {
    LatchIsExact(n, steps);
    assert (steps + [Resume(t)])[..|steps|] == steps;
  }

  /** Nobody who called wait is forgotten. */
  lemma {:induction false} NobodyIsForgotten(n: int, steps: seq<Step>, t: Thread)
    requires Wait(t) in steps
    ensures t in Run(n, steps).blocked + Run(n, steps).woken + Run(n, steps).passed
  {
    var front, last := steps[..|steps| - 1], steps[|steps| - 1];
    assert steps == front + [last];
    if Wait(t) in front {
      NobodyIsForgotten(n, front, t);
    }
  }
}
