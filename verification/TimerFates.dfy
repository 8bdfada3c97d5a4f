/**
 What becomes of a timer, told from the call that made it: when it waits, for what time, with which of
 the fields it was given; when it fires; when it is deleted.
 */
module TimerFates {
  import opened TimerQueue

  // ---------------------------------------------------------------- one step, call by call

  /** The calls within a step, in order, and the queue they find. */
  function OpsOf(q: Queue, s: Step): seq<Op> {
    match s
    case Call(op) => [op]
    case Tick(now, scripts, _) => Callbacks(scripts, |Due(q.pending, now)|)
  }

  function Opened(q: Queue, s: Step): Queue {
    match s
    case Call(_) => q
    case Tick(now, _, _) => Begin(q, now)
  }

  /** The id that the j-th call of a step gives a timer if it makes one. */
  function MadeId(q: Queue, s: Step, j: nat): Id
    requires j < |OpsOf(q, s)| && OpsOf(q, s)[j].Add?
  {
    var r := ApplyAll(Opened(q, s), OpsOf(q, s)[..j]);
    Id(Alloc(r.pending.Keys + r.firing.Keys, OpsOf(q, s)[j].hint), |r.born| + 1)
  }

  /** A timer waits for a time, or it has been deleted. */
  datatype Fate = Waiting(due: int) | Over

  /**
   What a step makes of a timer that had been made before.  A cancelling call ends it; a batch no earlier
   than its time fires it, and then it waits for one interval more, or is over when it does not recur.
   */
  function Onward(f: Fate, q: Queue, s: Step, id: Id, recurring: bool, step: nat): Fate {
    match f
    case Over => Over
    case Waiting(due) =>
      if Cancel(id) in OpsOf(q, s) then Over
      else if s.Tick? && s.now >= due then
        if recurring then Waiting(s.now + step) else Over
      else Waiting(due)
  }

  /** The j-th call of step k makes a timer. */
  ghost predicate Makes(steps: seq<Step>, k: nat, j: nat) {
    && k < |steps| && j < |OpsOf(Run(steps[..k]), steps[k])|
    && OpsOf(Run(steps[..k]), steps[k])[j].Add?
  }

  /** That call, and the id of its timer. */
  ghost function Made(steps: seq<Step>, k: nat, j: nat): Op
    requires Makes(steps, k, j)
  {
    OpsOf(Run(steps[..k]), steps[k])[j]
  }

  ghost function Its(steps: seq<Step>, k: nat, j: nat): Id
    requires Makes(steps, k, j)
  {
    MadeId(Run(steps[..k]), steps[k], j)
  }

  /** The fate of that timer when step n begins, told from the fields of the call. */
  ghost function FateOf(steps: seq<Step>, k: nat, j: nat, n: nat): Fate
    requires Makes(steps, k, j) && k < n <= |steps|
    decreases n
  {
    var made, id := Made(steps, k, j), Its(steps, k, j);
    if n == k + 1 then
      if Cancel(id) in OpsOf(Run(steps[..k]), steps[k])[j + 1..] then Over else Waiting(made.expiration)
    else
      Onward(FateOf(steps, k, j, n - 1), Run(steps[..n - 1]), steps[n - 1], id, made.recurring, made.step)
  }

  /** The timer waits with these fields, or it is gone and was deleted once. */
  ghost predicate Is(q: Queue, id: Id, recurring: bool, step: nat, f: Fate) {
    match f
    case Waiting(due) => id.address in q.pending && q.pending[id.address] == Timer(due, recurring, step, id.sequence)
    case Over => Gone(q, id) && q.freed[id] == 1
  }

  // ---------------------------------------------------------------- the call that makes it

  lemma OneMoreOp(q: Queue, ops: seq<Op>, j: nat)
    requires j < |ops|
    ensures ApplyAll(q, ops[..j + 1]) == Apply(ApplyAll(q, ops[..j]), ops[j])
  {
    assert ops[..j + 1][..j] == ops[..j];
  }

  /** The queue right behind the call that makes a timer, within its step. */
  lemma MadeHere(q: Queue, s: Step, j: nat)
    requires Quiet(q) && j < |OpsOf(q, s)| && OpsOf(q, s)[j].Add?
    ensures var made := OpsOf(q, s)[j];
            var id := MadeId(q, s, j);
            var r := ApplyAll(Opened(q, s), OpsOf(q, s)[..j + 1]);
            && Sound(r) && id.address !in r.firing && r.firing == Opened(q, s).firing && r.calling == Opened(q, s).calling
            && id.address in r.pending
            && r.pending[id.address] == Timer(made.expiration, made.recurring, made.step, id.sequence)
  {
    hide AddTimer, Sound;
    var ops, b := OpsOf(q, s), Opened(q, s);
    OpenedIsSound(q, s);
    ApplyAllKeepsSound(b, ops[..j]);
    ApplyAllKeepsSound(b, ops[..j + 1]);
    ApplyAllKeepsBatch(b, ops[..j + 1]);
    ApplyAllKeepsBatch(b, ops[..j]);
    OneMoreOp(b, ops, j);
    AddMakes(ApplyAll(b, ops[..j]), ops[j]);
  }

  lemma OpenedIsSound(q: Queue, s: Step)
    requires Quiet(q)
    ensures Sound(Opened(q, s))
  {
    if s.Tick? { BeginKeepsSound(q, s.now); }
  }

  lemma LivesIsKnown(q: Queue, id: Id)
    requires Sound(q) && id in Ids(q.pending)
    ensures Known(q, id)
  {
    assert Lives(q, id);
  }

  /** A timer that was known and is not alive has been deleted, once. */
  lemma DeadIsGone(q: Queue, id: Id)
    requires Sound(q) && Known(q, id) && !Lives(q, id)
    ensures Gone(q, id) && q.freed[id] == 1
  {
  }

  /** Calls behind it, which may cancel it. */
  lemma {:induction false} AliveThrough(q: Queue, ops: seq<Op>, id: Id)
    requires Sound(q) && id in Ids(q.pending)
    ensures var r := ApplyAll(q, ops);
            && Sound(r) && Known(r, id) && r.firing == q.firing
            && if Cancel(id) in ops then id !in Ids(r.pending)
               else id.address in r.pending && r.pending[id.address] == q.pending[id.address]
  {
    hide Sound, ApplyAll;
    LivesIsKnown(q, id);
    OthersIff(q, ops, id);
    ApplyAllKeepsSound(q, ops);
    ApplyAllKeepsBatch(q, ops);
  }

  /** A waiting timer that is not in the batch, when the batch ends. */
  lemma WaitsThroughFinish(q: Queue, now: int, at: int, id: Id)
    requires Sound(q) && Known(q, id) && id.address !in q.firing
    ensures var r := Finish(q, now, at);
            if id in Ids(q.pending) then id.address in r.pending && r.pending[id.address] == q.pending[id.address]
            else Gone(r, id) && r.freed[id] == 1
  {
    hide Sound;
    FinishKeepsSound(q, now, at);
    assert id !in Ids(q.firing);
    assert q.pending.Keys !! q.firing.Keys by { ApartIs(q); }
    FinishIds(q, now, at, id);
    if id !in Ids(q.pending) { DeadIsGone(Finish(q, now, at), id); }
  }

  lemma ApartIs(q: Queue)
    requires Sound(q)
    ensures q.pending.Keys !! q.firing.Keys
  {
  }

  /** What its own step leaves of a timer. */
  lemma MadeFate(q: Queue, s: Step, j: nat)
    requires Quiet(q) && j < |OpsOf(q, s)| && OpsOf(q, s)[j].Add?
    ensures var made := OpsOf(q, s)[j];
            var id := MadeId(q, s, j);
            Is(Next(q, s), id, made.recurring, made.step,
               if Cancel(id) in OpsOf(q, s)[j + 1..] then Over else Waiting(made.expiration))
  {
    hide Sound, Apply, Begin, Finish, Callbacks, MadeId;
    var ops, b, id := OpsOf(q, s), Opened(q, s), MadeId(q, s, j);
    MadeHere(q, s, j);
    var r, rest := ApplyAll(b, ops[..j + 1]), ops[j + 1..];
    assert ops == ops[..j + 1] + rest;
    ApplyAllMore(b, ops[..j + 1], rest);
    AliveThrough(r, rest, id);
    var c := ApplyAll(b, ops);
    match s
    case Call(op) =>
      OneCall(q, op);
      NextIsQuiet(q, s);
      if Cancel(id) in rest { DeadIsGone(c, id) by { NothingFires(q, c, id); } }
    case Tick(now, scripts, at) =>
      WaitsThroughFinish(c, now, at, id);
  }

  lemma OneCall(q: Queue, op: Op)
    ensures ApplyAll(q, [op]) == Apply(q, op) == Next(q, Call(op))
  {
    hide Apply;
    assert [op][..0] == [];
  }

  lemma NothingFires(q: Queue, r: Queue, id: Id)
    requires Quiet(q) && r.firing == q.firing && id !in Ids(r.pending)
    ensures !Lives(r, id)
  {
  }

  // ---------------------------------------------------------------- every later step

  /** A timer fires in a step exactly when that step is a batch no earlier than its time. */
  lemma FiresWhenDue(q: Queue, s: Step, id: Id, recurring: bool, step: nat, f: Fate)
    requires Quiet(q) && Is(q, id, recurring, step, f)
    ensures id in Fires(q, s) <==> f.Waiting? && s.Tick? && s.now >= f.due
  {
    if s.Tick? && f.Waiting? && s.now >= f.due { assert id.address in Due(q.pending, s.now); }
    if f.Over? { GoneAfterNext(q, s, id); }
  }

  lemma NextFate(q: Queue, s: Step, id: Id, recurring: bool, step: nat, f: Fate)
    requires Quiet(q) && Is(q, id, recurring, step, f)
    ensures Is(Next(q, s), id, recurring, step, Onward(f, q, s, id, recurring, step))
  {
    hide Next, Sound, Callbacks;
    NextIsQuiet(q, s);
    match f
    case Over => OverStaysOver(q, s, id);
    case Waiting(due) => WaitingGoesOn(q, s, id, recurring, step, due);
  }

  lemma OverStaysOver(q: Queue, s: Step, id: Id)
    requires Quiet(q) && Gone(q, id) && q.freed[id] == 1
    ensures Gone(Next(q, s), id) && Next(q, s).freed[id] == 1
  {
    hide Next, Gone;
    GoneAfterNext(q, s, id);
    NextIsQuiet(q, s);
    FreedIsKnown(q, id);
    KnownAfterNext(q, s, id);
    GoneIsFreed(Next(q, s), id);
  }

  lemma FreedIsKnown(q: Queue, id: Id)
    requires Quiet(q) && id in q.freed
    ensures Known(q, id)
  {
  }

  lemma GoneIsFreed(q: Queue, id: Id)
    requires Quiet(q) && Known(q, id) && Gone(q, id)
    ensures q.freed[id] == 1
  {
  }

  lemma KnownAfterNext(q: Queue, s: Step, id: Id)
    requires Known(q, id)
    ensures Known(Next(q, s), id)
  {
    match s
    case Call(op) => BornGrows(q, op);
    case Tick(now, scripts, at) => ApplyAllKeepsBatch(Begin(q, now), Callbacks(scripts, |Due(q.pending, now)|));
  }

  lemma WaitingGoesOn(q: Queue, s: Step, id: Id, recurring: bool, step: nat, due: int)
    requires Quiet(q) && Is(q, id, recurring, step, Waiting(due))
    ensures Is(Next(q, s), id, recurring, step, Onward(Waiting(due), q, s, id, recurring, step))
  {
    hide Apply, Finish, Begin, Callbacks, Sound, HandleRead;
    var a := id.address;
    LivesIsKnown(q, id);
    NextIsQuiet(q, s);
    match s
    case Call(op) =>
      WaitsThrough(q, op, id);
      BornGrows(q, op);
      if op == Cancel(id) { DeadIsGone(Next(q, s), id); }
    case Tick(now, scripts, at) =>
      KnownAfterNext(q, s, id);
      if due <= now { RepeatsIff(q, now, scripts, at, a); } else { NotDueWaits(q, now, scripts, at, a); }
      if id !in Ids(Next(q, s).pending) { DeadIsGone(Next(q, s), id); }
  }

  lemma BornGrows(q: Queue, op: Op)
    ensures q.born <= Apply(q, op).born && Apply(q, op).firing == q.firing
  {
  }

  // ---------------------------------------------------------------- every run

  /**
   In every run, a timer made by any call, from outside or from a callback, waits, with the fields of that
   call and for the time its fate says, until it is over, and then it has been deleted once; and it
   fires in exactly the batches its fate says.
   */
  lemma {:induction false} FateHolds(steps: seq<Step>, k: nat, j: nat, n: nat)
    requires Makes(steps, k, j) && k < n <= |steps|
    ensures var made, f := Made(steps, k, j), FateOf(steps, k, j, n);
            && Is(Run(steps[..n]), Its(steps, k, j), made.recurring, made.step, f)
            && (n < |steps| ==>
                  (Its(steps, k, j) in Fires(Run(steps[..n]), steps[n])
                   <==> f.Waiting? && steps[n].Tick? && steps[n].now >= f.due))
    decreases n
  {
    hide Run, Next, OpsOf, MadeId, Quiet, Is, Fires, Onward;
    RunFront(steps, n);
    RunIsQuiet(steps[..n - 1]);
    RunIsQuiet(steps[..n]);
    var made, id, q := Made(steps, k, j), Its(steps, k, j), Run(steps[..n - 1]);
    if n == k + 1 {
      MadeFate(q, steps[k], j);
    } else {
      FateHolds(steps, k, j, n - 1);
      NextFate(q, steps[n - 1], id, made.recurring, made.step, FateOf(steps, k, j, n - 1));
    }
    if n < |steps| {
      FiresWhenDue(Run(steps[..n]), steps[n], id, made.recurring, made.step, FateOf(steps, k, j, n));
    }
  }

  /** No call behind the one that made it cancels the timer before step n. */
  ghost predicate Spared(steps: seq<Step>, k: nat, j: nat, n: nat)
    requires Makes(steps, k, j) && n <= |steps|
  {
    && Cancel(Its(steps, k, j)) !in OpsOf(Run(steps[..k]), steps[k])[j + 1..]
    && forall m :: k < m < n ==> Cancel(Its(steps, k, j)) !in OpsOf(Run(steps[..m]), steps[m])
  }

  /** No batch from step m on and before step n is as late as `due`. */
  predicate NoBatchBy(steps: seq<Step>, m: nat, n: nat, due: int)
    requires n <= |steps|
  {
    forall i :: m <= i < n && steps[i].Tick? ==> steps[i].now < due
  }

  /**
   A timer that nobody cancels waits for the time it was made for, and fires in the first batch that is
   no earlier, and in none before.
   */
  lemma {:induction false} FiresFirst(steps: seq<Step>, k: nat, j: nat, n: nat)
    requires Makes(steps, k, j) && k < n <= |steps|
    requires Spared(steps, k, j, n) && NoBatchBy(steps, k + 1, n, Made(steps, k, j).expiration)
    ensures var made, id, q := Made(steps, k, j), Its(steps, k, j), Run(steps[..n]);
            && id.address in q.pending
            && q.pending[id.address] == Timer(made.expiration, made.recurring, made.step, id.sequence)
            && (n < |steps| ==> (id in Fires(q, steps[n]) <==> steps[n].Tick? && steps[n].now >= made.expiration))
    decreases n
  {
    WaitsOn(steps, k, j, k + 1, n, Made(steps, k, j).expiration);
    FateHolds(steps, k, j, n);
  }

  lemma {:induction false} WaitsOn(steps: seq<Step>, k: nat, j: nat, m: nat, n: nat, due: int)
    requires Makes(steps, k, j) && k < m <= n <= |steps| && Spared(steps, k, j, n) && NoBatchBy(steps, m, n, due)
    requires FateOf(steps, k, j, m) == Waiting(due)
    ensures FateOf(steps, k, j, n) == Waiting(due)
    decreases n
  {
    hide OpsOf, Run, MadeId;
    if m < n { WaitsOn(steps, k, j, m, n - 1, due); }
  }

  /**
   When it fires, in step m, and nobody cancels it: one that recurs then waits for one interval behind that
   batch, and fires again in the first batch that is no earlier; one that does not is gone, deleted once.
   */
  lemma FiresAgain(steps: seq<Step>, k: nat, j: nat, m: nat, n: nat)
    requires Makes(steps, k, j) && k < m < n <= |steps| && Spared(steps, k, j, n)
    requires Its(steps, k, j) in Fires(Run(steps[..m]), steps[m])
    requires steps[m].Tick? && NoBatchBy(steps, m + 1, n, steps[m].now + Made(steps, k, j).step)
    ensures var made, id, q := Made(steps, k, j), Its(steps, k, j), Run(steps[..n]);
            var due := steps[m].now + made.step;
            if made.recurring then
              && id.address in q.pending
              && q.pending[id.address] == Timer(due, true, made.step, id.sequence)
              && (n < |steps| ==> (id in Fires(q, steps[n]) <==> steps[n].Tick? && steps[n].now >= due))
            else
              Gone(q, id) && q.freed[id] == 1 && (n < |steps| ==> id !in Fires(q, steps[n]))
  {
    hide OpsOf, Run, MadeId, Fires, Gone;
    FateHolds(steps, k, j, m);
    FateHolds(steps, k, j, n);
    if Made(steps, k, j).recurring {
      WaitsOn(steps, k, j, m + 1, n, steps[m].now + Made(steps, k, j).step);
    } else {
      StaysOver(steps, k, j, m + 1, n);
    }
  }

  lemma {:induction false} StaysOver(steps: seq<Step>, k: nat, j: nat, m: nat, n: nat)
    requires Makes(steps, k, j) && k < m <= n <= |steps| && FateOf(steps, k, j, m) == Over
    ensures FateOf(steps, k, j, n) == Over
    decreases n
  {
    hide OpsOf, Run, MadeId;
    if m < n { StaysOver(steps, k, j, m, n - 1); }
  }
}
