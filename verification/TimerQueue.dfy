/**
 What the timer queue does, said without its indexes: timers wait in one map, a batch of them fires,
 and the callbacks of the batch add and cancel timers as they like.
 */
module TimerQueue {

  /** Where a Timer object lives.  An address is free again once its timer is deleted. */
  type Address = nat

  /** A time is in microseconds; `step` is the interval of a recurring timer, cut to microseconds. */
  datatype Timer = Timer(expiration: int, recurring: bool, step: nat, sequence: nat)

  datatype Id = Id(address: Address, sequence: nat)

  /** addTime's interval: seconds as whole microseconds, what is over cut off, towards zero on either side. */
  function Micros(seconds: real): (n: int)
    ensures seconds >= 0.0 ==> 0 <= n && n as real <= seconds * 1000000.0 < (n + 1) as real
    ensures seconds < 0.0 ==> n <= 0 && (n - 1) as real < seconds * 1000000.0 <= n as real
  {
    if seconds >= 0.0 then (seconds * 1000000.0).Floor else -(-(seconds * 1000000.0)).Floor
  }

  /** The one-shot kernel timer: idle, or set at time `at` for `expiration`. */
  datatype Arming = Idle | For(expiration: int, at: int)

  /** howMuchTimeFromNow: never less than 100 microseconds. */
  function Delay(expiration: int, now: int): int {
    if expiration - now < 100 then 100 else expiration - now
  }

  /** When the kernel timer goes off. */
  function Deadline(a: Arming): int
    requires a.For?
  {
    a.at + Delay(a.expiration, a.at)
  }

  /** A call on the queue; `hint` is the allocator's choice of an address, `at` the time of the call. */
  datatype Op =
    | Add(expiration: int, recurring: bool, step: nat, hint: Address, at: int)
    | Cancel(id: Id)

  /**
   The queue: timers waiting, timers firing, ids cancelled while firing, whether callbacks are being
   called, the address each timer was made at (the n-th timer has sequence n), what was deleted,
   and the kernel timer.
   */
  datatype Queue = Queue(
    pending: map<Address, Timer>, firing: map<Address, Timer>, revoked: set<Id>, calling: bool,
    born: seq<Address>, freed: multiset<Id>, armed: Arming)

  const EMPTY := Queue(map[], map[], {}, false, [], multiset{}, Idle)

  function Ids(p: map<Address, Timer>): set<Id> {
    set a | a in p :: Id(a, p[a].sequence)
  }

  /** An address nothing lives at: the hint, or the next free one above it. */
  function Alloc(used: set<Address>, hint: Address): (a: Address)
    ensures a !in used && a >= hint
    decreases |used|
  {
    if hint in used then Alloc(used - {hint}, hint + 1) else hint
  }

  function AddTimer(q: Queue, expiration: int, recurring: bool, step: nat, hint: Address, at: int): Queue {
    var a := Alloc(q.pending.Keys + q.firing.Keys, hint);
    var earliest := forall b :: b in q.pending ==> expiration < q.pending[b].expiration;
    q.(pending := q.pending[a := Timer(expiration, recurring, step, |q.born| + 1)],
       born := q.born + [a],
       armed := if earliest then For(expiration, at) else q.armed)
  }

  function CancelTimer(q: Queue, id: Id): Queue {
    if id in Ids(q.pending) then q.(pending := q.pending - {id.address}, freed := q.freed + multiset{id})
    else if q.calling then q.(revoked := q.revoked + {id})
    else q
  }

  function Apply(q: Queue, op: Op): Queue {
    match op
    case Add(expiration, recurring, step, hint, at) => AddTimer(q, expiration, recurring, step, hint, at)
    case Cancel(id) => CancelTimer(q, id)
  }

  function ApplyAll(q: Queue, ops: seq<Op>): Queue {
    if ops == [] then q else Apply(ApplyAll(q, ops[..|ops| - 1]), ops[|ops| - 1])
  }

  function Due(p: map<Address, Timer>, now: int): map<Address, Timer> {
    map a | a in p && p[a].expiration <= now :: p[a]
  }

  function NotDue(p: map<Address, Timer>, now: int): map<Address, Timer> {
    map a | a in p && p[a].expiration > now :: p[a]
  }

  /** The kernel timer has gone off and was read; the due timers leave the queue. */
  function Begin(q: Queue, now: int): Queue {
    q.(pending := NotDue(q.pending, now), firing := Due(q.pending, now), revoked := {}, calling := true, armed := Idle)
  }

  /** The fired timers that go back into the queue. */
  function Requeued(q: Queue, now: int): map<Address, Timer> {
    map a | a in q.firing && q.firing[a].recurring && Id(a, q.firing[a].sequence) !in q.revoked
      :: q.firing[a].(expiration := now + q.firing[a].step)
  }

  function Dropped(q: Queue): set<Id> {
    set a | a in q.firing && (!q.firing[a].recurring || Id(a, q.firing[a].sequence) in q.revoked)
      :: Id(a, q.firing[a].sequence)
  }

  ghost predicate IsEarliest(p: map<Address, Timer>, e: int) {
    (exists a :: a in p && p[a].expiration == e) && forall a :: a in p ==> e <= p[a].expiration
  }

  lemma {:induction false} SomeEarliest(p: map<Address, Timer>)
    requires p != map[]
    ensures exists e :: IsEarliest(p, e)
    decreases |p|
  {
    var a :| a in p;
    var rest := p - {a};
    if rest == map[] {
      assert forall b :: b in p && b != a ==> b in rest;
      assert IsEarliest(p, p[a].expiration);
    } else {
      assert |rest| < |p| by { assert rest.Keys == p.Keys - {a}; assert |rest| == |rest.Keys| && |p| == |p.Keys|; }
      SomeEarliest(rest);
      var e :| IsEarliest(rest, e);
      var b :| b in rest && rest[b].expiration == e;
      var m := if p[a].expiration < e then p[a].expiration else e;
      assert IsEarliest(p, m) by {
        assert b in p && p[b].expiration == e;
        forall c | c in p ensures m <= p[c].expiration {
          if c != a { assert c in rest; }
        }
      }
    }
  }

  ghost function Earliest(p: map<Address, Timer>): (e: int)
    requires p != map[]
    ensures IsEarliest(p, e)
  {
    SomeEarliest(p);
    var e :| IsEarliest(p, e);
    e
  }

  /** The batch is over: recurring timers go back, the others are deleted, the kernel timer is set. */
  ghost function Finish(q: Queue, now: int, at: int): Queue {
    var p := q.pending + Requeued(q, now);
    q.(pending := p, firing := map[], calling := false,
       freed := q.freed + multiset(Dropped(q)),
       armed := if p != map[] && Earliest(p) > 0 then For(Earliest(p), at) else q.armed)
  }

  /** What the callbacks of a batch of n timers do, one script after the other. */
  function Callbacks(scripts: seq<seq<Op>>, n: nat): seq<Op>
    decreases n
  {
    if n == 0 then []
    else Callbacks(scripts, n - 1) + (if n <= |scripts| then scripts[n - 1] else [])
  }

  /** handleRead at time `now`; the i-th callback does scripts[i]. */
  ghost function HandleRead(q: Queue, now: int, scripts: seq<seq<Op>>, at: int): Queue {
    Finish(ApplyAll(Begin(q, now), Callbacks(scripts, |Due(q.pending, now)|)), now, at)
  }

  /** The destructor. */
  function Destroy(q: Queue): Queue {
    q.(pending := map[], freed := q.freed + multiset(Ids(q.pending)))
  }

  // ---------------------------------------------------------------- every timer has one life

  /** The id of the n-th timer ever made. */
  function Nth(q: Queue, n: nat): Id
    requires 1 <= n <= |q.born|
  {
    Id(q.born[n - 1], n)
  }

  predicate Known(q: Queue, id: Id) {
    1 <= id.sequence <= |q.born| && id.address == q.born[id.sequence - 1]
  }

  predicate Lives(q: Queue, id: Id) {
    id in Ids(q.pending) || id in Ids(q.firing)
  }

  /** No address is used twice, and every timer ever made either lives or was deleted exactly once. */
  ghost predicate Sound(q: Queue) {
    && q.pending.Keys !! q.firing.Keys
    && (forall id :: Lives(q, id) || id in q.freed ==> Known(q, id))
    && forall id :: Known(q, id) ==> q.freed[id] == if Lives(q, id) then 0 else 1
  }

  lemma AddKeepsSound(q: Queue, expiration: int, recurring: bool, step: nat, hint: Address, at: int)
    requires Sound(q)
    ensures Sound(AddTimer(q, expiration, recurring, step, hint, at))
  {
    var q' := AddTimer(q, expiration, recurring, step, hint, at);
    var a := q'.born[|q.born|];
    forall id
      ensures Lives(q', id) <==> Lives(q, id) || id == Id(a, |q.born| + 1)
      ensures Known(q', id) <==> Known(q, id) || id == Id(a, |q.born| + 1)
    {
      assert a !in q.pending && a !in q.firing;
      if id in Ids(q.pending) { assert id.address in q'.pending && q'.pending[id.address] == q.pending[id.address]; }
      if id in Ids(q'.pending) && id.address != a { assert q'.pending[id.address] == q.pending[id.address]; }
      if id == Id(a, |q.born| + 1) { assert a in q'.pending; }
    }
  }

  /** A new timer waits, at an address of its own, with the fields it was given, and every other timer as it did. */
  lemma AddMakes(q: Queue, op: Op)
    requires op.Add?
    ensures var a := Alloc(q.pending.Keys + q.firing.Keys, op.hint);
            var p := AddTimer(q, op.expiration, op.recurring, op.step, op.hint, op.at).pending;
            && a !in q.pending && a !in q.firing
            && p.Keys == q.pending.Keys + {a}
            && p[a] == Timer(op.expiration, op.recurring, op.step, |q.born| + 1)
            && forall b :: b in q.pending ==> p[b] == q.pending[b]
  {
  }

  lemma CancelKeepsSound(q: Queue, id: Id)
    requires Sound(q)
    ensures Sound(CancelTimer(q, id))
  {
    if id in Ids(q.pending) {
      var q' := CancelTimer(q, id);
      forall x
        ensures Lives(q', x) <==> Lives(q, x) && x != id
      {
        if x in Ids(q.pending) && x != id {
          assert x.address != id.address;
          assert x.address in q'.pending;
        }
      }
    }
  }

  lemma {:induction false} ApplyAllKeepsSound(q: Queue, ops: seq<Op>)
    requires Sound(q)
    ensures Sound(ApplyAll(q, ops))
  {
    if ops != [] {
      var front := ops[..|ops| - 1];
      ApplyAllKeepsSound(q, front);
      match ops[|ops| - 1]
      case Add(e, r, s, h, t) => AddKeepsSound(ApplyAll(q, front), e, r, s, h, t);
      case Cancel(id) => CancelKeepsSound(ApplyAll(q, front), id);
    }
  }

  lemma BeginKeepsSound(q: Queue, now: int)
    requires Sound(q) && q.firing == map[]
    ensures Sound(Begin(q, now))
  {
    var q' := Begin(q, now);
    forall id
      ensures Lives(q', id) <==> Lives(q, id)
    {
      if id in Ids(q.pending) {
        assert id.address in (if q.pending[id.address].expiration <= now then q'.firing else q'.pending);
      }
    }
  }

  lemma FinishKeepsSound(q: Queue, now: int, at: int)
    requires Sound(q)
    ensures Sound(Finish(q, now, at))
  {
    var q' := Finish(q, now, at);
    forall id
      ensures id in Dropped(q) ==> Lives(q, id)
      ensures Lives(q', id) <==> Lives(q, id) && id !in Dropped(q)
    {
      FinishIds(q, now, at, id);
    }
  }

  lemma FinishIds(q: Queue, now: int, at: int, id: Id)
    requires q.pending.Keys !! q.firing.Keys
    ensures id in Dropped(q) ==> id in Ids(q.firing)
    ensures id in Ids(Finish(q, now, at).pending) <==> Lives(q, id) && id !in Dropped(q)
  {
    var r := Requeued(q, now);
    var p := q.pending + r;
    if id.address in p {
      assert p[id.address] == if id.address in r then r[id.address] else q.pending[id.address];
    }
    if id in Ids(q.firing) {
      assert id !in Dropped(q) <==> id.address in r;
    }
    if id in Ids(q.pending) {
      assert id.address !in q.firing && id.address !in r && id.address in p;
    }
  }

  // ---------------------------------------------------------------- runs

  /** One event of the loop: a call from outside any batch, or the kernel timer going off. */
  datatype Step = Call(op: Op) | Tick(now: int, scripts: seq<seq<Op>>, at: int)

  /** Clocks count from 1970. */
  predicate IsTimely(s: Step) {
    s.Tick? ==> s.now > 0
  }

  ghost function Next(q: Queue, s: Step): Queue {
    match s
    case Call(op) => Apply(q, op)
    case Tick(now, scripts, at) => HandleRead(q, now, scripts, at)
  }

  ghost function Run(steps: seq<Step>): Queue {
    if steps == [] then EMPTY else Next(Run(steps[..|steps| - 1]), steps[|steps| - 1])
  }

  /** The timers whose callbacks a step runs. */
  function Fires(q: Queue, s: Step): set<Id> {
    if s.Tick? then Ids(Due(q.pending, s.now)) else {}
  }

  /** Between steps, nothing is firing. */
  ghost predicate Quiet(q: Queue) {
    Sound(q) && q.firing == map[] && !q.calling
  }

  lemma {:induction false} ApplyAllKeepsBatch(q: Queue, ops: seq<Op>)
    ensures ApplyAll(q, ops).firing == q.firing && ApplyAll(q, ops).calling == q.calling
    ensures q.born <= ApplyAll(q, ops).born
  {
    if ops != [] {
      ApplyAllKeepsBatch(q, ops[..|ops| - 1]);
    }
  }

  lemma {:induction false} ApplyAllMore(q: Queue, a: seq<Op>, b: seq<Op>)
    ensures ApplyAll(q, a + b) == ApplyAll(ApplyAll(q, a), b)
    decreases |b|
  {
    hide Apply;
    if b == [] {
      assert a + b == a;
    } else {
      var ab := a + b;
      assert ab[..|ab| - 1] == a + b[..|b| - 1];
      ApplyAllMore(q, a, b[..|b| - 1]);
    }
  }

  lemma NextIsQuiet(q: Queue, s: Step)
    requires Quiet(q)
    ensures Quiet(Next(q, s))
  {
    match s
    case Call(op) =>
      ApplyAllKeepsSound(q, [op]);
      assert ApplyAll(q, [op]) == Apply(q, op) by { assert [op][..0] == []; }
    case Tick(now, scripts, at) =>
      BeginKeepsSound(q, now);
      var ops := Callbacks(scripts, |Due(q.pending, now)|);
      ApplyAllKeepsSound(Begin(q, now), ops);
      FinishKeepsSound(ApplyAll(Begin(q, now), ops), now, at);
  }

  /** In every run, every timer ever made lives in the queue or was deleted, exactly once. */
  lemma {:induction false} RunIsQuiet(steps: seq<Step>)
    ensures Quiet(Run(steps))
  {
    if steps != [] {
      RunIsQuiet(steps[..|steps| - 1]);
      NextIsQuiet(Run(steps[..|steps| - 1]), steps[|steps| - 1]);
    }
  }

  /** When the queue is destroyed, every timer ever made has been deleted exactly once. */
  lemma FreedOnce(steps: seq<Step>, n: nat)
    requires 1 <= n <= |Run(steps).born|
    ensures Destroy(Run(steps)).freed[Nth(Run(steps), n)] == 1
    ensures forall id :: id in Destroy(Run(steps)).freed ==> Known(Run(steps), id)
  {
    RunIsQuiet(steps);
    var q := Run(steps);
    assert Known(q, Nth(q, n));
  }

  // ---------------------------------------------------------------- what a batch does to its timers

  lemma RevokesIff(q: Queue, op: Op, id: Id)
    requires q.pending.Keys !! q.firing.Keys && q.calling && id in Ids(q.firing)
    ensures id in Apply(q, op).revoked <==> id in q.revoked || op == Cancel(id)
  {
    assert id.address in q.firing;
  }

  /** An id in the batch is revoked exactly when a callback cancels it. */
  lemma {:induction false} RevokedIff(q: Queue, ops: seq<Op>, id: Id)
    requires Sound(q) && q.calling && q.revoked == {} && id in Ids(q.firing)
    ensures id in ApplyAll(q, ops).revoked <==> Cancel(id) in ops
  {
    if ops != [] {
      hide Apply;
      var front, last := ops[..|ops| - 1], ops[|ops| - 1];
      RevokedIff(q, front, id);
      ApplyAllKeepsBatch(q, front);
      ApplyAllKeepsSound(q, front);
      assert ops == front + [last];
      RevokesIff(ApplyAll(q, front), last, id);
    }
  }

  /**
   A fired timer is queued again, one interval after the batch's time, if and only if it recurs and
   no callback of the batch cancelled it; otherwise it was deleted.
   */
  lemma RepeatsIff(q: Queue, now: int, scripts: seq<seq<Op>>, at: int, a: Address)
    requires Quiet(q) && a in Due(q.pending, now)
    ensures var t := q.pending[a];
            var q' := HandleRead(q, now, scripts, at);
            var ops := Callbacks(scripts, |Due(q.pending, now)|);
            if t.recurring && Cancel(Id(a, t.sequence)) !in ops
            then a in q'.pending && q'.pending[a] == t.(expiration := now + t.step)
            else Id(a, t.sequence) !in Ids(q'.pending) && q'.freed[Id(a, t.sequence)] == 1
  {
    var id := Id(a, q.pending[a].sequence);
    var b := Begin(q, now);
    var ops := Callbacks(scripts, |Due(q.pending, now)|);
    BeginKeepsSound(q, now);
    assert a in b.firing && id in Ids(b.firing);
    RevokedIff(b, ops, id);
    ApplyAllKeepsBatch(b, ops);
    ApplyAllKeepsSound(b, ops);
    var c := ApplyAll(b, ops);
    FinishKeepsSound(c, now, at);
    FinishIds(c, now, at, id);
    assert Known(c, id) && Known(Finish(c, now, at), id);
    if q.pending[a].recurring && Cancel(id) !in ops {
      assert a in Requeued(c, now);
    } else {
      assert id in Dropped(c);
    }
  }

  /** One call and one timer that was made before: it stays in the queue unless the call cancels it. */
  lemma WaitsThrough(q: Queue, op: Op, id: Id)
    requires Sound(q) && Known(q, id)
    ensures id in Ids(Apply(q, op).pending) <==> id in Ids(q.pending) && op != Cancel(id)
    ensures id in Ids(Apply(q, op).pending) ==> Apply(q, op).pending[id.address] == q.pending[id.address]
  {
    var q' := Apply(q, op);
    if id in Ids(q.pending) && op != Cancel(id) {
      assert id.address in q'.pending;
    }
    if id in Ids(q'.pending) && id.address in q.pending {
      assert q'.pending[id.address].sequence <= |q.born|;
    }
  }

  /** What the callbacks leave of the timers that were not due. */
  lemma {:induction false} OthersIff(q: Queue, ops: seq<Op>, id: Id)
    requires Sound(q) && id in Ids(q.pending)
    ensures id in Ids(ApplyAll(q, ops).pending) <==> Cancel(id) !in ops
    ensures id in Ids(ApplyAll(q, ops).pending) ==> ApplyAll(q, ops).pending[id.address] == q.pending[id.address]
  {
    if ops != [] {
      var front, last := ops[..|ops| - 1], ops[|ops| - 1];
      OthersIff(q, front, id);
      ApplyAllKeepsSound(q, front);
      ApplyAllKeepsBatch(q, front);
      assert ops == front + [last];
      assert Known(q, id) && Known(ApplyAll(q, front), id);
      hide Apply, Sound;
      WaitsThrough(ApplyAll(q, front), last, id);
    }
  }

  /** A timer that was not due waits on, untouched, unless a callback of the batch cancels it. */
  lemma NotDueWaits(q: Queue, now: int, scripts: seq<seq<Op>>, at: int, a: Address)
    requires Quiet(q) && a in NotDue(q.pending, now)
    ensures var t := q.pending[a];
            var q' := HandleRead(q, now, scripts, at);
            var ops := Callbacks(scripts, |Due(q.pending, now)|);
            if Cancel(Id(a, t.sequence)) in ops
            then Id(a, t.sequence) !in Ids(q'.pending) && q'.freed[Id(a, t.sequence)] == 1
            else a in q'.pending && q'.pending[a] == t
  {
    var id := Id(a, q.pending[a].sequence);
    var b := Begin(q, now);
    var ops := Callbacks(scripts, |Due(q.pending, now)|);
    BeginKeepsSound(q, now);
    assert a in b.pending && id in Ids(b.pending);
    OthersIff(b, ops, id);
    ApplyAllKeepsBatch(b, ops);
    ApplyAllKeepsSound(b, ops);
    var c := ApplyAll(b, ops);
    FinishKeepsSound(c, now, at);
    FinishIds(c, now, at, id);
    assert Known(b, id) && Known(c, id) && Known(Finish(c, now, at), id);
    assert id in Ids(c.firing) ==> a in b.firing;
    if Cancel(id) !in ops {
      assert a !in c.firing;
    }
  }

  // ---------------------------------------------------------------- a cancelled timer never fires again

  /** A timer that was made and is no more. */
  predicate Gone(q: Queue, id: Id) {
    1 <= id.sequence <= |q.born| && !Lives(q, id)
  }

  lemma GoneAfterApply(q: Queue, op: Op, id: Id)
    requires Gone(q, id)
    ensures Gone(Apply(q, op), id)
  {
    NewIds(q, op);
  }

  /** A call adds at most the next timer, and leaves the batch alone. */
  lemma NewIds(q: Queue, op: Op)
    ensures var q' := Apply(q, op);
            && q'.firing == q.firing && q.born <= q'.born
            && forall x :: x in Ids(q'.pending) ==> x in Ids(q.pending) || x.sequence == |q.born| + 1
  {
  }

  lemma {:induction false} GoneAfterAll(q: Queue, ops: seq<Op>, id: Id)
    requires Gone(q, id)
    ensures Gone(ApplyAll(q, ops), id)
  {
    if ops != [] {
      GoneAfterAll(q, ops[..|ops| - 1], id);
      GoneAfterApply(ApplyAll(q, ops[..|ops| - 1]), ops[|ops| - 1], id);
    }
  }

  lemma GoneAfterFinish(q: Queue, now: int, at: int, id: Id)
    requires Sound(q) && 1 <= id.sequence <= |q.born| && (Gone(q, id) || (id in Ids(q.firing) && id in q.revoked))
    ensures Gone(Finish(q, now, at), id)
  {
    FinishIds(q, now, at, id);
  }

  lemma GoneAfterNext(q: Queue, s: Step, id: Id)
    requires Quiet(q) && Gone(q, id)
    ensures Gone(Next(q, s), id) && id !in Fires(q, s)
  {
    match s
    case Call(op) => GoneAfterApply(q, op, id);
    case Tick(now, scripts, at) =>
      var b, ops := Begin(q, now), Callbacks(scripts, |Due(q.pending, now)|);
      assert forall a :: a in b.firing || a in b.pending ==> a in q.pending;
      BeginKeepsSound(q, now);
      GoneAfterAll(b, ops, id);
      ApplyAllKeepsSound(b, ops);
      GoneAfterFinish(ApplyAll(b, ops), now, at, id);
  }

  /** Within this step, a call cancels the timer `id`, which had been made before. */
  ghost predicate Cancels(q: Queue, s: Step, id: Id) {
    match s
    case Call(op) => op == Cancel(id) && 1 <= id.sequence <= |q.born|
    case Tick(now, scripts, _) =>
      var ops := Callbacks(scripts, |Due(q.pending, now)|);
      exists k :: 0 <= k < |ops| && ops[k] == Cancel(id)
                  && 1 <= id.sequence <= |ApplyAll(Begin(q, now), ops[..k]).born|
  }

  /** Behind the call that cancels a timer, it is gone, or firing and revoked. */
  lemma {:induction false} CancelledIn(q: Queue, ops: seq<Op>, k: nat, id: Id)
    requires Sound(q) && q.calling && k < |ops| && ops[k] == Cancel(id)
    requires 1 <= id.sequence <= |ApplyAll(q, ops[..k]).born|
    ensures Hit(ApplyAll(q, ops), id)
  {
    hide Hit, Sound;
    var front, last := ops[..|ops| - 1], ops[|ops| - 1];
    ApplyAllKeepsSound(q, front);
    ApplyAllKeepsBatch(q, front);
    var r := ApplyAll(q, front);
    if k == |ops| - 1 {
      CancelHits(r, id);
    } else {
      assert front[..k] == ops[..k];
      CancelledIn(q, front, k, id);
      StaysCancelled(r, last, id);
    }
  }

  /** A cancelled timer is gone, or it fires and is revoked. */
  predicate Hit(q: Queue, id: Id) {
    1 <= id.sequence <= |q.born| && (Gone(q, id) || (id in Ids(q.firing) && id in q.revoked))
  }

  lemma CancelHits(q: Queue, id: Id)
    requires Sound(q) && q.calling && 1 <= id.sequence <= |q.born|
    ensures Hit(CancelTimer(q, id), id)
  {
    assert id in Ids(q.pending) && id in Ids(q.firing) ==> id.address in q.pending && id.address in q.firing;
  }

  lemma StaysCancelled(q: Queue, op: Op, id: Id)
    requires q.calling && Hit(q, id)
    ensures Hit(Apply(q, op), id)
  {
    NewIds(q, op);
  }

  lemma GoneOnceCancelled(q: Queue, s: Step, id: Id)
    requires Quiet(q) && Cancels(q, s, id)
    ensures Gone(Next(q, s), id)
  {
    match s
    case Call(op) =>
    case Tick(now, scripts, at) =>
      var b, ops := Begin(q, now), Callbacks(scripts, |Due(q.pending, now)|);
      var k :| 0 <= k < |ops| && ops[k] == Cancel(id) && 1 <= id.sequence <= |ApplyAll(b, ops[..k]).born|;
      BeginKeepsSound(q, now);
      CancelledIn(b, ops, k, id);
      ApplyAllKeepsSound(b, ops);
      GoneAfterFinish(ApplyAll(b, ops), now, at, id);
  }

  /**
   In every run: once a call cancels a timer that had been made, from outside or from a callback (of
   that very timer, or of another one in the same batch), it never fires in any later step, not even
   when its address is used again.
   */
  lemma {:induction false} CancelledNeverFires(steps: seq<Step>, k: nat, n: nat, id: Id)
    requires k < n <= |steps| && Cancels(Run(steps[..k]), steps[k], id)
    ensures Gone(Run(steps[..n]), id)
    ensures n < |steps| ==> id !in Fires(Run(steps[..n]), steps[n])
  {
    hide Run, Next, Cancels, Fires, Gone, Quiet;
    RunFront(steps, n);
    RunIsQuiet(steps[..n - 1]);
    if k == n - 1 {
      GoneOnceCancelled(Run(steps[..k]), steps[k], id);
    } else {
      CancelledNeverFires(steps, k, n - 1, id);
      GoneAfterNext(Run(steps[..n - 1]), steps[n - 1], id);
    }
    if n < |steps| {
      RunIsQuiet(steps[..n]);
      GoneAfterNext(Run(steps[..n]), steps[n], id);
    }
  }

  lemma RunFront(steps: seq<Step>, n: nat)
    requires 0 < n <= |steps|
    ensures Run(steps[..n]) == Next(Run(steps[..n - 1]), steps[n - 1])
  {
    assert steps[..n][..n - 1] == steps[..n - 1];
  }

  // ---------------------------------------------------------------- the kernel timer

  /** The kernel timer is set for no later than the expiration of any timer waiting. */
  predicate Armed(q: Queue) {
    forall a :: a in q.pending ==> q.armed.For? && q.armed.expiration <= q.pending[a].expiration
  }

  /** While callbacks run, this much is certain of timers that a callback added for the past. */
  predicate PastArmed(q: Queue, now: int) {
    forall a :: a in q.pending && q.pending[a].expiration <= now ==>
                  q.armed.For? && q.armed.expiration <= q.pending[a].expiration
  }

  lemma ApplyKeepsPastArmed(q: Queue, op: Op, now: int)
    requires PastArmed(q, now)
    ensures PastArmed(Apply(q, op), now)
  {
    var q' := Apply(q, op);
    if op.Add? && op.expiration <= now && q'.armed == q.armed {
      if forall b :: b in q.pending ==> op.expiration < q.pending[b].expiration {
      } else {
        var b :| b in q.pending && op.expiration >= q.pending[b].expiration;
        assert q.armed.For? && q.armed.expiration <= op.expiration;
      }
    }
  }

  lemma {:induction false} ApplyAllKeepsPastArmed(q: Queue, ops: seq<Op>, now: int)
    requires PastArmed(q, now)
    ensures PastArmed(ApplyAll(q, ops), now)
  {
    if ops != [] {
      ApplyAllKeepsPastArmed(q, ops[..|ops| - 1], now);
      ApplyKeepsPastArmed(ApplyAll(q, ops[..|ops| - 1]), ops[|ops| - 1], now);
    }
  }

  lemma ApplyKeepsArmed(q: Queue, op: Op)
    requires Armed(q)
    ensures Armed(Apply(q, op))
  {
    if op.Add? {
      ApplyKeepsPastArmed(q, op, op.expiration);
      var q' := Apply(q, op);
      if q'.armed != q.armed {
        assert forall b :: b in q.pending ==> op.expiration < q.pending[b].expiration;
      } else if q.pending != map[] {
        var b :| b in q.pending;
      }
    }
  }

  lemma HandleReadArms(q: Queue, now: int, scripts: seq<seq<Op>>, at: int)
    requires now > 0
    ensures Armed(HandleRead(q, now, scripts, at))
  {
    var b, ops := Begin(q, now), Callbacks(scripts, |Due(q.pending, now)|);
    ApplyAllKeepsPastArmed(b, ops, now);
    var c := ApplyAll(b, ops);
    var f := Finish(c, now, at);
    if f.pending != map[] && Earliest(f.pending) <= 0 {
      var a :| a in f.pending && f.pending[a].expiration == Earliest(f.pending);
      assert a !in Requeued(c, now) && a in c.pending;
      forall x | x in f.pending
        ensures f.armed.For? && f.armed.expiration <= f.pending[x].expiration
      {
        assert c.armed.For? && c.armed.expiration <= c.pending[a].expiration;
      }
    }
  }

  /**
   In every run whose clock has left 1970: outside handleRead, when a timer waits, the kernel timer
   is set, and goes off no later than the earliest expiration, or 100 microseconds after it was set.
   */
  lemma {:induction false} AlwaysArmed(steps: seq<Step>)
    requires forall i :: 0 <= i < |steps| ==> IsTimely(steps[i])
    ensures Armed(Run(steps))
    ensures var q := Run(steps);
            q.pending != map[] ==>
              && q.armed.For?
              && (Deadline(q.armed) <= Earliest(q.pending) || Deadline(q.armed) == q.armed.at + 100)
  {
    if steps != [] {
      var front, last := steps[..|steps| - 1], steps[|steps| - 1];
      AlwaysArmed(front);
      match last
      case Call(op) => ApplyKeepsArmed(Run(front), op);
      case Tick(now, scripts, at) =>
        assert IsTimely(last);
        HandleReadArms(Run(front), now, scripts, at);
    }
    var q := Run(steps);
    if q.pending != map[] {
      var a :| a in q.pending && q.pending[a].expiration == Earliest(q.pending);
    }
  }

  /** Nothing within this step cancels a timer. */
  ghost predicate CancelsNothing(q: Queue, s: Step) {
    match s
    case Call(op) => op.Add?
    case Tick(now, scripts, _) => forall op :: op in Callbacks(scripts, |Due(q.pending, now)|) ==> op.Add?
  }

  /** The kernel timer is set for the earliest timer, at least as soon as that one is no later than `now`. */
  ghost predicate ArmedFor(q: Queue, now: int) {
    q.pending != map[] && Earliest(q.pending) <= now ==> q.armed.For? && q.armed.expiration == Earliest(q.pending)
  }

  lemma EarliestIs(p: map<Address, Timer>, e: int)
    requires p != map[] && IsEarliest(p, e)
    ensures Earliest(p) == e
  {
  }

  lemma AddKeepsArmedFor(q: Queue, op: Op, now: int)
    requires op.Add? && ArmedFor(q, now)
    ensures ArmedFor(Apply(q, op), now)
  {
    hide Earliest;
    AddMakes(q, op);
    var q', a := Apply(q, op), Alloc(q.pending.Keys + q.firing.Keys, op.hint);
    if forall b :: b in q.pending ==> op.expiration < q.pending[b].expiration {
      assert a in q'.pending && q'.pending[a].expiration == op.expiration;
      EarliestIs(q'.pending, op.expiration);
    } else {
      var b :| b in q.pending && q.pending[b].expiration <= op.expiration;
      var e := Earliest(q.pending);
      var c :| c in q.pending && q.pending[c].expiration == e;
      assert c in q'.pending && q'.pending[c].expiration == e;
      EarliestIs(q'.pending, e);
    }
  }

  lemma {:induction false} AddsKeepArmedFor(q: Queue, ops: seq<Op>, now: int)
    requires (forall op :: op in ops ==> op.Add?) && ArmedFor(q, now)
    ensures ArmedFor(ApplyAll(q, ops), now)
  {
    hide ArmedFor, Apply;
    if ops != [] {
      var front, last := ops[..|ops| - 1], ops[|ops| - 1];
      assert ops == front + [last];
      AddsKeepArmedFor(q, front, now);
      AddKeepsArmedFor(ApplyAll(q, front), last, now);
    }
  }

  /** The batch's end sets the kernel timer for the earliest timer that then waits. */
  lemma FinishArmsFor(q: Queue, now: int, at: int)
    requires now > 0 && ArmedFor(q, now) && Sound(q)
    ensures var f := Finish(q, now, at);
            f.pending != map[] ==> f.armed.For? && f.armed.expiration == Earliest(f.pending)
  {
    hide Earliest;
    var f := Finish(q, now, at);
    if f.pending != map[] && Earliest(f.pending) <= 0 {
      var e := Earliest(f.pending);
      var a :| a in f.pending && f.pending[a].expiration == e;
      assert a !in Requeued(q, now) && a in q.pending && q.pending[a].expiration == e;
      forall b | b in q.pending
        ensures e <= q.pending[b].expiration
      {
        assert b !in q.firing && b in f.pending && f.pending[b] == q.pending[b];
      }
      EarliestIs(q.pending, e);
    }
  }

  /**
   The kernel timer does not go off for nothing: in every run in which no timer is cancelled and whose clock
   has left 1970, outside handleRead, it is set for the earliest of the waiting timers, and goes off at its
   expiration, or, when that is less than 100 microseconds away, 100 microseconds after it was set.
   */
  lemma {:induction false} ArmedExactly(steps: seq<Step>)
    requires forall i :: 0 <= i < |steps| ==> IsTimely(steps[i]) && CancelsNothing(Run(steps[..i]), steps[i])
    ensures var q := Run(steps);
            q.pending != map[] ==>
              && q.armed.For? && q.armed.expiration == Earliest(q.pending)
              && Deadline(q.armed) == if q.armed.expiration >= q.armed.at + 100 then q.armed.expiration else q.armed.at + 100
  {
    hide Earliest, Apply, Begin, Callbacks, Sound;
    if steps != [] {
      var n := |steps| - 1;
      var front, last := steps[..n], steps[n];
      forall i | 0 <= i < n
        ensures IsTimely(front[i]) && CancelsNothing(Run(front[..i]), front[i])
      {
        assert front[..i] == steps[..i];
      }
      ArmedExactly(front);
      var q := Run(front);
      assert IsTimely(last) && CancelsNothing(q, last);
      match last
      case Call(op) => OneMoreArmed(q, op);
      case Tick(now, scripts, at) =>
        var ops := Callbacks(scripts, |Due(q.pending, now)|);
        BegunIsSound(front, now);
        ApplyAllKeepsSound(Begin(q, now), ops);
        BegunIsArmed(q, now);
        AddsKeepArmedFor(Begin(q, now), ops, now);
        FinishArmsFor(ApplyAll(Begin(q, now), ops), now, at);
    }
  }

  lemma BegunIsSound(steps: seq<Step>, now: int)
    ensures Sound(Begin(Run(steps), now))
  {
    RunIsQuiet(steps);
    BeginKeepsSound(Run(steps), now);
  }

  lemma BegunIsArmed(q: Queue, now: int)
    ensures ArmedFor(Begin(q, now), now)
  {
  }

  lemma OneMoreArmed(q: Queue, op: Op)
    requires op.Add? && (q.pending != map[] ==> q.armed.For? && q.armed.expiration == Earliest(q.pending))
    ensures var r := Apply(q, op);
            r.pending != map[] ==> r.armed.For? && r.armed.expiration == Earliest(r.pending)
  {
    hide Earliest;
    var r := Apply(q, op);
    if r.pending != map[] { AddKeepsArmedFor(q, op, Earliest(r.pending)); }
  }
}
