/**
 The timer manager with its two indexes, its heap of timers and the kernel timer, method by method;
 every method does to it what the queue's specification says.
 */
module TimerManagement {
  import opened TimerQueue

  /** An element of the set ordered by expiration, then address. */
  datatype Entry = Entry(when: int, address: Address)

  predicate Before(x: Entry, y: Entry) {
    x.when < y.when || (x.when == y.when && x.address < y.address)
  }

  predicate Sorted(s: seq<Entry>) {
    forall i, j :: 0 <= i < j < |s| ==> Before(s[i], s[j])
  }

  /** The position of the first element that is not before e. */
  function LowerBound(s: seq<Entry>, e: Entry): (k: nat)
    requires Sorted(s)
    ensures k <= |s|
    ensures forall i :: 0 <= i < k ==> Before(s[i], e)
    ensures forall i :: k <= i < |s| ==> !Before(s[i], e)
  {
    if s == [] || !Before(s[0], e) then 0
    else
      var k := LowerBound(s[1..], e);
      assert forall i :: 1 <= i < |s| ==> s[i] == s[1..][i - 1];
      k + 1
  }

  lemma InsertIsSorted(s: seq<Entry>, k: nat, e: Entry)
    requires Sorted(s) && e !in s && k <= |s|
    requires forall i :: 0 <= i < k ==> Before(s[i], e)
    requires forall i :: k <= i < |s| ==> !Before(s[i], e)
    ensures Sorted(s[..k] + [e] + s[k..])
  {
    var r := s[..k] + [e] + s[k..];
    forall i | k <= i < |s|
      ensures Before(e, s[i])
    {
      assert s[i] in s;
    }
    forall i, j | 0 <= i < j < |r|
      ensures Before(r[i], r[j])
    {
      var x := if i < k then s[i] else if i == k then e else s[i - 1];
      var y := if j < k then s[j] else if j == k then e else s[j - 1];
      assert r[i] == x && r[j] == y;
    }
  }

  /** std::set::insert, for an element that is not there. */
  function SetInsert(s: seq<Entry>, e: Entry): (r: seq<Entry>)
    requires Sorted(s) && e !in s
    ensures Sorted(r) && forall x :: x in r <==> x in s || x == e
    ensures |r| == |s| + 1
  {
    var k := LowerBound(s, e);
    InsertIsSorted(s, k, e);
    assert s == s[..k] + s[k..];
    s[..k] + [e] + s[k..]
  }

  lemma LowerBoundAt(s: seq<Entry>, j: nat)
    requires Sorted(s) && j < |s|
    ensures LowerBound(s, s[j]) == j
  {
    var k := LowerBound(s, s[j]);
    assert !Before(s[j], s[j]);
    if k < |s| {
      assert !Before(s[k], s[j]);
    }
  }

  lemma EraseIsSorted(s: seq<Entry>, k: nat)
    requires Sorted(s) && k < |s|
    ensures Sorted(s[..k] + s[k + 1..])
    ensures forall x :: x in s[..k] + s[k + 1..] <==> x in s && x != s[k]
  {
    var r := s[..k] + s[k + 1..];
    forall i, j | 0 <= i < j < |r|
      ensures Before(r[i], r[j])
    {
      assert r[i] == s[if i < k then i else i + 1] && r[j] == s[if j < k then j else j + 1];
    }
    OthersDiffer(s, k);
    hide *;
    assert s == s[..k] + [s[k]] + s[k + 1..];
  }

  lemma OthersDiffer(s: seq<Entry>, k: nat)
    requires Sorted(s) && k < |s|
    ensures s[k] !in s[..k] && s[k] !in s[k + 1..]
  {
    assert forall i :: 0 <= i < k ==> Before(s[i], s[k]);
    assert forall i :: k < i < |s| ==> Before(s[k], s[i]);
  }

  /** std::set::erase of an element that is there. */
  function SetErase(s: seq<Entry>, e: Entry): (r: seq<Entry>)
    requires Sorted(s) && e in s
    ensures Sorted(r) && forall x :: x in r <==> x in s && x != e
    ensures |r| == |s| - 1
  {
    var k := LowerBound(s, e);
    var j :| 0 <= j < |s| && s[j] == e;
    LowerBoundAt(s, j);
    EraseIsSorted(s, k);
    s[..k] + s[k + 1..]
  }

  /** The position behind the last element that is due: no timer lives at the highest address. */
  function DueEnd(s: seq<Entry>, now: int): (k: nat)
    requires Sorted(s)
    ensures k <= |s|
    ensures forall i :: 0 <= i < |s| ==> (i < k <==> s[i].when <= now)
  {
    if s == [] || s[0].when > now then 0
    else
      var k := DueEnd(s[1..], now);
      assert forall i :: 1 <= i < |s| ==> s[i] == s[1..][i - 1];
      k + 1
  }

  /** The two indexes hold exactly the timers of p. */
  ghost predicate Indexed(timers: seq<Entry>, active: set<Id>, p: map<Address, Timer>) {
    && Sorted(timers)
    && (forall e :: e in timers <==> e.address in p && p[e.address].expiration == e.when)
    && active == Ids(p)
  }

  lemma IdsErase(p: map<Address, Timer>, a: Address)
    requires a in p
    ensures Ids(p - {a}) == Ids(p) - {Id(a, p[a].sequence)}
  {
    forall id
      ensures id in Ids(p - {a}) <==> id in Ids(p) && id != Id(a, p[a].sequence)
    {
      if id in Ids(p) && id != Id(a, p[a].sequence) {
        assert id.address in p - {a};
      }
    }
  }

  /** The indexes have the same size. */
  lemma {:induction false} SameSize(timers: seq<Entry>, active: set<Id>, p: map<Address, Timer>)
    requires Indexed(timers, active, p)
    ensures |timers| == |active|
    decreases |timers|
  {
    EachHasEntry(timers, active, p);
    if timers == [] {
      assert active == {};
    } else {
      var a := timers[0].address;
      RestIndexed(timers, active, p);
      hide Indexed;
      SameSize(timers[1..], active - {Id(a, p[a].sequence)}, p - {a});
    }
  }

  lemma EachHasEntry(timers: seq<Entry>, active: set<Id>, p: map<Address, Timer>)
    requires Indexed(timers, active, p)
    ensures forall id :: id in active ==> id.address in p && Entry(p[id.address].expiration, id.address) in timers
  {
  }

  /** The indexes without their first timer. */
  lemma RestIndexed(timers: seq<Entry>, active: set<Id>, p: map<Address, Timer>)
    requires Indexed(timers, active, p) && timers != []
    ensures var a := timers[0].address;
            a in p && Id(a, p[a].sequence) in active && Indexed(timers[1..], active - {Id(a, p[a].sequence)}, p - {a})
  {
    var e := timers[0];
    assert e in timers;
    assert forall x :: x in timers[1..] <==> x in timers && x != e by {
      assert timers == [e] + timers[1..];
      assert forall i :: 1 <= i < |timers| ==> Before(e, timers[i]);
    }
    IdsErase(p, e.address);
  }

  lemma IndexInsert(timers: seq<Entry>, active: set<Id>, p: map<Address, Timer>, a: Address, t: Timer)
    requires Indexed(timers, active, p) && a !in p
    ensures var e := Entry(t.expiration, a);
            e !in timers && Id(a, t.sequence) !in active
            && Indexed(SetInsert(timers, e), active + {Id(a, t.sequence)}, p[a := t])
  {
    var e, id := Entry(t.expiration, a), Id(a, t.sequence);
    assert active + {id} == Ids(p[a := t]) by {
      assert a in p[a := t];
      assert forall b :: b in p ==> b in p[a := t] && p[a := t][b] == p[b];
    }
  }

  lemma IndexErase(timers: seq<Entry>, active: set<Id>, p: map<Address, Timer>, id: Id)
    requires Indexed(timers, active, p) && id in active
    ensures id.address in p
    ensures var e := Entry(p[id.address].expiration, id.address);
            e in timers && Indexed(SetErase(timers, e), active - {id}, p - {id.address})
  {
    IdsErase(p, id.address);
  }

  /** The batch is what is due, in order, each once. */
  ghost predicate IsBatch(batch: seq<Entry>, p: map<Address, Timer>, now: int) {
    && Sorted(batch)
    && forall e :: e in batch <==> e.address in Due(p, now) && p[e.address].expiration == e.when
  }

  lemma {:induction false} BatchSize(batch: seq<Entry>, p: map<Address, Timer>)
    requires Sorted(batch)
    requires forall e :: e in batch <==> e.address in p && p[e.address].expiration == e.when
    ensures |batch| == |p|
    decreases |batch|
  {
    SameSize(batch, Ids(p), p);
    IdsSize(p);
  }

  /** The due timers are a prefix of the ordered index. */
  lemma CutBatch(timers: seq<Entry>, active: set<Id>, p: map<Address, Timer>, now: int)
    requires Indexed(timers, active, p)
    ensures var k := DueEnd(timers, now);
            && IsBatch(timers[..k], p, now)
            && Indexed(timers[k..], Ids(p - Due(p, now).Keys), p - Due(p, now).Keys)
  {
    var k := DueEnd(timers, now);
    CutByTime(timers, k, now);
    assert Sorted(timers[..k]) && Sorted(timers[k..]);
  }

  lemma CutByTime(timers: seq<Entry>, k: nat, now: int)
    requires k <= |timers| && forall i :: 0 <= i < |timers| ==> (i < k <==> timers[i].when <= now)
    ensures forall e :: e in timers[..k] <==> e in timers && e.when <= now
    ensures forall e :: e in timers[k..] <==> e in timers && e.when > now
  {
    assert timers == timers[..k] + timers[k..];
  }

  /** Taking the batch out leaves what is not due. */
  lemma LeftIsNotDue(batch: seq<Entry>, p: map<Address, Timer>, left: map<Address, Timer>, now: int)
    requires IsBatch(batch, p, now)
    requires forall a :: a in left <==> a in p && forall k :: 0 <= k < |batch| ==> batch[k].address != a
    requires forall a :: a in left ==> left[a] == p[a]
    ensures left == p - Due(p, now).Keys
  {
    forall a | a in p
      ensures a in left <==> a !in Due(p, now)
    {
      if a in Due(p, now) {
        assert Entry(p[a].expiration, a) in batch;
      } else {
        forall k | 0 <= k < |batch|
          ensures batch[k].address != a
        {
          assert batch[k] in batch;
        }
      }
    }
  }

  lemma {:induction false} IdsSize(p: map<Address, Timer>)
    ensures |Ids(p)| == |p|
    decreases |p|
  {
    if p == map[] {
      assert Ids(p) == {};
    } else {
      var a :| a in p;
      var rest := p - {a};
      assert rest.Keys == p.Keys - {a} && |rest| == |rest.Keys| && |p| == |p.Keys|;
      IdsSize(rest);
      assert Ids(p) == Ids(rest) + {Id(a, p[a].sequence)};
    }
  }

  /** The timers of a batch that are deleted, but for those at the addresses f. */
  function DroppedOutside(q: Queue, f: set<Address>): set<Id> {
    set id | id in Dropped(q) && id.address !in f
  }

  lemma RequeueOne(q: Queue, now: int, f: set<Address>, a: Address)
    requires q.pending.Keys !! q.firing.Keys && a in f && f <= q.firing.Keys
    requires q.firing[a].recurring && Id(a, q.firing[a].sequence) !in q.revoked
    ensures var p := q.pending + (Requeued(q, now) - f);
            && a !in p
            && q.pending + (Requeued(q, now) - (f - {a}))
               == p[a := q.firing[a].(expiration := now + q.firing[a].step)]
    ensures DroppedOutside(q, f - {a}) == DroppedOutside(q, f)
  {
    assert a in Requeued(q, now);
  }

  lemma DropOne(q: Queue, now: int, f: set<Address>, a: Address)
    requires a in f && f <= q.firing.Keys
    requires !q.firing[a].recurring || Id(a, q.firing[a].sequence) in q.revoked
    ensures q.pending + (Requeued(q, now) - (f - {a})) == q.pending + (Requeued(q, now) - f)
    ensures multiset(DroppedOutside(q, f - {a})) == multiset(DroppedOutside(q, f)) + multiset{Id(a, q.firing[a].sequence)}
  {
    var id := Id(a, q.firing[a].sequence);
    assert id in Dropped(q) && id !in DroppedOutside(q, f);
    assert DroppedOutside(q, f - {a}) == DroppedOutside(q, f) + {id};
  }

  lemma TimerReturns(h: map<Address, Timer>, f: set<Address>, a: Address, t: Timer)
    requires a in h && a in f
    ensures h[a := t] - (f - {a}) == (h - f)[a := t]
  {
  }

  lemma NewTimerWaits(h: map<Address, Timer>, f: set<Address>, a: Address, t: Timer)
    requires a !in h && f <= h.Keys
    ensures h[a := t] - f == (h - f)[a := t]
    ensures (map b | b in h[a := t] && b in f :: h[a := t][b]) == map b | b in h && b in f :: h[b]
  {
  }

  class TimerManager {
    var timers: seq<Entry>
    var active: set<Id>
    var cancelling: set<Id>
    var calling: bool
    /** The Timer objects there are, by address. */
    var heap: map<Address, Timer>
    var created: nat
    var armed: Arming
    ghost var firing: set<Address>
    ghost var born: seq<Address>
    ghost var freed: multiset<Id>

    ghost function Pending(): map<Address, Timer>
      reads this
    {
      heap - firing
    }

    /** The queue this manager stands for. */
    ghost function View(): Queue
      reads this
    {
      Queue(Pending(), map a | a in heap && a in firing :: heap[a], cancelling, calling, born, freed, armed)
    }

    ghost predicate Valid()
      reads this
    {
      Indexed(timers, active, Pending()) && firing <= heap.Keys && created == |born|
    }

    constructor ()
      ensures Valid() && View() == EMPTY
    {
      timers, active, cancelling, calling, heap, created, armed := [], {}, {}, false, map[], 0, Idle;
      firing, born, freed := {}, [], multiset{};
    }

    /** insert: puts a timer into both indexes; says whether it is now the earliest. */
    method Insert(a: Address, ghost p: map<Address, Timer>) returns (earliest: bool)
      requires a in heap && a !in p && Indexed(timers, active, p)
      modifies this`timers, this`active
      ensures Indexed(timers, active, p[a := heap[a]])
      ensures earliest <==> forall b :: b in p ==> heap[a].expiration < p[b].expiration
    {
      SameSize(timers, active, p);
      assert |timers| == |active|;
      var when := heap[a].expiration;
      earliest := timers == [] || when < timers[0].when;
      EarliestIff(p, when);
      IndexInsert(timers, active, p, a, heap[a]);
      timers := SetInsert(timers, Entry(when, a));
      active := active + {Id(a, heap[a].sequence)};
      SameSize(timers, active, p[a := heap[a]]);
      assert |timers| == |active|;
    }

    lemma EarliestIff(p: map<Address, Timer>, when: int)
      requires Indexed(timers, active, p)
      ensures (timers == [] || when < timers[0].when) <==> forall b :: b in p ==> when < p[b].expiration
    {
      if timers != [] {
        assert timers[0] in timers;
        forall b | b in p ensures timers[0].when <= p[b].expiration {
          assert Entry(p[b].expiration, b) in timers;
        }
      } else {
        assert forall b :: b in p ==> Entry(p[b].expiration, b) in timers;
      }
    }

    /** addTimer: a new timer at an address of the allocator's choice. */
    method Add(expiration: int, recurring: bool, step: nat, hint: Address, at: int) returns (id: Id)
      requires Valid()
      modifies this
      ensures Valid() && View() == AddTimer(old(View()), expiration, recurring, step, hint, at)
      ensures id == Nth(View(), |View().born|) && id.address !in old(heap)
      ensures heap == old(heap)[id.address := Timer(expiration, recurring, step, id.sequence)]
      ensures firing == old(firing) && id.address !in firing
    {
      hide Indexed, Ids, Sorted, SetInsert;
      ghost var p := Pending();
      Addresses();
      var a := Alloc(heap.Keys, hint);
      created := created + 1;
      heap := heap[a := Timer(expiration, recurring, step, created)];
      born := born + [a];
      NewTimerWaits(old(heap), firing, a, heap[a]);
      var earliest := Insert(a, p);
      if earliest {
        armed := For(expiration, at);
      }
      id := Id(a, created);
    }

    /** runAt. */
    method RunAt(when: int, hint: Address, at: int) returns (id: Id)
      requires Valid()
      modifies this
      ensures Valid() && View() == AddTimer(old(View()), when, false, 0, hint, at)
      ensures id.address in View().pending && View().pending[id.address] == Timer(when, false, 0, id.sequence)
    {
      id := Add(when, false, 0, hint, at);
    }

    /** runAfter: once, `delay` seconds after the time the clock shows. */
    method RunAfter(delay: real, now: int, hint: Address, at: int) returns (id: Id)
      requires Valid()
      modifies this
      ensures Valid() && View() == AddTimer(old(View()), now + Micros(delay), false, 0, hint, at)
      ensures id.address in View().pending
      ensures View().pending[id.address] == Timer(now + Micros(delay), false, 0, id.sequence)
    {
      id := Add(now + Micros(delay), false, 0, hint, at);
    }

    /** runEvery: first after one interval, and then again and again, unless the interval is not above zero. */
    method RunEvery(interval: real, now: int, hint: Address, at: int) returns (id: Id)
      requires Valid()
      modifies this
      ensures Valid()
      ensures View() == AddTimer(old(View()), now + Micros(interval), interval > 0.0, if interval > 0.0 then Micros(interval) else 0, hint, at)
      ensures id.address in View().pending
      ensures var t := View().pending[id.address];
              && t.sequence == id.sequence && t.expiration == now + Micros(interval)
              && (t.recurring <==> interval > 0.0) && (interval > 0.0 ==> t.step == Micros(interval))
    {
      id := Add(now + Micros(interval), interval > 0.0, if interval > 0.0 then Micros(interval) else 0, hint, at);
    }

    lemma Addresses()
      requires firing <= heap.Keys
      ensures heap.Keys == View().pending.Keys + View().firing.Keys
    {
    }

    /** cancel. */
    method Cancel(id: Id)
      requires Valid()
      modifies this
      ensures Valid() && View() == CancelTimer(old(View()), id)
      ensures firing == old(firing)
    {
      hide Sorted, SetErase, Apply;
      ghost var p := Pending();
      SameSize(timers, active, p);
      assert |timers| == |active|;
      if id in active {
        IndexErase(timers, active, p, id);
        var e := Entry(heap[id.address].expiration, id.address);
        assert e in timers;
        timers := SetErase(timers, e);
        heap := heap - {id.address};
        freed := freed + multiset{id};
        active := active - {id};
        assert Pending() == p - {id.address};
        assert View().firing == old(View()).firing;
      } else if calling {
        cancelling := cancelling + {id};
      }
      SameSize(timers, active, Pending());
      assert |timers| == |active|;
    }

    /** getExpired: takes the due timers out of both indexes. */
    method GetExpired(now: int) returns (expired: seq<Entry>)
      requires Valid() && firing == {}
      modifies this`timers, this`active, this`firing
      ensures Valid() && firing == Due(heap, now).Keys
      ensures IsBatch(expired, heap, now) && |expired| == |Due(heap, now)|
    {
      assert heap - {} == heap;
      SameSize(timers, active, heap);
      var end := DueEnd(timers, now);
      CutBatch(timers, active, heap, now);
      expired := timers[..end];
      timers := timers[end..];
      BatchSize(expired, Due(heap, now));
      EraseActive(expired, now);
      firing := Due(heap, now).Keys;
      SameSize(timers, active, heap - firing);
      assert |timers| == |active|;
    }

    /** The loop of getExpired. */
    method EraseActive(expired: seq<Entry>, ghost now: int)
      requires IsBatch(expired, heap, now) && active == Ids(heap)
      modifies this`active
      ensures active == Ids(heap - Due(heap, now).Keys)
    {
      var i := 0;
      ghost var left := heap;
      while i < |expired|
        invariant 0 <= i <= |expired| && active == Ids(left)
        invariant forall a :: a in left <==> a in heap && forall k :: 0 <= k < i ==> expired[k].address != a
        invariant forall a :: a in left ==> left[a] == heap[a]
      {
        var a := expired[i].address;
        assert expired[i] in expired;
        forall k | 0 <= k < i
          ensures expired[k].address != a
        {
          assert expired[k] in expired && Before(expired[k], expired[i]);
        }
        IdsErase(left, a);
        assert Id(a, heap[a].sequence) in active;
        active := active - {Id(a, heap[a].sequence)};
        left := left - {a};
        i := i + 1;
      }
      LeftIsNotDue(expired, heap, left, now);
    }

    /** One callback: the calls it makes, in order. */
    method RunCallback(script: seq<Op>)
      requires Valid()
      modifies this
      ensures Valid() && View() == ApplyAll(old(View()), script) && firing == old(firing)
    {
      hide Indexed, AddTimer, CancelTimer;
      var i := 0;
      while i < |script|
        invariant 0 <= i <= |script|
        invariant Valid() && View() == ApplyAll(old(View()), script[..i]) && firing == old(firing)
      {
        assert script[..i + 1][..i] == script[..i];
        match script[i] {
          case Add(expiration, recurring, step, hint, at) =>
            var _ := Add(expiration, recurring, step, hint, at);
          case Cancel(id) =>
            Cancel(id);
        }
        i := i + 1;
      }
      assert script[..i] == script;
    }

    /** With q the queue when the callbacks had run: part of the batch has been put back or deleted. */
    ghost predicate Resetting(q: Queue, now: int)
      reads this
    {
      && Valid() && firing <= q.firing.Keys && q.pending.Keys !! q.firing.Keys
      && (forall a :: a in firing ==> heap[a] == q.firing[a])
      && Pending() == q.pending + (Requeued(q, now) - firing)
      && freed == q.freed + multiset(DroppedOutside(q, firing))
      && cancelling == q.revoked && born == q.born
    }

    /** One round of the loop in reset. */
    method ResetOne(a: Address, now: int, ghost q: Queue)
      requires Resetting(q, now) && a in firing
      modifies this
      ensures Resetting(q, now) && firing == old(firing) - {a}
      ensures armed == old(armed) && calling == old(calling)
    {
      hide Requeued, Dropped, DroppedOutside, Indexed, Ids, View;
      ghost var p, f := Pending(), firing;
      var t := heap[a];
      if t.recurring && Id(a, t.sequence) !in cancelling {
        RequeueOne(q, now, f, a);
        heap := heap[a := t.(expiration := now + t.step)];
        firing := firing - {a};
        TimerReturns(old(heap), f, a, heap[a]);
        var _ := Insert(a, p);
      } else {
        DropOne(q, now, f, a);
        heap := heap - {a};
        firing := firing - {a};
        freed := freed + multiset{Id(a, t.sequence)};
        assert Pending() == p;
      }
    }

    /** The loop of reset. */
    method ResetAll(expired: seq<Entry>, now: int, ghost q: Queue)
      requires Resetting(q, now) && Sorted(expired) && firing == q.firing.Keys
      requires forall e :: e in expired <==> e.address in q.firing && q.firing[e.address].expiration == e.when
      modifies this
      ensures Resetting(q, now) && firing == {} && armed == old(armed) && calling == old(calling)
    {
      hide Resetting;
      var i := 0;
      while i < |expired|
        invariant 0 <= i <= |expired| && Resetting(q, now) && armed == old(armed) && calling == old(calling)
        invariant forall a :: a in firing <==> a in q.firing && forall k :: 0 <= k < i ==> expired[k].address != a
      {
        assert expired[i] in expired;
        forall k | 0 <= k < i
          ensures expired[k].address != expired[i].address
        {
          assert expired[k] in expired && Before(expired[k], expired[i]);
        }
        ResetOne(expired[i].address, now, q);
        i := i + 1;
      }
      AllReset(expired, q);
    }

    /** reset: puts the recurring timers back, deletes the others, sets the kernel timer. */
    method Reset(expired: seq<Entry>, now: int, at: int)
      requires Valid() && !calling && Sorted(expired)
      requires forall e :: e in expired <==> e.address in firing && heap[e.address].expiration == e.when
      modifies this
      ensures Valid() && View() == Finish(old(View()), now, at) && firing == {}
    {
      ghost var q := View();
      StartReset(q, now);
      ResetAll(expired, now, q);
      FinishedReset(q, now);
      ArmEarliest(at);
    }

    /** The end of reset. */
    method ArmEarliest(at: int)
      requires Valid()
      modifies this`armed
      ensures armed == if Pending() != map[] && Earliest(Pending()) > 0 then For(Earliest(Pending()), at) else old(armed)
    {
      if timers != [] {
        FirstIsEarliest(Pending());
        var next := heap[timers[0].address].expiration;
        if next > 0 {
          armed := For(next, at);
        }
      } else {
        NoneWaits(Pending());
      }
    }

    lemma StartReset(q: Queue, now: int)
      requires Valid() && q == View()
      ensures Resetting(q, now)
    {
      assert DroppedOutside(q, firing) == {};
    }

    lemma AllReset(expired: seq<Entry>, q: Queue)
      requires forall a :: a in q.firing ==> Entry(q.firing[a].expiration, a) in expired
      requires forall a :: a in firing <==> a in q.firing && forall k :: 0 <= k < |expired| ==> expired[k].address != a
      ensures firing == {}
    {
      forall a | a in q.firing
        ensures a !in firing
      {
        assert Entry(q.firing[a].expiration, a) in expired;
      }
    }

    lemma FinishedReset(q: Queue, now: int)
      requires Resetting(q, now) && firing == {}
      ensures Pending() == q.pending + Requeued(q, now) && freed == q.freed + multiset(Dropped(q))
      ensures View().firing == map[]
    {
      assert Requeued(q, now) - firing == Requeued(q, now);
      assert DroppedOutside(q, firing) == Dropped(q);
    }

    lemma NoneWaits(p: map<Address, Timer>)
      requires Indexed(timers, active, p) && timers == []
      ensures p == map[]
    {
      assert forall b :: b in p ==> Entry(p[b].expiration, b) in timers;
    }

    lemma FirstIsEarliest(p: map<Address, Timer>)
      requires Indexed(timers, active, p) && timers != []
      ensures timers[0].address in p && p != map[] && p[timers[0].address].expiration == Earliest(p)
    {
      assert timers[0] in timers;
      forall b | b in p ensures timers[0].when <= p[b].expiration {
        assert Entry(p[b].expiration, b) in timers;
      }
    }

    /**
     handleRead, called when the kernel timer has gone off.  The i-th callback does scripts[i].  It
     runs exactly the timers that are due, each once, by expiration and then address.
     */
    method HandleRead(now: int, scripts: seq<seq<Op>>, at: int) returns (ran: seq<Entry>)
      requires Valid() && firing == {} && !calling
      modifies this
      ensures Valid() && View() == TimerQueue.HandleRead(old(View()), now, scripts, at) && firing == {}
      ensures IsBatch(ran, old(Pending()), now)
    {
      hide Indexed, Ids, Apply, ApplyAll, IsBatch;
      ghost var q := View();
      assert q.pending == heap && q.firing == map[];
      armed := Idle;
      ran := GetExpired(now);
      calling := true;
      cancelling := {};
      ghost var b := Begin(q, now);
      assert View() == b by {
        assert Pending() == NotDue(q.pending, now);
        assert View().firing == Due(q.pending, now);
      }
      RunBatch(|ran|, scripts);
      ApplyAllKeepsBatch(b, Callbacks(scripts, |ran|));
      calling := false;
      ghost var c := View();
      assert forall a :: a in firing ==> heap[a] == c.firing[a] && a in q.pending && heap[a] == q.pending[a];
      Reset(ran, now, at);
    }

    /** The loop that calls the callbacks of a batch. */
    method RunBatch(size: nat, scripts: seq<seq<Op>>)
      requires Valid()
      modifies this
      ensures Valid() && View() == ApplyAll(old(View()), Callbacks(scripts, size)) && firing == old(firing)
    {
      hide *;
      ghost var b := View();
      NoCallback(b, scripts);
      var i := 0;
      while i < size
        invariant 0 <= i <= size && Valid() && firing == old(firing)
        invariant View() == ApplyAll(b, Callbacks(scripts, i))
      {
        OneCallback(scripts, i);
        if i < |scripts| {
          RunCallback(scripts[i]);
          ApplyAllMore(b, Callbacks(scripts, i), scripts[i]);
        }
        i := i + 1;
      }
    }

    /** The first n timers of the ordered index, out of p, are deleted. */
    ghost predicate Destroying(n: nat, p: map<Address, Timer>, before: multiset<Id>)
      requires n <= |timers|
      reads this
    {
      LeftOver(timers, p, heap, n) && freed == before + multiset(Ids(p) - Ids(heap))
    }

    method DestroyAt(i: nat, ghost p: map<Address, Timer>, ghost before: multiset<Id>)
      requires i < |timers| && Indexed(timers, active, p) && Destroying(i, p, before)
      modifies this`heap, this`freed
      ensures Destroying(i + 1, p, before)
    {
      hide Ids, Indexed, LeftOver;
      var a := timers[i].address;
      EntriesDiffer(timers, active, p, heap, i);
      ghost var h, others := heap, multiset(Ids(p) - Ids(heap));
      OneLess(timers, p, h, i, a);
      freed := freed + multiset{Id(a, heap[a].sequence)};
      heap := heap - {a};
      assert freed == before + (others + multiset{Id(a, h[a].sequence)});
    }

    /** The destructor: deletes the timers that wait. */
    method Destroy()
      requires Valid() && firing == {}
      modifies this
      ensures View().freed == TimerQueue.Destroy(old(View())).freed && heap == map[]
    {
      hide Ids;
      NoIds();
      ghost var p, before := heap, freed;
      assert heap - {} == heap;
      assert View().pending == p && Ids(p) - Ids(heap) == {};
      var i := 0;
      while i < |timers|
        invariant 0 <= i <= |timers| && timers == old(timers) && active == old(active) && firing == {}
        invariant Destroying(i, p, before)
      {
        DestroyAt(i, p, before);
        i := i + 1;
      }
      assert forall a :: a in heap ==> Entry(p[a].expiration, a) in timers;
      assert heap == map[] && Ids(p) - {} == Ids(p);
    }
  }

  lemma NoCallback(q: Queue, scripts: seq<seq<Op>>)
    ensures ApplyAll(q, Callbacks(scripts, 0)) == q
  {
  }

  lemma OneCallback(scripts: seq<seq<Op>>, i: nat)
    ensures Callbacks(scripts, i + 1) == if i < |scripts| then Callbacks(scripts, i) + scripts[i] else Callbacks(scripts, i)
  {
    assert Callbacks(scripts, i) + [] == Callbacks(scripts, i);
  }

  /** An entry's timer is not an earlier entry's. */
  lemma EntriesDiffer(timers: seq<Entry>, active: set<Id>, p: map<Address, Timer>, h: map<Address, Timer>, i: nat)
    requires Indexed(timers, active, p) && i < |timers| && LeftOver(timers, p, h, i)
    ensures timers[i].address in h && h[timers[i].address] == p[timers[i].address]
  {
    assert timers[i] in timers;
    forall k | 0 <= k < i
      ensures timers[k].address != timers[i].address
    {
      assert timers[k] in timers && Before(timers[k], timers[i]);
    }
  }

  /** What is left of p when the first n timers are gone. */
  ghost predicate LeftOver(timers: seq<Entry>, p: map<Address, Timer>, h: map<Address, Timer>, n: nat)
    requires n <= |timers|
  {
    && (forall a :: a in h <==> a in p && forall k :: 0 <= k < n ==> timers[k].address != a)
    && (forall a :: a in h ==> h[a] == p[a])
  }

  lemma OneLess(timers: seq<Entry>, p: map<Address, Timer>, h: map<Address, Timer>, i: nat, a: Address)
    requires i < |timers| && LeftOver(timers, p, h, i) && a == timers[i].address && a in h
    ensures LeftOver(timers, p, h - {a}, i + 1)
    ensures multiset(Ids(p) - Ids(h - {a})) == multiset(Ids(p) - Ids(h)) + multiset{Id(a, h[a].sequence)}
  {
    hide Ids;
    DestroyOne(p, h, a);
    forall b
      ensures b in h - {a} <==> b in p && forall k :: 0 <= k < i + 1 ==> timers[k].address != b
    {
    }
  }

  lemma NoIds()
    ensures Ids(map[]) == {}
  {
  }

  lemma DestroyOne(p: map<Address, Timer>, h: map<Address, Timer>, a: Address)
    requires a in h && forall b :: b in h ==> b in p && p[b] == h[b]
    ensures multiset(Ids(p) - Ids(h - {a})) == multiset(Ids(p) - Ids(h)) + multiset{Id(a, h[a].sequence)}
  {
    var id := Id(a, h[a].sequence);
    IdsErase(h, a);
    assert id in Ids(h) && id in Ids(p);
    assert Ids(p) - Ids(h - {a}) == (Ids(p) - Ids(h)) + {id};
  }
}
