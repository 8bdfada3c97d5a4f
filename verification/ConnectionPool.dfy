/** The connection pool: no connection is lost, lent twice, or deleted twice. */
module ConnectionPool {
  import opened Wrappers

  /** Connections are named by the order in which the pool made them. */
  type Conn = nat

  /** HttpConnection's create_time: no line of the code sets it to anything else. */
  const CREATE_TIME: nat := 0

  /** GetCurrentMs: it adds microseconds to milliseconds, so it goes back by almost a million every second. */
  function CurrentMs(sec: nat, usec: nat): nat {
    sec * 1000 + usec
  }

  /** The test a connection on the list must pass to be handed out again. */
  predicate Usable(c: Conn, alive: set<Conn>, maxAlive: nat, now: nat) {
    c in alive && !(CREATE_TIME + maxAlive > now)
  }

  /** The position of the first usable connection; the length of the list when there is none. */
  function FirstUsable(idle: seq<Conn>, alive: set<Conn>, maxAlive: nat, now: nat): (k: nat)
    ensures k <= |idle| && (k < |idle| ==> Usable(idle[k], alive, maxAlive, now))
    ensures forall i :: 0 <= i < k ==> !Usable(idle[i], alive, maxAlive, now)
  {
    if idle == [] || Usable(idle[0], alive, maxAlive, now) then 0
    else
      var k := FirstUsable(idle[1..], alive, maxAlive, now);
      assert forall i :: 1 <= i < |idle| ==> idle[i] == idle[1..][i - 1];
      k + 1
  }

  /**
   What getConnection discards: once the clock is past the age limit, the closed connections in front
   of the first open one, and no open one; before that, all of them, however young or old.
   */
  lemma DiscardsIff(idle: seq<Conn>, alive: set<Conn>, maxAlive: nat, now: nat)
    ensures var k := FirstUsable(idle, alive, maxAlive, now);
            && (now < maxAlive ==> k == |idle|)
            && (now >= maxAlive ==>
                  && (forall i :: 0 <= i < k ==> idle[i] !in alive)
                  && (k < |idle| ==> idle[k] in alive))
    ensures (exists i :: 0 <= i < FirstUsable(idle, alive, maxAlive, now) && idle[i] in alive)
            <==> now < maxAlive && exists i :: 0 <= i < |idle| && idle[i] in alive
  {
    var k := FirstUsable(idle, alive, maxAlive, now);
    assert forall i :: 0 <= i < k ==> !Usable(idle[i], alive, maxAlive, now);
  }

  /**
   The books of a pool that made n connections: each of them is idle, lent or deleted, exactly one of
   the three, and deleted at most once; and the total is the number that are idle or lent.
   */
  ghost predicate Balanced(idle: seq<Conn>, lent: set<Conn>, deleted: multiset<Conn>, total: int, n: nat) {
    && (forall i, j :: 0 <= i < j < |idle| ==> idle[i] != idle[j])
    && (forall i :: 0 <= i < |idle| ==> idle[i] < n)
    && (forall c: Conn :: c in lent || c in deleted ==> c < n)
    && (forall c: Conn :: c < n ==>
          && (c in idle || c in lent || c in deleted)
          && !(c in idle && c in lent) && !(c in idle && c in deleted) && !(c in lent && c in deleted)
          && deleted[c] <= 1)
    && total == |idle| + |lent|
  }

  /** Deleting the first k idle connections. */
  lemma DiscardKeepsBalance(idle: seq<Conn>, k: nat, lent: set<Conn>, deleted: multiset<Conn>, total: int, n: nat)
    requires Balanced(idle, lent, deleted, total, n) && k <= |idle|
    ensures Balanced(idle[k..], lent, deleted + multiset(idle[..k]), total - k, n)
  {
    PrefixLeaves(idle, k);
  }

  /** Handing out the first idle connection. */
  lemma LendKeepsBalance(idle: seq<Conn>, lent: set<Conn>, deleted: multiset<Conn>, total: int, n: nat)
    requires Balanced(idle, lent, deleted, total, n) && idle != []
    ensures idle[0] !in lent && Balanced(idle[1..], lent + {idle[0]}, deleted, total, n)
  {
    assert idle == [idle[0]] + idle[1..];
    assert idle[0] !in idle[1..];
  }

  /** Making a connection and handing it out. */
  lemma MakeKeepsBalance(idle: seq<Conn>, lent: set<Conn>, deleted: multiset<Conn>, total: int, n: nat)
    requires Balanced(idle, lent, deleted, total, n)
    ensures n !in lent && Balanced(idle, lent + {n}, deleted, total + 1, n + 1)
  {
    assert n !in deleted && n !in lent && n !in idle;
    assert deleted[n] == 0;
  }

  lemma DropOne(all: seq<Conn>, k: nat)
    requires k < |all|
    ensures all[k..][0] == all[k] && all[k..][1..] == all[k + 1..]
  {
  }

  class HttpConnectionPool {
    /** maxAliveTime_, a uint32_t. */
    const maxAlive: nat
    var conns: seq<Conn>
    var total: int
    /** How many connections the pool has made; the name of the next one. */
    var made: nat
    /** The connections handed out and not yet given back. */
    ghost var lent: set<Conn>
    /** How often each connection was deleted. */
    ghost var deleted: multiset<Conn>
    /** The connections that were deleted although they were open. */
    ghost var wasted: set<Conn>

    ghost predicate Valid()
      reads this
    {
      maxAlive < 0x1_0000_0000 && Balanced(conns, lent, deleted, total, made)
    }

    constructor (maxAlive: nat)
      requires maxAlive < 0x1_0000_0000
      ensures Valid() && this.maxAlive == maxAlive && conns == [] && lent == {} && made == 0 && wasted == {}
    {
      this.maxAlive := maxAlive;
      conns, total, made, lent, deleted, wasted := [], 0, 0, {}, multiset{}, {};
    }

    /**
     getConnection: discards connections from the front of the list until one is usable; makes a new
     one when none is, unless connecting fails.
     */
    method GetConnection(now: nat, alive: set<Conn>, connects: bool) returns (r: Option<Conn>)
      requires Valid()
      modifies this
      ensures Valid()
      ensures var k := FirstUsable(old(conns), alive, maxAlive, now);
              && deleted == old(deleted) + multiset(old(conns)[..k])
              && wasted == old(wasted) + OpenOnes(old(conns)[..k], alive)
              && (k < |old(conns)| ==>
                    && r == Some(old(conns)[k]) && conns == old(conns)[k + 1..] && made == old(made))
              && (k == |old(conns)| ==>
                    && conns == []
                    && r == (if connects then Some(old(made)) else None)
                    && made == if connects then old(made) + 1 else old(made))
      ensures r.Some? ==> r.value !in old(lent) && lent == old(lent) + {r.value}
      ensures r.None? ==> lent == old(lent)
    {
      hide Balanced, FirstUsable, OpenOnes;
      ghost var all, k := conns, FirstUsable(conns, alive, maxAlive, now);
      var invalid;
      r, invalid := PopUsable(now, alive);
      Discard(invalid, alive, all);
      if r.None? {
        assert all[k..] == [] && all[..k] == all;
        r := Connect(connects);
      } else {
        DropOne(all, k);
        LendKeepsBalance(all[k..], lent, deleted, total, made);
        lent := lent + {r.value};
      }
    }

    /** A new connection, unless connecting fails. */
    method Connect(connects: bool) returns (r: Option<Conn>)
      requires Valid()
      modifies this`made, this`total, this`lent
      ensures Valid() && r == if connects then Some(old(made)) else None
      ensures made == if connects then old(made) + 1 else old(made)
      ensures r.Some? ==> r.value !in old(lent) && lent == old(lent) + {r.value}
      ensures r.None? ==> lent == old(lent)
    {
      hide Balanced;
      if !connects {
        return None;
      }
      MakeKeepsBalance(conns, lent, deleted, total, made);
      r := Some(made);
      lent := lent + {made};
      made := made + 1;
      total := total + 1;
    }

    /** Deletes what the loop found invalid: the front of the list as it was. */
    method Discard(invalid: seq<Conn>, ghost alive: set<Conn>, ghost all: seq<Conn>)
      requires Balanced(all, lent, deleted, total, made) && |invalid| <= |all| && invalid == all[..|invalid|]
      modifies this`deleted, this`wasted, this`total
      ensures Balanced(all[|invalid|..], lent, deleted, total, made)
      ensures deleted == old(deleted) + multiset(invalid) && wasted == old(wasted) + OpenOnes(invalid, alive)
    {
      hide Balanced, OpenOnes;
      DiscardKeepsBalance(all, |invalid|, lent, deleted, total, made);
      deleted := deleted + multiset(invalid);
      wasted := wasted + OpenOnes(invalid, alive);
      total := total - |invalid|;
    }

    /** The loop of getConnection. */
    method PopUsable(now: nat, alive: set<Conn>) returns (r: Option<Conn>, invalid: seq<Conn>)
      modifies this`conns
      ensures var k := FirstUsable(old(conns), alive, maxAlive, now);
              && |invalid| == k && invalid == old(conns)[..k]
              && if k < |old(conns)| then r == Some(old(conns)[k]) && conns == old(conns)[k + 1..]
                 else r == None && conns == []
    {
      ghost var all, k := conns, FirstUsable(conns, alive, maxAlive, now);
      r, invalid := None, [];
      while conns != []
        invariant r.None? && |invalid| <= k && invalid == all[..|invalid|] && conns == all[|invalid|..]
        decreases |conns|
      {
        var c := conns[0];
        assert c == all[|invalid|];
        conns := conns[1..];
        if c !in alive {
          invalid := invalid + [c];
          continue;
        }
        if CREATE_TIME + maxAlive > now {
          invalid := invalid + [c];
          continue;
        }
        r := Some(c);
        break;
      }
    }

    /** ReleasePtr: the connection is deleted, or goes to the end of the list. */
    method Release(c: Conn, connected: bool, now: nat)
      requires Valid() && c in lent
      modifies this
      ensures Valid() && lent == old(lent) - {c} && made == old(made)
      ensures if connected && now > maxAlive
              then conns == old(conns) + [c] && deleted == old(deleted)
              else conns == old(conns) && deleted == old(deleted) + multiset{c}
      ensures wasted == if connected && now <= maxAlive then old(wasted) + {c} else old(wasted)
    {
      lent := lent - {c};
      if !connected || CREATE_TIME + maxAlive >= now {
        deleted := deleted + multiset{c};
        wasted := if connected then wasted + {c} else wasted;
        total := total - 1;
        return;
      }
      conns := conns + [c];
    }
  }

  function OpenOnes(s: seq<Conn>, alive: set<Conn>): set<Conn> {
    set c | c in s && c in alive
  }

  /** One use of a pool; what the clock and the network say at the time is part of it. */
  datatype Call =
    | Get(sec: nat, usec: nat, alive: set<Conn>, connects: bool)
    | GiveBack(c: Conn, connected: bool, sec: nat, usec: nat)

  /** The clock is more than 2^32 milliseconds, about fifty days, past the beginning of 1970. */
  predicate Late(c: Call) {
    c.sec >= 4_294_968
  }

  /**
   Any sequence of calls on a new pool, whatever the clock does: the books balance at the end, with
   exactly the connections lent that callers hold; and age never matters: unless the clock says 1970, no
   open connection is ever deleted.
   */
  method RunHistory(p: HttpConnectionPool, calls: seq<Call>) returns (held: set<Conn>)
    requires p.Valid() && p.conns == [] && p.lent == {} && p.wasted == {}
    modifies p
    ensures p.Valid() && p.lent == held
    ensures (forall i :: 0 <= i < |calls| ==> Late(calls[i])) ==> p.wasted == {}
  {
    held := {};
    for i := 0 to |calls|
      invariant p.Valid() && p.lent == held
      invariant (forall j :: 0 <= j < i ==> Late(calls[j])) ==> p.wasted == {}
    {
      hide Balanced, FirstUsable;
      match calls[i]
      case Get(sec, usec, alive, connects) =>
        DiscardsIff(p.conns, alive, p.maxAlive, CurrentMs(sec, usec));
        var c := p.GetConnection(CurrentMs(sec, usec), alive, connects);
        if c.Some? {
          held := held + {c.value};
        }
      case GiveBack(c, connected, sec, usec) =>
        if c in held {
          p.Release(c, connected, CurrentMs(sec, usec));
          held := held - {c};
        }
    }
  }

  /** A list without repetitions, cut in two. */
  lemma PrefixLeaves(all: seq<Conn>, k: nat)
    requires k <= |all| && forall i, j :: 0 <= i < j < |all| ==> all[i] != all[j]
    ensures forall c: Conn :: multiset(all[..k])[c] <= 1 && (c in multiset(all[..k]) <==> c in all[..k])
    ensures forall c: Conn :: c in all <==> c in all[..k] || c in all[k..]
    ensures forall c: Conn :: !(c in all[..k] && c in all[k..])
  {
    assert all == all[..k] + all[k..];
    DistinctOnce(all[..k]);
  }

  lemma {:induction false} DistinctOnce(s: seq<Conn>)
    requires forall i, j :: 0 <= i < j < |s| ==> s[i] != s[j]
    ensures forall c: Conn :: multiset(s)[c] <= 1
  {
    if s != [] {
      var front, last := s[..|s| - 1], s[|s| - 1];
      assert s == front + [last];
      DistinctOnce(front);
      assert last !in front;
    }
  }
}
