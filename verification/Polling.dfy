/**
 Channels and the epoll poller, against the kernel's interest set: what the poller believes is
 registered is what is registered.
 */
module Polling {

  /** The index of a channel: not known to the poller, registered with the kernel, taken out of it. */
  datatype Index = New | Added | Deleted

  const NO_EVENT: bv16 := 0
  const READ_EVENT: bv16 := 0x3
  const WRITE_EVENT: bv16 := 0x4

  class Channel {
    const fd: int
    var events: bv16
    var revents: bv16
    var index: Index
    var addedToLoop: bool

    constructor (fd: int)
      ensures this.fd == fd && events == NO_EVENT && index == New && !addedToLoop
    {
      this.fd := fd;
      events, revents, index, addedToLoop := NO_EVENT, 0, New, false;
    }
  }

  /** What the kernel holds for a descriptor: the mask, and the pointer it hands back. */
  datatype Interest = Interest(events: bv16, channel: Channel)

  /** An event that epoll_wait returns. */
  datatype Event = Event(channel: Channel, events: bv16)

  class Poller {
    var channels: map<int, Channel>
    /** epoll's interest set. */
    var kernel: map<int, Interest>
    /** Every channel that uses this poller; no two have the same descriptor. */
    ghost var users: set<Channel>

    /** What the poller knows of its users. */
    ghost predicate Known()
      reads this, users
    {
      && (forall c, d :: c in users && d in users && c.fd == d.fd ==> c == d)
      && (forall fd :: fd in channels ==> channels[fd] in users && channels[fd].fd == fd)
      && (forall c :: c in users ==> (c.index != New <==> c.fd in channels) && (c.addedToLoop <==> c.index != New))
    }

    /** What it believes to be registered is. */
    ghost predicate Agrees()
      requires Known()
      reads this, users
    {
      && (forall fd :: fd in kernel <==> fd in channels && channels[fd].index == Added)
      && forall fd :: fd in kernel ==> kernel[fd] == Interest(channels[fd].events, channels[fd])
    }

    ghost predicate Valid()
      reads this, users
    {
      Known() && Agrees()
    }

    constructor ()
      ensures Valid() && users == {} && kernel == map[]
    {
      channels, kernel, users := map[], map[], {};
    }

    /** A new channel, for a descriptor that no other channel has. */
    method Open(fd: int) returns (c: Channel)
      requires Valid() && forall d :: d in users ==> d.fd != fd
      modifies this`users
      ensures Valid() && fresh(c) && users == old(users) + {c} && c.fd == fd && c.index == New
    {
      c := new Channel(fd);
      users := users + {c};
    }

    /** epoll_ctl: an error for an operation that does not fit, and then nothing changes. */
    method ControlAdd(c: Channel) returns (ok: bool)
      modifies this`kernel
      ensures ok <==> c.fd !in old(kernel)
      ensures kernel == if ok then old(kernel)[c.fd := Interest(c.events, c)] else old(kernel)
    {
      ok := c.fd !in kernel;
      if ok {
        kernel := kernel[c.fd := Interest(c.events, c)];
      }
    }

    method ControlModify(c: Channel) returns (ok: bool)
      modifies this`kernel
      ensures ok <==> c.fd in old(kernel)
      ensures kernel == if ok then old(kernel)[c.fd := Interest(c.events, c)] else old(kernel)
    {
      ok := c.fd in kernel;
      if ok {
        kernel := kernel[c.fd := Interest(c.events, c)];
      }
    }

    method ControlDelete(c: Channel) returns (ok: bool)
      modifies this`kernel
      ensures ok <==> c.fd in old(kernel)
      ensures kernel == old(kernel) - {c.fd}
    {
      ok := c.fd in kernel;
      kernel := kernel - {c.fd};
    }

    /**
     updateChannel, for a channel whose mask was just set: every epoll_ctl succeeds, and then the
     kernel holds the new mask, or nothing when a registered channel wants nothing any more.
     */
    method UpdateChannel(c: Channel, events: bv16)
      requires Valid() && c in users
      modifies this, c
      ensures Valid() && users == old(users) && c.events == events
      ensures c.index == if old(c.index) == Added && events == NO_EVENT then Deleted else Added
      ensures kernel == if c.index == Added then old(kernel)[c.fd := Interest(events, c)] else old(kernel) - {c.fd}
    {
      c.events := events;
      c.addedToLoop := true;
      if c.index == New || c.index == Deleted {
        if c.index == New {
          assert c.fd !in channels;
          channels := channels[c.fd := c];
        } else {
          assert c.fd in channels && channels[c.fd] == c;
        }
        c.index := Added;
        var ok := ControlAdd(c);
        assert ok;
      } else {
        assert c.fd in channels && channels[c.fd] == c && c.index == Added;
        if events == NO_EVENT {
          var ok := ControlDelete(c);
          assert ok;
          c.index := Deleted;
        } else {
          var ok := ControlModify(c);
          assert ok;
        }
      }
      assert Known();
    }

    method EnableReading(c: Channel)
      requires Valid() && c in users
      modifies this, c
      ensures Valid() && users == old(users) && c.events == old(c.events) | READ_EVENT
    {
      UpdateChannel(c, c.events | READ_EVENT);
    }

    method DisableReading(c: Channel)
      requires Valid() && c in users
      modifies this, c
      ensures Valid() && users == old(users) && c.events == old(c.events) & !READ_EVENT
    {
      UpdateChannel(c, c.events & !READ_EVENT);
    }

    method EnableWriting(c: Channel)
      requires Valid() && c in users
      modifies this, c
      ensures Valid() && users == old(users) && c.events == old(c.events) | WRITE_EVENT
    {
      UpdateChannel(c, c.events | WRITE_EVENT);
    }

    method DisableWriting(c: Channel)
      requires Valid() && c in users
      modifies this, c
      ensures Valid() && users == old(users) && c.events == old(c.events) & !WRITE_EVENT
    {
      UpdateChannel(c, c.events & !WRITE_EVENT);
    }

    method DisableAll(c: Channel)
      requires Valid() && c in users
      modifies this, c
      ensures Valid() && users == old(users) && c.events == NO_EVENT
    {
      UpdateChannel(c, NO_EVENT);
    }

    /** remove, for a registered channel that wants nothing. */
    method Remove(c: Channel)
      requires Valid() && c in users && c.events == NO_EVENT && c.index != New
      modifies this, c
      ensures Valid() && users == old(users) && c.index == New && c.events == NO_EVENT
      ensures kernel == old(kernel) - {c.fd} && channels == old(channels) - {c.fd}
    {
      c.addedToLoop := false;
      assert c.fd in channels && channels[c.fd] == c;
      channels := channels - {c.fd};
      if c.index == Added {
        var ok := ControlDelete(c);
        assert ok;
      }
      c.index := New;
      assert Known();
    }

    /** Events the kernel may return: each for a descriptor it holds, with the pointer it was given. */
    ghost predicate MayReturn(events: seq<Event>)
      reads this
    {
      forall i :: 0 <= i < |events| ==> exists fd :: fd in kernel && kernel[fd].channel == events[i].channel
    }

    /** One returned event: its pointer leads to a registered channel. */
    method Deliver(c: Channel, events: bv16)
      requires Valid() && exists fd :: fd in kernel && kernel[fd].channel == c
      modifies c`revents
      ensures Valid() && c in users && c.index == Added && c.revents == events
    {
      assert c.fd in channels && channels[c.fd] == c;
      c.revents := events;
    }

    /**
     fillActiveChannels: every event points to a registered channel, which is handed on with the
     events it got.
     */
    method FillActiveChannels(events: seq<Event>) returns (active: seq<Channel>)
      requires Valid() && MayReturn(events)
      modifies users`revents
      ensures Valid() && |active| == |events|
      ensures forall i :: 0 <= i < |events| ==> active[i] == events[i].channel
      ensures forall i :: 0 <= i < |active| ==> active[i] in users && active[i].index == Added
      ensures forall i :: 0 <= i < |events| && (forall j :: i < j < |events| ==> events[j].channel != events[i].channel) ==>
                events[i].channel.revents == events[i].events
    {
      active := [];
      var i := 0;
      while i < |events|
        invariant 0 <= i <= |events| && Valid() && MayReturn(events) && |active| == i
        invariant forall k :: 0 <= k < i ==> active[k] == events[k].channel
        invariant forall k :: 0 <= k < i ==> active[k] in users && active[k].index == Added
        invariant forall k :: 0 <= k < i && (forall j :: k < j < i ==> events[j].channel != events[k].channel) ==>
                    events[k].channel.revents == events[k].events
      {
        var c := events[i].channel;
        Deliver(c, events[i].events);
        active := active + [c];
        i := i + 1;
      }
    }
  }

  // ---------------------------------------------------------------- histories

  /** A call on a channel: a change of its mask, or its removal. */
  datatype Op = Reading(on: bool) | Writing(on: bool) | Nothing | Removal

  /** What a call makes of its channel's mask. */
  function MaskAfter(m: bv16, op: Op): bv16 {
    match op
    case Reading(on) => if on then m | READ_EVENT else m & !READ_EVENT
    case Writing(on) => if on then m | WRITE_EVENT else m & !WRITE_EVENT
    case Nothing => NO_EVENT
    case Removal => m
  }

  /** What calls, on this channel and on others, make of its mask. */
  function Mask(m: bv16, calls: seq<(Channel, Op)>, c: Channel): bv16 {
    if calls == [] then m
    else
      var before := Mask(m, calls[..|calls| - 1], c);
      var (d, op) := calls[|calls| - 1];
      if d == c then MaskAfter(before, op) else before
  }

  /** A call that says whether reading is wanted. */
  predicate SaysReading(op: Op) {
    op.Reading? || op.Nothing?
  }

  predicate SaysWriting(op: Op) {
    op.Writing? || op.Nothing?
  }

  function Wants(m: bv16, bits: bv16): bv16 {
    m & bits
  }

  lemma AfterReading(m: bv16, on: bool)
    ensures Wants(MaskAfter(m, Reading(on)), READ_EVENT) == if on then READ_EVENT else 0
    ensures Wants(MaskAfter(m, Reading(on)), WRITE_EVENT) == Wants(m, WRITE_EVENT)
  {
  }

  lemma AfterWriting(m: bv16, on: bool)
    ensures Wants(MaskAfter(m, Writing(on)), READ_EVENT) == Wants(m, READ_EVENT)
    ensures Wants(MaskAfter(m, Writing(on)), WRITE_EVENT) == if on then WRITE_EVENT else 0
  {
  }

  lemma AfterNothing(m: bv16)
    ensures Wants(MaskAfter(m, Nothing), READ_EVENT) == 0 && Wants(MaskAfter(m, Nothing), WRITE_EVENT) == 0
    ensures MaskAfter(m, Removal) == m
  {
  }

  lemma BitsOfMask(m: bv16, op: Op)
    ensures Wants(MaskAfter(m, op), READ_EVENT)
            == if !SaysReading(op) then Wants(m, READ_EVENT) else if op == Reading(true) then READ_EVENT else 0
    ensures Wants(MaskAfter(m, op), WRITE_EVENT)
            == if !SaysWriting(op) then Wants(m, WRITE_EVENT) else if op == Writing(true) then WRITE_EVENT else 0
  {
    hide Wants, MaskAfter, READ_EVENT, WRITE_EVENT;
    match op
    case Reading(on) => AfterReading(m, on);
    case Writing(on) => AfterWriting(m, on);
    case Nothing => AfterNothing(m);
    case Removal => AfterNothing(m);
  }

  /** The last call on a channel that says whether reading is wanted decides whether it is. */
  lemma {:induction false} LastSaysReading(m: bv16, calls: seq<(Channel, Op)>, c: Channel, i: nat)
    requires i < |calls| && calls[i].0 == c && SaysReading(calls[i].1)
    requires forall j :: i < j < |calls| && calls[j].0 == c ==> !SaysReading(calls[j].1)
    ensures Wants(Mask(m, calls, c), READ_EVENT) == if calls[i].1 == Reading(true) then READ_EVENT else 0
    decreases |calls|
  {
    hide MaskAfter, Wants, READ_EVENT, WRITE_EVENT;
    var front := calls[..|calls| - 1];
    var (d, op) := calls[|calls| - 1];
    BitsOfMask(Mask(m, front, c), op);
    if i < |front| { LastSaysReading(m, front, c, i); }
  }

  /** And the same for writing. */
  lemma {:induction false} LastSaysWriting(m: bv16, calls: seq<(Channel, Op)>, c: Channel, i: nat)
    requires i < |calls| && calls[i].0 == c && SaysWriting(calls[i].1)
    requires forall j :: i < j < |calls| && calls[j].0 == c ==> !SaysWriting(calls[j].1)
    ensures Wants(Mask(m, calls, c), WRITE_EVENT) == if calls[i].1 == Writing(true) then WRITE_EVENT else 0
    decreases |calls|
  {
    hide MaskAfter, Wants, READ_EVENT, WRITE_EVENT;
    var front := calls[..|calls| - 1];
    var (d, op) := calls[|calls| - 1];
    BitsOfMask(Mask(m, front, c), op);
    if i < |front| { LastSaysWriting(m, front, c, i); }
  }

  method Perform(p: Poller, c: Channel, op: Op)
    requires p.Valid() && c in p.users
    modifies p, c
    ensures p.Valid() && p.users == old(p.users) && c.events == MaskAfter(old(c.events), op)
  {
    match op {
      case Reading(on) => if on { p.EnableReading(c); } else { p.DisableReading(c); }
      case Writing(on) => if on { p.EnableWriting(c); } else { p.DisableWriting(c); }
      case Nothing => p.DisableAll(c);
      case Removal =>
        if c.events == NO_EVENT && c.index != New {
          p.Remove(c);
        }
    }
  }

  /**
   In every history of calls on channels with distinct descriptors, the kernel's interest set is
   exactly the channels whose index says so, each with its present mask, which is what the calls on
   that channel made of it.
   */
  method RunHistory(p: Poller, calls: seq<(Channel, Op)>)
    requires p.Valid() && forall i :: 0 <= i < |calls| ==> calls[i].0 in p.users
    modifies p, p.users
    ensures p.Valid() && p.users == old(p.users)
    ensures forall c :: c in p.users && c.index == Added ==> c.fd in p.kernel && p.kernel[c.fd] == Interest(c.events, c)
    ensures forall fd :: fd in p.kernel ==> exists c :: c in p.users && c.fd == fd && c.index == Added
    ensures forall c :: c in p.users ==> c.events == Mask(old(c.events), calls, c)
  {
    var i := 0;
    assert calls[..0] == [];
    while i < |calls|
      invariant 0 <= i <= |calls| && p.Valid() && p.users == old(p.users)
      invariant forall c :: c in p.users ==> c.events == Mask(old(c.events), calls[..i], c)
    {
      assert calls[..i + 1][..i] == calls[..i];
      Perform(p, calls[i].0, calls[i].1);
      i := i + 1;
    }
    assert calls[..i] == calls;
    forall fd | fd in p.kernel
      ensures exists c :: c in p.users && c.fd == fd && c.index == Added
    {
      assert p.channels[fd] in p.users;
    }
  }
}
