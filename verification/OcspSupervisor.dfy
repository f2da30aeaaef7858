// The pre-fork supervisor of the OCSP responder: spawn_loop and killall.
//
// The operating system is a script of events. Every system call and every read of the signal flag
// takes the next event, so a run may receive any outcome of fork and waitpid and a signal between
// any two steps. A run that has used up its script is simply a run that has not ended yet: what the
// contract says about it holds at every stopping point.

module OcspSupervisor {

  datatype Event =
    | Tick(sig: int)                  // the signal flag is read; sig is the signal noted since, or 0
    | Wait(pid: int, status: int)     // waitpid reaped a child
    | WaitError(interrupted: bool)    // waitpid failed, with EINTR or with another error
    | Fork(pid: int)                  // fork returned: -1 error, 0 in the child, otherwise the child's pid
    | Seed(ok: bool)                  // RAND_poll in the child

  datatype Reason = NoMatchingSlot | NoFreeSlot | WaitFailed | Signalled(sig: int)

  datatype Outcome =
    | Running                         // the script ended first
    | Serving                         // this process is a child that goes on to answer requests
    | ChildExit(status: int)          // this process is a child that exits at once
    | Exit(status: int, reason: Reason)

  function AfterEvent(children: set<int>, event: Event): set<int>
  {
    match event
    case Wait(pid, _) => children - {pid}
    case Fork(pid) => if pid > 0 then children + {pid} else children
    case _ => children
  }

  /** The children that exist and have not been reaped after the given events. */
  ghost function Unreaped(events: seq<Event>): set<int>
  {
    if events == [] then {} else AfterEvent(Unreaped(events[..|events| - 1]), events[|events| - 1])
  }

  /** What the operating system guarantees: waitpid names an unreaped child, fork a pid not in use. */
  ghost predicate Consistent(script: seq<Event>)
  {
    forall k {:trigger script[k]} :: 0 <= k < |script| ==>
      (script[k].Wait? ==> script[k].pid in Unreaped(script[..k])) &&
      (script[k].Fork? ==> script[k].pid >= -1 && script[k].pid !in Unreaped(script[..k]))
  }

  ghost function Kids(slots: seq<int>): set<int>
  {
    set k | 0 <= k < |slots| && slots[k] != 0 :: slots[k]
  }

  ghost predicate OncePerChild(slots: seq<int>)
  {
    forall j, k :: 0 <= j < k < |slots| && slots[j] != 0 ==> slots[j] != slots[k]
  }

  /** The slots hold exactly the given children, once each, and procs counts them. */
  ghost predicate Tracks(slots: seq<int>, procs: int, children: set<int>)
  {
    OncePerChild(slots) && Kids(slots) == children && procs == |children|
  }

  function NonZero(slots: seq<int>): (r: seq<int>)
    ensures forall x :: x in r <==> x in slots && x != 0
  {
    if slots == [] then []
    else
      var r := NonZero(slots[..|slots| - 1]);
      assert slots == slots[..|slots| - 1] + [slots[|slots| - 1]];
      if slots[|slots| - 1] != 0 then r + [slots[|slots| - 1]] else r
  }

  lemma {:induction false} KidsCount(slots: seq<int>)
    requires OncePerChild(slots)
    ensures |Kids(slots)| == |NonZero(slots)| <= |slots|
    ensures |Kids(slots)| == |slots| <==> 0 !in slots
  {
    if slots != [] {
      var front, last := slots[..|slots| - 1], slots[|slots| - 1];
      KidsCount(front);
      assert slots == front + [last];
      assert Kids(slots) == if last != 0 then Kids(front) + {last} else Kids(front);
      if last != 0 {
        assert last !in Kids(front);
      }
    }
  }

  /** The two facts the slot searches rest on: a full count leaves no free slot, a smaller one leaves one. */
  lemma SlotCount(slots: seq<int>, procs: int, children: set<int>)
    requires Tracks(slots, procs, children)
    ensures 0 <= procs <= |slots| && procs == |children|
    ensures procs == |slots| <==> 0 !in slots
  {
    KidsCount(slots);
  }

  lemma SlotFreed(slots: seq<int>, procs: int, children: set<int>, k: nat)
    requires Tracks(slots, procs, children) && k < |slots| && slots[k] != 0
    ensures Tracks(slots[k := 0], procs - 1, children - {slots[k]})
  {
    var after := slots[k := 0];
    forall x ensures x in Kids(after) <==> x in children - {slots[k]} {
      if x in children - {slots[k]} {
        var j :| 0 <= j < |slots| && slots[j] != 0 && slots[j] == x;
        assert after[j] == x;
      }
    }
  }

  lemma SlotTaken(slots: seq<int>, procs: int, children: set<int>, k: nat, pid: int)
    requires Tracks(slots, procs, children) && k < |slots| && slots[k] == 0
    requires pid != 0 && pid !in children
    ensures Tracks(slots[k := pid], procs + 1, children + {pid})
  {
    var after := slots[k := pid];
    forall x ensures x in Kids(after) <==> x in children + {pid} {
      if x in children {
        var j :| 0 <= j < |slots| && slots[j] != 0 && slots[j] == x;
        assert after[j] == x;
      } else if x == pid {
        assert after[k] == pid;
      }
    }
    forall i, j | 0 <= i < j < |after| && after[i] != 0 ensures after[i] != after[j] {
      assert slots[i] != 0 ==> slots[i] in Kids(slots);
      assert slots[j] != 0 ==> slots[j] in Kids(slots);
    }
  }

  /** killall: signal every recorded child. */
  method KillAll(kidpids: array<int>) returns (killed: seq<int>)
    ensures killed == NonZero(kidpids[..])
  {
    killed := [];
    for i := 0 to kidpids.Length
      invariant killed == NonZero(kidpids[..i])
    {
      assert kidpids[..i + 1][..i] == kidpids[..i];
      if kidpids[i] != 0 {
        killed := killed + [kidpids[i]];
      }
    }
    assert kidpids[..kidpids.Length] == kidpids[..];
  }

  /** Each signalled process is a recorded child, and each recorded child is signalled once. */
  lemma Killed(slots: seq<int>, procs: int, children: set<int>)
    requires Tracks(slots, procs, children)
    ensures multiset(NonZero(slots)) == multiset(children)
  {
    KilledOnce(slots);
  }

  lemma {:induction false} KilledOnce(slots: seq<int>)
    requires OncePerChild(slots)
    ensures multiset(NonZero(slots)) == multiset(Kids(slots))
  {
    if slots != [] {
      var front, last := slots[..|slots| - 1], slots[|slots| - 1];
      KilledOnce(front);
      assert slots == front + [last];
      assert Kids(slots) == if last != 0 then Kids(front) + {last} else Kids(front);
      if last != 0 {
        assert last !in Kids(front);
      }
    }
  }

  // The supervisor as an abstract machine. It knows only the set of unreaped children and where the
  // program is, never the slot array: it is the reference that SpawnLoop is proved to follow.

  datatype Control =
    | AtTop                    // the outer loop condition is about to be read
    | AtGate                   // the condition of the loop that waits for a child
    | InWait                   // waitpid
    | AtBreak(noted: int)      // the check between the wait and the fork, with the signal seen so far
    | AtFork
    | AtChild                  // the child's own check of the flag
    | AtSeed                   // RAND_poll in the child
    | Done(end: Outcome)
    | Stuck                    // the event is not one the program asked for

  function Next(multi: nat, children: set<int>, at: Control, event: Event): Control
  {
    match (at, event)
    case (AtTop, Tick(sig)) => if sig != 0 then Done(Exit(0, Signalled(sig))) else AtGate
    case (AtGate, Tick(sig)) => if sig != 0 then AtBreak(sig) else if |children| >= multi then InWait else AtBreak(0)
    case (InWait, Wait(_, _)) => AtBreak(0)
    case (InWait, WaitError(interrupted)) => if interrupted then AtGate else Done(Exit(1, WaitFailed))
    case (AtBreak(noted), Tick(sig)) =>
      var flag := if sig != 0 then sig else noted;
      if flag != 0 then Done(Exit(0, Signalled(flag))) else AtFork
    case (AtFork, Fork(pid)) => if pid == 0 then AtChild else AtTop
    case (AtChild, Tick(sig)) => if sig != 0 then Done(ChildExit(0)) else AtSeed
    case (AtSeed, Seed(ok)) => Done(if ok then Serving else ChildExit(1))
    case _ => Stuck
  }

  ghost function Follow(multi: nat, events: seq<Event>): Control
  {
    if events == [] then AtTop
    else
      var before := events[..|events| - 1];
      Next(multi, Unreaped(before), Follow(multi, before), events[|events| - 1])
  }

  /** The abstract machine has consumed the first `used` events and stands at `at` with these children. */
  ghost predicate Sync(multi: nat, script: seq<Event>, used: nat, at: Control, children: set<int>)
  {
    used <= |script| && Consistent(script) &&
    at == Follow(multi, script[..used]) && children == Unreaped(script[..used])
  }

  /** One more event, and what the operating system guarantees about it. */
  lemma Advance(multi: nat, script: seq<Event>, used: nat, at: Control, children: set<int>)
    requires Sync(multi, script, used, at, children) && used < |script|
    ensures Sync(multi, script, used + 1, Next(multi, children, at, script[used]), AfterEvent(children, script[used]))
    ensures script[used].Wait? ==> script[used].pid in children && script[used].pid > 0
    ensures script[used].Fork? ==> script[used].pid >= -1 && script[used].pid !in children
  {
    assert script[..used + 1][..used] == script[..used];
    UnreapedPositive(script[..used]);
  }

  lemma {:induction false} UnreapedPositive(events: seq<Event>)
    ensures forall p :: p in Unreaped(events) ==> p > 0
  {
    if events != [] {
      UnreapedPositive(events[..|events| - 1]);
    }
  }

  lemma NoChildren(multi: nat, script: seq<Event>, slots: seq<int>)
    requires Consistent(script) && forall k :: 0 <= k < |slots| ==> slots[k] == 0
    ensures Tracks(slots, 0, {}) && Sync(multi, script, 0, AtTop, {})
  {
    assert Kids(slots) == {};
  }

  // What the abstract machine comes to, in terms of the events alone.

  ghost predicate EndsWith(events: seq<Event>, tail: seq<Event>)
  {
    |tail| <= |events| && events[|events| - |tail|..] == tail
  }

  /** The tick at k is the second one after the start or a fork in the parent, or follows an interrupted wait. */
  predicate AtGateIn(events: seq<Event>, k: nat)
  {
    0 < k < |events| && events[k].Tick? &&
    (events[k - 1] == WaitError(true) ||
     (events[k - 1] == Tick(0) && (k == 1 || (events[k - 2].Fork? && events[k - 2].pid != 0))))
  }

  /** The signal seen by the last tick, or by the one before it if that was at the gate. */
  function SignalAtEnd(events: seq<Event>): int
  {
    var n := |events|;
    if n == 0 || !events[n - 1].Tick? then 0
    else if events[n - 1].sig != 0 then events[n - 1].sig
    else if n >= 2 && AtGateIn(events[..n - 1], n - 2) then events[n - 2].sig
    else 0
  }

  ghost predicate AfterParentFork(events: seq<Event>)
  {
    events == [] || (events[|events| - 1].Fork? && events[|events| - 1].pid != 0)
  }

  ghost predicate AtLastGate(events: seq<Event>)
  {
    EndsWith(events, [WaitError(true)]) ||
    (EndsWith(events, [Tick(0)]) && AfterParentFork(events[..|events| - 1]))
  }

  lemma FollowLast(multi: nat, events: seq<Event>)
    requires events != []
    ensures var front := events[..|events| - 1];
      Follow(multi, events) == Next(multi, Unreaped(front), Follow(multi, front), events[|events| - 1])
  {}

  lemma FollowNothing(multi: nat)
    ensures Follow(multi, []) == AtTop
  {}

  lemma TopMeans(multi: nat, events: seq<Event>)
    requires Follow(multi, events) != Stuck
    ensures Follow(multi, events) == AtTop <==> AfterParentFork(events)
  {
    hide Follow, Unreaped;
    if events != [] { FollowLast(multi, events); } else { FollowNothing(multi); }
  }

  lemma LastIs(events: seq<Event>, e: Event)
    ensures EndsWith(events, [e]) <==> events != [] && events[|events| - 1] == e
  {}

  lemma GateMeans(multi: nat, events: seq<Event>)
    requires Follow(multi, events) != Stuck
    ensures Follow(multi, events) == AtGate <==> AtLastGate(events)
  {
    hide Follow, Unreaped, EndsWith, AfterParentFork;
    LastIs(events, WaitError(true));
    LastIs(events, Tick(0));
    if events != [] {
      FollowLast(multi, events);
      TopMeans(multi, events[..|events| - 1]);
    } else {
      FollowNothing(multi);
    }
  }

  lemma ChildMeans(multi: nat, events: seq<Event>)
    requires Follow(multi, events) != Stuck
    ensures Follow(multi, events) == AtChild <==> EndsWith(events, [Fork(0)])
  {
    hide Follow, Unreaped, EndsWith;
    LastIs(events, Fork(0));
    if events != [] { FollowLast(multi, events); } else { FollowNothing(multi); }
  }

  lemma SeedMeans(multi: nat, events: seq<Event>)
    requires Follow(multi, events) != Stuck
    ensures Follow(multi, events) == AtSeed <==> EndsWith(events, [Fork(0), Tick(0)])
  {
    hide Follow, Unreaped, EndsWith;
    if events != [] {
      FollowLast(multi, events);
      ChildMeans(multi, events[..|events| - 1]);
      LastTwo(events, Fork(0), Tick(0));
    } else {
      FollowNothing(multi);
      TailTooLong([Fork(0), Tick(0)]);
    }
  }

  lemma TailTooLong(tail: seq<Event>)
    requires tail != []
    ensures !EndsWith([], tail)
  {}

  lemma LastTwo(events: seq<Event>, a: Event, b: Event)
    requires events != []
    ensures EndsWith(events, [a, b]) <==> EndsWith(events[..|events| - 1], [a]) && events[|events| - 1] == b
  {
    if |events| >= 2 { assert events[|events| - 2..] == [events[|events| - 2], events[|events| - 1]]; }
  }

  lemma LastThree(events: seq<Event>, a: Event, b: Event, c: Event)
    requires events != []
    ensures EndsWith(events, [a, b, c]) <==> EndsWith(events[..|events| - 1], [a, b]) && events[|events| - 1] == c
  {
    var n := |events|;
    if n >= 3 {
      assert events[n - 3..] == [events[n - 3], events[n - 2], events[n - 1]];
      assert events[..n - 1][n - 3..] == [events[n - 3], events[n - 2]];
    }
  }

  /** What the machine has noted when it stands before the fork. */
  lemma BreakMeans(multi: nat, events: seq<Event>, noted: int)
    requires Follow(multi, events) == AtBreak(noted)
    ensures noted == if events != [] && AtGateIn(events, |events| - 1) then events[|events| - 1].sig else 0
  {
    hide Follow, Unreaped, AtGateIn, AtLastGate;
    if events == [] {
      FollowNothing(multi);
    } else {
      FollowLast(multi, events);
      GateMeans(multi, events[..|events| - 1]);
      GateIn(events);
    }
  }

  lemma GateIn(events: seq<Event>)
    requires events != []
    ensures AtGateIn(events, |events| - 1) <==>
      events[|events| - 1].Tick? && AtLastGate(events[..|events| - 1])
  {
    hide EndsWith;
    var n := |events|;
    var front := events[..n - 1];
    LastIs(front, WaitError(true));
    LastIs(front, Tick(0));
    if n > 2 { assert front[..n - 2] == events[..n - 2]; }
  }

  lemma ChildEnds(multi: nat, events: seq<Event>)
    requires Follow(multi, events) != Stuck && events != []
    ensures Follow(multi, events) == Done(Serving) <==> EndsWith(events, [Fork(0), Tick(0), Seed(true)])
    ensures Follow(multi, events) == Done(ChildExit(1)) <==> EndsWith(events, [Fork(0), Tick(0), Seed(false)])
    ensures Follow(multi, events) == Done(ChildExit(0)) <==> exists s :: s != 0 && EndsWith(events, [Fork(0), Tick(s)])
  {
    hide Follow, EndsWith, Unreaped;
    var front, e := events[..|events| - 1], events[|events| - 1];
    FollowLast(multi, events);
    ChildMeans(multi, front);
    SeedMeans(multi, front);
    LastThree(events, Fork(0), Tick(0), Seed(true));
    LastThree(events, Fork(0), Tick(0), Seed(false));
    forall s ensures EndsWith(events, [Fork(0), Tick(s)]) <==> EndsWith(front, [Fork(0)]) && e == Tick(s) {
      LastTwo(events, Fork(0), Tick(s));
    }
    assert e.Tick? ==> e == Tick(e.sig);
  }

  lemma WaitEnds(multi: nat, events: seq<Event>)
    requires Follow(multi, events) != Stuck && events != []
    ensures Follow(multi, events) == Done(Exit(1, WaitFailed)) <==> EndsWith(events, [WaitError(false)])
  {
    hide Follow, EndsWith, Unreaped;
    LastIs(events, WaitError(false));
    FollowLast(multi, events);
  }

  /** The parent leaves on the tick that it takes for the last event, if that is a signal or one was noted. */
  lemma SignalEnds(multi: nat, events: seq<Event>, s: int)
    requires Follow(multi, events) != Stuck && events != []
    ensures Follow(multi, events) == Done(Exit(0, Signalled(s))) <==>
      s != 0 && s == SignalAtEnd(events) && !AtGateIn(events, |events| - 1) && !ChildTick(events)
  {
    hide Follow, EndsWith, Unreaped, AtGateIn, AtLastGate;
    var front := events[..|events| - 1];
    FollowLast(multi, events);
    ChildMeans(multi, front);
    GateMeans(multi, front);
    GateIn(events);
    LastIs(front, Fork(0));
    if Follow(multi, front).AtBreak? { BreakMeans(multi, front, Follow(multi, front).noted); }
    if |events| >= 2 && AtGateIn(front, |events| - 2) { GateTick(multi, front); }
  }

  /** The last tick is the child's. */
  ghost predicate ChildTick(events: seq<Event>)
  {
    |events| >= 2 && events[|events| - 2] == Fork(0)
  }

  /** A tick at the gate leads to the wait or to the check before the fork. */
  lemma GateTick(multi: nat, events: seq<Event>)
    requires Follow(multi, events) != Stuck && events != [] && AtGateIn(events, |events| - 1)
    ensures Follow(multi, events) == InWait || Follow(multi, events) == AtBreak(events[|events| - 1].sig)
    ensures events[|events| - 1].sig != 0 ==> Follow(multi, events).AtBreak?
  {
    hide Follow, Unreaped, AtLastGate, AtGateIn;
    FollowLast(multi, events);
    GateIn(events);
    GateMeans(multi, events[..|events| - 1]);
  }

  /** How a run that returns is explained to its caller. */
  ghost predicate Explained(multi: nat, script: seq<Event>, used: nat, end: Outcome)
  {
    used <= |script| &&
    var at := Follow(multi, script[..used]);
    if end.Running? then
      !at.Done? && !at.Stuck? && (used < |script| ==> Follow(multi, script[..used + 1]) == Stuck)
    else
      at == Done(end)
  }

  ghost predicate HasRoom(multi: nat, children: set<int>, at: Control)
  {
    |children| <= multi && (at == InWait ==> |children| == multi) &&
    (at == AtFork || at == AtBreak(0) ==> |children| < multi)
  }

  lemma RoomStep(multi: nat, children: set<int>, at: Control, e: Event)
    requires HasRoom(multi, children, at) && Next(multi, children, at, e) != Stuck
    requires e.Wait? ==> e.pid in children
    ensures HasRoom(multi, AfterEvent(children, e), Next(multi, children, at, e))
  {}

  /** The abstract machine waits with a full table only, and forks with room only. */
  lemma {:induction false} Room(multi: nat, script: seq<Event>, n: nat)
    requires Consistent(script) && n <= |script| && Follow(multi, script[..n]) != Stuck
    ensures HasRoom(multi, Unreaped(script[..n]), Follow(multi, script[..n]))
  {
    if n > 0 {
      hide Follow, Unreaped, HasRoom, AfterEvent, Next, Consistent;
      assert script[..n][..n - 1] == script[..n - 1];
      FollowLast(multi, script[..n]);
      UnreapedLast(script[..n]);
      StuckStays(multi, Unreaped(script[..n - 1]), script[n - 1]);
      Room(multi, script, n - 1);
      WaitNames(script, n - 1);
      RoomStep(multi, Unreaped(script[..n - 1]), Follow(multi, script[..n - 1]), script[n - 1]);
    } else {
      assert script[..0] == [];
      NothingFollowed(multi);
    }
  }

  lemma WaitNames(script: seq<Event>, k: nat)
    requires Consistent(script) && k < |script|
    ensures script[k].Wait? ==> script[k].pid in Unreaped(script[..k])
  {}

  lemma UnreapedLast(events: seq<Event>)
    requires events != []
    ensures Unreaped(events) == AfterEvent(Unreaped(events[..|events| - 1]), events[|events| - 1])
  {}

  lemma StuckStays(multi: nat, children: set<int>, e: Event)
    ensures Next(multi, children, Stuck, e) == Stuck
    ensures forall end :: Next(multi, children, Done(end), e) == Stuck
  {}

  lemma NothingFollowed(multi: nat)
    ensures HasRoom(multi, Unreaped([]), Follow(multi, []))
  {}

  lemma {:induction false} NotStuckBefore(multi: nat, events: seq<Event>, k: nat)
    requires Follow(multi, events) != Stuck && k <= |events|
    ensures Follow(multi, events[..k]) != Stuck
    ensures k < |events| ==> !Follow(multi, events[..k]).Done?
    decreases |events|
  {
    hide Follow, Unreaped, Next;
    if k < |events| {
      FollowLast(multi, events);
      var front := events[..|events| - 1];
      StuckStays(multi, Unreaped(front), events[|events| - 1]);
      NotStuckBefore(multi, front, k);
      assert front[..k] == events[..k];
      assert k == |front| ==> events[..k] == front;
    } else {
      assert events[..k] == events;
    }
  }

  /** Every wait was for a child of a full table, and every fork was with room in it. */
  ghost predicate AskedRightly(multi: nat, events: seq<Event>)
  {
    forall k :: 0 <= k < |events| ==>
      ((events[k].Wait? || events[k].WaitError?) ==> |Unreaped(events[..k])| == multi) &&
      (events[k].Fork? ==> |Unreaped(events[..k])| < multi)
  }

  lemma Asked(multi: nat, script: seq<Event>, used: nat)
    requires Consistent(script) && used <= |script| && Follow(multi, script[..used]) != Stuck
    ensures AskedRightly(multi, script[..used])
  {
    hide Follow, Unreaped;
    var events := script[..used];
    forall k: nat | k < used
      ensures (events[k].Wait? || events[k].WaitError?) ==> |Unreaped(events[..k])| == multi
      ensures events[k].Fork? ==> |Unreaped(events[..k])| < multi
    {
      NotStuckBefore(multi, events, k);
      NotStuckBefore(multi, events, k + 1);
      assert events[..k + 1][..k] == events[..k] == script[..k];
      FollowLast(multi, events[..k + 1]);
      Room(multi, script, k);
    }
  }

  /** How a run ends, in terms of the events it has consumed. */
  ghost predicate EndFits(events: seq<Event>, end: Outcome)
  {
    // A child serves exactly if it saw no signal and was seeded.
    (end == Serving <==> EndsWith(events, [Fork(0), Tick(0), Seed(true)])) &&
    (end == ChildExit(1) <==> EndsWith(events, [Fork(0), Tick(0), Seed(false)])) &&
    (end == ChildExit(0) <==> exists s :: s != 0 && EndsWith(events, [Fork(0), Tick(s)])) &&
    // The parent gives up exactly on a failed wait that was not interrupted.
    (end == Exit(1, WaitFailed) <==> EndsWith(events, [WaitError(false)])) &&
    // It leaves exactly on a signal that it reads outside the gate, or has noted at the gate before.
    (forall s :: end == Exit(0, Signalled(s)) <==>
      s != 0 && s == SignalAtEnd(events) && !AtGateIn(events, |events| - 1) && !ChildTick(events)) &&
    // There are no other ends, and a reaped child, a fork and an interrupted wait are none.
    (end.Running? || end.Serving? || end == ChildExit(0) || end == ChildExit(1) || end == Exit(1, WaitFailed) ||
     (end.Exit? && end.status == 0 && end.reason.Signalled?)) &&
    (events != [] && (events[|events| - 1].Fork? || events[|events| - 1].Wait? || events[|events| - 1] == WaitError(true))
     ==> end == Running)
  }

  lemma OtherEnds(multi: nat, events: seq<Event>)
    requires Follow(multi, events) != Stuck
    ensures Follow(multi, events).Done? ==>
      var end := Follow(multi, events).end;
      end.Serving? || end == ChildExit(0) || end == ChildExit(1) || end == Exit(1, WaitFailed) ||
      (end.Exit? && end.status == 0 && end.reason.Signalled?)
    ensures events != [] && Follow(multi, events).Done? ==>
      var e := events[|events| - 1];
      !e.Fork? && !e.Wait? && e != WaitError(true)
  {
    hide Follow, Unreaped;
    if events != [] { FollowLast(multi, events); } else { FollowNothing(multi); }
  }

  lemma EndsFit(multi: nat, script: seq<Event>, used: nat, end: Outcome)
    requires Explained(multi, script, used, end)
    ensures EndFits(script[..used], end) && Follow(multi, script[..used]) != Stuck
  {
    var events := script[..used];
    hide Follow, EndsWith, AtGateIn, SignalAtEnd, ChildTick, Unreaped, Next;
    OtherEnds(multi, events);
    if events == [] {
      FollowNothing(multi);
      NothingFits();
    } else {
      ChildEnds(multi, events);
      WaitEnds(multi, events);
      forall s { SignalEnds(multi, events, s); }
    }
  }

  lemma NothingFits()
    ensures EndFits([], Running)
  {}

  /** What is explained fits the events. */
  lemma ExplainedFits(multi: nat, script: seq<Event>)
    requires Consistent(script)
    ensures forall used: nat, end: Outcome :: Explained(multi, script, used, end) ==>
      EndFits(script[..used], end) && AskedRightly(multi, script[..used])
  {
    forall used: nat, end: Outcome | Explained(multi, script, used, end)
      ensures EndFits(script[..used], end) && AskedRightly(multi, script[..used])
    {
      EndsFit(multi, script, used, end);
      Asked(multi, script, used);
    }
  }

  lemma Explain(multi: nat, script: seq<Event>, used: nat, at: Control, children: set<int>, end: Outcome)
    requires Sync(multi, script, used, at, children)
    requires if end.Running?
             then !at.Done? && !at.Stuck? && (used < |script| ==> Next(multi, children, at, script[used]) == Stuck)
             else at == Done(end)
    ensures Explained(multi, script, used, end) && children == Unreaped(script[..used])
  {
    if used < |script| {
      Advance(multi, script, used, at, children);
    }
  }

  /** The search of the reaping branch: the slot of the pid among the first procs slots. */
  method ReleaseSlot(kidpids: array<int>, procs: int, pid: int) returns (found: bool, left: int)
    requires 0 <= procs <= kidpids.Length && pid != 0
    requires OncePerChild(kidpids[..])
    modifies kidpids
    ensures found <==> pid in old(kidpids[..procs])
    ensures !found ==> kidpids[..] == old(kidpids[..]) && left == procs
    ensures found ==> left == procs - 1 && exists k ::
      0 <= k < procs && old(kidpids[k]) == pid && kidpids[..] == old(kidpids[..])[k := 0]
  {
    left := procs;
    found := false;
    var i := 0;
    while i < procs
      invariant 0 <= i <= procs
      invariant kidpids[..] == old(kidpids[..])
      invariant pid !in kidpids[..i]
    {
      if kidpids[i] == pid {
        kidpids[i] := 0;
        left := left - 1;
        found := true;
        return;
      }
      i := i + 1;
    }
  }

  /** The search of the parent's branch after fork: the first free slot. */
  method TakeSlot(kidpids: array<int>, procs: int, pid: int) returns (found: bool, now: int)
    modifies kidpids
    ensures found <==> 0 in old(kidpids[..])
    ensures !found ==> kidpids[..] == old(kidpids[..]) && now == procs
    ensures found ==> now == procs + 1 && exists k ::
      0 <= k < kidpids.Length && old(kidpids[k]) == 0 && kidpids[..] == old(kidpids[..])[k := pid]
  {
    now := procs;
    found := false;
    var i := 0;
    while i < kidpids.Length
      invariant 0 <= i <= kidpids.Length
      invariant kidpids[..] == old(kidpids[..])
      invariant 0 !in kidpids[..i]
    {
      if kidpids[i] == 0 {
        kidpids[i] := pid;
        now := now + 1;
        found := true;
        return;
      }
      i := i + 1;
    }
  }

  /** Reaping a child frees its slot; with a full table the search always finds it. */
  method Reap(kidpids: array<int>, procs: int, pid: int, ghost children: set<int>) returns (found: bool, left: int)
    requires Tracks(kidpids[..], procs, children) && procs == kidpids.Length
    requires pid in children && pid != 0
    modifies kidpids
    ensures found && left == procs - 1
    ensures Tracks(kidpids[..], left, children - {pid})
  {
    ghost var slots := kidpids[..];
    found, left := ReleaseSlot(kidpids, procs, pid);
    assert slots[..procs] == slots;
    assert pid in slots;
    ghost var k :| 0 <= k < procs && slots[k] == pid && kidpids[..] == slots[k := 0];
    SlotFreed(slots, procs, children, k);
  }

  /** Recording a child after fork; below the limit there is always a free slot. */
  method Record(kidpids: array<int>, procs: int, pid: int, ghost children: set<int>) returns (found: bool, now: int)
    requires Tracks(kidpids[..], procs, children) && procs < kidpids.Length
    requires pid !in children && pid != 0
    modifies kidpids
    ensures found && now == procs + 1
    ensures Tracks(kidpids[..], now, children + {pid})
  {
    ghost var slots := kidpids[..];
    SlotCount(slots, procs, children);
    found, now := TakeSlot(kidpids, procs, pid);
    ghost var k :| 0 <= k < kidpids.Length && slots[k] == 0 && kidpids[..] == slots[k := pid];
    SlotTaken(slots, procs, children, k, pid);
  }

  lemma SyncConsistent(multi: nat, script: seq<Event>, used: nat, at: Control, children: set<int>)
    requires Sync(multi, script, used, at, children)
    ensures Consistent(script)
  {}

  /** The child's side of fork: leave at once on a signal or without randomness, otherwise serve. */
  method ChildStart(multi: nat, script: seq<Event>, pos: nat, ghost children: set<int>)
    returns (end: Outcome, used: nat)
    requires pos <= |script| && Sync(multi, script, pos, AtChild, children)
    ensures used <= |script| && Explained(multi, script, used, end) && !end.Exit?
    ensures children == Unreaped(script[..used])
    ensures EndFits(script[..used], end)
  {
    SyncConsistent(multi, script, pos, AtChild, children);
    ExplainedFits(multi, script);
    hide Sync, Explained, EndFits, AskedRightly, Unreaped;
    end, used := Running, pos;
    if used == |script| || !script[used].Tick? {
      Explain(multi, script, used, AtChild, children, end);
      return;
    }
    Advance(multi, script, used, AtChild, children);
    var sig := script[used].sig;
    used := used + 1;
    if sig != 0 {
      end := ChildExit(0);
      Explain(multi, script, used, Done(end), children, end);
      return;
    }
    if used == |script| || !script[used].Seed? {
      Explain(multi, script, used, AtSeed, children, end);
      return;
    }
    Advance(multi, script, used, AtSeed, children);
    end := if script[used].ok then Serving else ChildExit(1);
    used := used + 1;
    Explain(multi, script, used, Done(end), children, end);
  }

  /**
   * The inner loop: wait for a child to replace while the table is full and no signal is noted.
   * With `more` the run goes on to the check before the fork, with `sig` as the flag.
   */
  method AwaitRoom(kidpids: array<int>, count: int, script: seq<Event>, pos: nat, ghost kids: set<int>)
    returns (more: bool, end: Outcome, used: nat, procs: int, sig: int, killed: seq<int>, ghost children: set<int>)
    requires pos <= |script| && kidpids.Length > 0 && Sync(kidpids.Length, script, pos, AtGate, kids)
    requires Tracks(kidpids[..], count, kids)
    modifies kidpids
    ensures pos <= used <= |script| && Tracks(kidpids[..], procs, children) && children == Unreaped(script[..used])
    ensures more ==> end == Running && Sync(kidpids.Length, script, used, AtBreak(sig), children)
    ensures more && sig == 0 ==> procs < kidpids.Length
    ensures !more ==> Explained(kidpids.Length, script, used, end)
    ensures end == Running || (!more && end == Exit(1, WaitFailed))
    ensures if end == Running then killed == [] else multiset(killed) == multiset(children)
  {
    hide Tracks, Sync, Explained, Unreaped, NonZero;
    end, used, procs, sig, killed, more, children := Running, pos, count, 0, [], true, kids;
    while true
      invariant pos <= used <= |script| && end == Running && killed == [] && sig == 0 && more
      invariant Tracks(kidpids[..], procs, children)
      invariant Sync(kidpids.Length, script, used, AtGate, children)
      decreases |script| - used
    {
      ghost var slots := kidpids[..];
      SlotCount(slots, procs, children);
      if used == |script| || !script[used].Tick? {
        more := false;
        Explain(kidpids.Length, script, used, AtGate, children, end);
        return;
      }
      Advance(kidpids.Length, script, used, AtGate, children);
      sig, used := script[used].sig, used + 1;
      if sig != 0 || procs < kidpids.Length {
        SyncChildren(kidpids.Length, script, used, AtBreak(sig), children);
        return;
      }
      if used == |script| || !(script[used].Wait? || script[used].WaitError?) {
        more := false;
        Explain(kidpids.Length, script, used, InWait, children, end);
        return;
      }
      Advance(kidpids.Length, script, used, InWait, children);
      used := used + 1;
      match script[used - 1] {
        case Wait(pid, _) =>
          var found;
          found, procs := Reap(kidpids, procs, pid, children);
          if !found {
            end := Exit(1, NoMatchingSlot);
            killed := KillAll(kidpids);
          }
          children := children - {pid};
          SlotCount(kidpids[..], procs, children);
          SyncChildren(kidpids.Length, script, used, AtBreak(0), children);
          return;
        case WaitError(interrupted) =>
          if !interrupted {
            end, more := Exit(1, WaitFailed), false;
            killed := KillAll(kidpids);
            Killed(slots, procs, children);
            Explain(kidpids.Length, script, used, Done(end), children, end);
            return;
          }
        case _ =>
      }
    }
  }

  lemma SyncChildren(multi: nat, script: seq<Event>, used: nat, at: Control, children: set<int>)
    requires Sync(multi, script, used, at, children)
    ensures used <= |script| && children == Unreaped(script[..used])
  {}

  /**
   * The supervisor. `used` is how much of the script the run has consumed, `slots` and `procs` are the
   * parent's table when the run stopped, and `killed` is what killall signalled.
   */
  method SpawnLoop(multi: nat, script: seq<Event>)
    returns (end: Outcome, used: nat, slots: seq<int>, procs: int, killed: seq<int>)
    requires multi > 0 && Consistent(script)
    // At every stopping point the table is exact and within its limit.
    ensures used <= |script| && |slots| == multi && 0 <= procs <= multi
    ensures Tracks(slots, procs, Unreaped(script[..used]))
    // The run is the abstract machine's: the same events asked for, the same end.
    ensures Explained(multi, script, used, end)
    // It ends as its last events say, and waits and forks only as it should.
    ensures EndFits(script[..used], end) && AskedRightly(multi, script[..used])
    // Neither internal error occurs.
    ensures end.Exit? ==> end.reason.Signalled? || end.reason.WaitFailed?
    // On the way out every child that still exists is signalled exactly once, and nothing else is.
    ensures if end.Exit? then multiset(killed) == multiset(Unreaped(script[..used])) else killed == []
  {
    hide Tracks, Sync, Explained, Unreaped, NonZero, Follow, Consistent, EndFits, AskedRightly;
    ExplainedFits(multi, script);
    var kidpids := new int[multi];
    killed, procs, used := [], 0, 0;
    end := Running;
    for i := 0 to multi
      invariant forall k :: 0 <= k < i ==> kidpids[k] == 0
    {
      kidpids[i] := 0;
    }
    NoChildren(multi, script, kidpids[..]);
    ghost var children := {};

    while true
      invariant used <= |script| && killed == [] && end == Running
      invariant Tracks(kidpids[..], procs, children) && Sync(multi, script, used, AtTop, children)
      decreases |script| - used
    {
      slots := kidpids[..];
      SlotCount(slots, procs, children);
      if used == |script| || !script[used].Tick? {
        Explain(multi, script, used, AtTop, children, end);
        return;
      }
      Advance(multi, script, used, AtTop, children);
      var sig := script[used].sig;
      used := used + 1;
      if sig != 0 {
        end := Exit(0, Signalled(sig));
        killed := KillAll(kidpids);
        Killed(slots, procs, children);
        Explain(multi, script, used, Done(end), children, end);
        return;
      }
      var more;
      more, end, used, procs, sig, killed, children := AwaitRoom(kidpids, procs, script, used, children);
      slots := kidpids[..];
      SlotCount(slots, procs, children);
      if !more { return; }
      if used == |script| || !script[used].Tick? {
        Explain(multi, script, used, AtBreak(sig), children, end);
        return;
      }
      Advance(multi, script, used, AtBreak(sig), children);
      if script[used].sig != 0 { sig := script[used].sig; }
      used := used + 1;
      if sig != 0 {
        end := Exit(0, Signalled(sig));
        killed := KillAll(kidpids);
        Killed(slots, procs, children);
        Explain(multi, script, used, Done(end), children, end);
        return;
      }
      if used == |script| || !script[used].Fork? {
        Explain(multi, script, used, AtFork, children, end);
        return;
      }
      Advance(multi, script, used, AtFork, children);
      var fpid := script[used].pid;
      used := used + 1;
      if fpid == 0 {
        end, used := ChildStart(multi, script, used, children);
        return;
      } else if fpid != -1 {
        var found;
        found, procs := Record(kidpids, procs, fpid, children);
        if !found {
          end := Exit(1, NoFreeSlot);
          killed := KillAll(kidpids);
        }
        children := children + {fpid};
      }
    }
  }
}
