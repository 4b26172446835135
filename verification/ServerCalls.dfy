/** What a call comes to while the server keeps its state: connections are served while it stays open, handlers
    are added while it stays closed, and a goroutine waits only for another that holds a lock. */
module ServerCalls {
  import opened Strconv
  import opened MapTotals
  import opened ServerState
  import opened ServerSchedules

  // ---------------------------------------------------------------- waiting

  /** About to take connectionsLock. */
  predicate WantsCount(pc: PC) {
    pc.RegLock? || pc.Serving?
  }

  lemma WaitsOnLocks(s: Server, t: Tid)
    requires t in s.threads
    ensures Advance(s, t) == None <==>
            || s.threads[t] == Done
            || (WantsRead(s.threads[t]) && s.writer != None)
            || (WantsWrite(s.threads[t]) && (s.writer != None || s.readers != {}))
            || (WantsCount(s.threads[t]) && s.countLock != None)
  {
  }

  /** A goroutine that is not done can take its next step unless another is in its way: readers of the state
      keep out writers only, writers everybody, and of the counter there is one user at a time. */
  lemma BlockedIff(s: Server, t: Tid)
    requires Inv(s) && t in s.threads
    ensures Advance(s, t) == None <==>
            || s.threads[t] == Done
            || (WantsRead(s.threads[t]) && exists u | u in s.threads :: Writing(s.threads[u]))
            || (WantsWrite(s.threads[t]) && exists u | u in s.threads :: Writing(s.threads[u]) || Reading(s.threads[u]))
            || (WantsCount(s.threads[t]) && exists u | u in s.threads :: Counting(s.threads[u]))
  {
    hide Advance, Reading, Writing, Counting, Stable;
    WaitsOnLocks(s, t);
    LocksTaken(s);
  }

  /** A lock is taken exactly if some goroutine stands where it holds it. */
  lemma LocksTaken(s: Server)
    requires LocksHeld(s)
    ensures s.writer != None <==> exists u | u in s.threads :: Writing(s.threads[u])
    ensures s.readers != {} <==> exists u | u in s.threads :: Reading(s.threads[u])
    ensures s.countLock != None <==> exists u | u in s.threads :: Counting(s.threads[u])
  {
    hide Reading, Writing, Counting;
    if s.writer != None {
      assert Writing(s.threads[s.writer.value]);
    }
    if s.countLock != None {
      assert Counting(s.threads[s.countLock.value]);
    }
    if s.readers != {} {
      var u :| u in s.readers;
      assert u in s.threads && Reading(s.threads[u]);
    }
    if u :| u in s.threads && Reading(s.threads[u]) {
      assert u in s.readers;
    }
  }

  // ---------------------------------------------------------------- connections

  /** Goroutine t gets to run its handler. */
  ghost predicate Serves(s: Server, es: seq<Event>, t: Tid)
    decreases |es|
  {
    PcOf(s, t) == Serving ||
    (es != [] && match Apply(s, es[0]) case None => false case Some(s1) => Serves(s1, es[1..], t))
  }

  /** In registerConnection, and not turned away. */
  predicate Registering(pc: PC) {
    InRegister(pc) && pc != RegReject
  }

  lemma RegisterOpen(s: Server, t: Tid, s': Server)
    requires t in s.threads && Registering(s.threads[t]) && s.phase == Open
    requires Register(s, t, s.threads[t]) == Some(s')
    ensures t in s'.threads && (Registering(s'.threads[t]) || s'.threads[t] == Serving)
  {
  }

  lemma StepOpen(s: Server, t: Tid, e: Event, s': Server)
    requires LocksHeld(s) && s.phase == Open && Registering(PcOf(s, t)) && Apply(s, e) == Some(s')
    ensures Registering(PcOf(s', t)) || PcOf(s', t) == Serving
  {
    hide Register, Deregister, ChangeIf, Other, Registering;
    assert Registering(PcOf(s, t)) ==> InRegister(PcOf(s, t)) by {
      InRegisterOf(PcOf(s, t));
    }
    if e.t == t {
      assert t in s.threads by { DoneIsNot(); }
      RegisterOpen(s, t, s');
    } else {
      StepEffect(s, e, s');
    }
  }

  lemma InRegisterOf(pc: PC)
    ensures Registering(pc) ==> InRegister(pc)
  {
  }

  lemma DoneIsNot()
    ensures !Registering(Done)
  {
  }

  /** While the server stays open nobody who is registering is turned away: he still is, or has been served. */
  lemma {:induction false} ServedWhileOpen(s: Server, es: seq<Event>, f: Server, t: Tid)
    requires Inv(s) && Exec(s, es) == Some(f) && Within(s, es, {Open}) && Registering(PcOf(s, t))
    ensures Registering(PcOf(f, t)) || Serves(s, es, t)
    decreases |es|
  {
    hide Inv, Apply, Registering;
    if es != [] {
      var s1 := Apply(s, es[0]).value;
      StepInv(s, es[0], s1);
      assert LocksHeld(s) by { LocksOf(s); }
      StepOpen(s, t, es[0], s1);
      if PcOf(s1, t) != Serving {
        ServedWhileOpen(s1, es[1..], f, t);
      }
    }
  }

  lemma LocksOf(s: Server)
    requires Inv(s)
    ensures LocksHeld(s)
  {
  }

  /** Under every schedule during which the server stays open: let the goroutines run in any order until none
      can, and everyone who was registering has been served and is done. */
  lemma AllServed(s: Server, es: seq<Event>, f: Server, t: Tid)
    requires Inv(s) && AllMoves(es) && Exec(s, es) == Some(f) && Within(s, es, {Open}) && Stuck(f)
    requires Registering(PcOf(s, t))
    ensures Serves(s, es, t) && PcOf(f, t) == Done
  {
    hide Inv, Advance, Stuck, Registering;
    RunInv(s, es, f);
    ServedWhileOpen(s, es, f, t);
    NoDeadlock(f);
    DoneIsNot();
  }

  /** So every connection that comes to an open server is served. */
  lemma EveryConnectionServed(s: Server, t: Tid, es: seq<Event>, f: Server)
    requires Inv(s) && t !in s.threads && AllMoves(es)
    requires var call := [Spawn(t, HandleConnection)] + es;
             Exec(s, call) == Some(f) && Within(s, call, {Open}) && Stuck(f)
    ensures Serves(s, [Spawn(t, HandleConnection)] + es, t) && PcOf(f, t) == Done
  {
    var call := [Spawn(t, HandleConnection)] + es;
    var s1 := s.At(t, RegWant);
    assert call[1..] == es && call[0] == Spawn(t, HandleConnection);
    StepInv(s, call[0], s1);
    hide Inv, Advance, Stuck;
    AllServed(s1, es, f, t);
  }

  /** About to look at the state, or turned away. */
  predicate NotYetOpen(pc: PC) {
    pc.RegWant? || pc.RegCheck? || pc.RegReject? || pc.Done?
  }

  lemma StepShut(s: Server, t: Tid, e: Event, s': Server)
    requires LocksHeld(s) && s.phase != Open && t in s.threads && NotYetOpen(s.threads[t]) && Apply(s, e) == Some(s')
    ensures t in s'.threads && NotYetOpen(s'.threads[t])
  {
    if e.t != t {
      hide Apply;
      StepEffect(s, e, s');
    }
  }

  /** And none that comes to a server which is not open at any time of the call. */
  lemma {:induction false} NeverServedUnlessOpen(s: Server, es: seq<Event>, f: Server, t: Tid)
    requires Inv(s) && Exec(s, es) == Some(f) && Within(s, es, {Closing, Closed})
    requires t in s.threads && NotYetOpen(s.threads[t])
    ensures !Serves(s, es, t)
    decreases |es|
  {
    hide Inv, Apply;
    if es != [] {
      var s1 := Apply(s, es[0]).value;
      StepInv(s, es[0], s1);
      LocksOf(s);
      StepShut(s, t, es[0], s1);
      NeverServedUnlessOpen(s1, es[1..], f, t);
    }
  }

  // ---------------------------------------------------------------- handlers

  /** The handler a goroutine is still to add. */
  function ToAdd(pc: PC): multiset<nat> {
    match pc
    case AddWant(h) => multiset{h}
    case AddCheck(h) => multiset{h}
    case AddInsert(h) => multiset{h}
    case _ => multiset{}
  }

  /** The handlers that calls begun in a run are to add. */
  function Requested(es: seq<Event>): multiset<nat> {
    if es == [] then multiset{}
    else RequestedBy(es[0]) + Requested(es[1..])
  }

  function RequestedBy(e: Event): multiset<nat> {
    if e.Spawn? && e.op.AddHandler? then multiset{e.op.h} else multiset{}
  }

  /** A step appends what it no longer has to add. */
  ghost predicate Adds(s: Server, pc: PC, pc': PC, s': Server) {
    s.handlers <= s'.handlers && multiset(s'.handlers) + ToAdd(pc') == multiset(s.handlers) + ToAdd(pc)
  }

  lemma RegisterAdds(s: Server, t: Tid, s': Server)
    requires t in s.threads && InRegister(s.threads[t]) && Register(s, t, s.threads[t]) == Some(s')
    requires s.phase == Closed
    ensures t in s'.threads && Adds(s, s.threads[t], s'.threads[t], s')
  {
  }

  lemma DeregisterAdds(s: Server, t: Tid, s': Server)
    requires t in s.threads && InDeregister(s.threads[t]) && Deregister(s, t, s.threads[t]) == Some(s')
    requires s.phase == Closed
    ensures t in s'.threads && Adds(s, s.threads[t], s'.threads[t], s')
  {
  }

  lemma ChangeIfAdds(s: Server, t: Tid, s': Server)
    requires t in s.threads && InChangeIf(s.threads[t]) && ChangeIf(s, t, s.threads[t]) == Some(s')
    requires s.phase == Closed
    ensures t in s'.threads && Adds(s, s.threads[t], s'.threads[t], s')
  {
  }

  lemma OtherSteps(s: Server, t: Tid, s': Server)
    requires t in s.threads && InOther(s.threads[t]) && Other(s, t, s.threads[t]) == Some(s') && s.phase == Closed
    ensures t in s'.threads
    ensures s.threads[t].AddInsert? ==>
              s'.handlers == s.handlers + [s.threads[t].h] && s'.threads[t] == AddRUnlock
    ensures !s.threads[t].AddInsert? ==>
              s'.handlers == s.handlers && ToAdd(s'.threads[t]) == ToAdd(s.threads[t])
  {
  }

  lemma OtherAdds(s: Server, t: Tid, s': Server)
    requires t in s.threads && InOther(s.threads[t]) && Other(s, t, s.threads[t]) == Some(s') && s.phase == Closed
    ensures t in s'.threads && Adds(s, s.threads[t], s'.threads[t], s')
  {
    hide Other, InOther;
    OtherSteps(s, t, s');
    if s.threads[t].AddInsert? {
      Appended(s.handlers, s.threads[t].h);
    } else {
      hide Adds, ToAdd;
      NothingAdded(s, s.threads[t], s'.threads[t], s');
    }
  }

  lemma Appended(handlers: seq<nat>, h: nat)
    ensures multiset(handlers + [h]) == multiset(handlers) + multiset{h}
    ensures multiset(handlers + [h]) + multiset{} == multiset(handlers) + multiset{h}
  {
  }

  lemma NothingAdded(s: Server, pc: PC, pc': PC, s': Server)
    requires s'.handlers == s.handlers && ToAdd(pc') == ToAdd(pc)
    ensures Adds(s, pc, pc', s')
  {
  }

  lemma MoveAdds(s: Server, t: Tid, s': Server)
    requires t in s.threads && s.phase == Closed && Advance(s, t) == Some(s')
    ensures t in s'.threads && Adds(s, s.threads[t], s'.threads[t], s')
  {
    hide Adds, Register, Deregister, ChangeIf, Other;
    var pc := s.threads[t];
    if InRegister(pc) {
      RegisterAdds(s, t, s');
    } else if InDeregister(pc) {
      DeregisterAdds(s, t, s');
    } else if InChangeIf(pc) {
      ChangeIfAdds(s, t, s');
    } else {
      OtherAdds(s, t, s');
    }
  }

  /** What was to be added has been, in one account; the rest balances. */
  lemma Balance(had: multiset<nat>, have: multiset<nat>, was: multiset<nat>, is_: multiset<nat>,
                open: multiset<nat>, left: multiset<nat>)
    requires have + left == had + open && is_ + open == was + left
    ensures have + is_ == had + was
  {
    forall x
      ensures (have + is_)[x] == (had + was)[x]
    {
      assert (have + left)[x] == (had + open)[x] && (is_ + open)[x] == (was + left)[x];
    }
  }

  lemma MoveBalances(s: Server, t: Tid, s': Server)
    requires LocksHeld(s) && t in s.threads && s.phase == Closed && Advance(s, t) == Some(s')
    ensures s.handlers <= s'.handlers
    ensures multiset(s'.handlers) + Gather(s'.threads, ToAdd) == multiset(s.handlers) + Gather(s.threads, ToAdd)
  {
    MoveRank(s, t, s');
    hide Advance, ToAdd, LocksHeld, Gather;
    MoveAdds(s, t, s');
    GatherUpdate(s.threads, t, s'.threads[t], ToAdd);
    Balance(multiset(s.handlers), multiset(s'.handlers), Gather(s.threads, ToAdd), Gather(s'.threads, ToAdd),
            ToAdd(s.threads[t]), ToAdd(s'.threads[t]));
  }

  lemma SpawnBalances(s: Server, t: Tid, op: Op)
    requires t !in s.threads
    ensures Gather(s.At(t, Start(op)).threads, ToAdd) == Gather(s.threads, ToAdd) + ToAdd(Start(op))
  {
    hide ToAdd, Gather;
    GatherUpdate(s.threads, t, Start(op), ToAdd);
    var g := Gather(s.At(t, Start(op)).threads, ToAdd);
    assert g + multiset{} == g;
  }

  lemma SpawnRequests(t: Tid, op: Op)
    ensures ToAdd(Start(op)) == RequestedBy(Spawn(t, op))
  {
  }

  lemma StepAdds(s: Server, e: Event, s': Server)
    requires LocksHeld(s) && s.phase == Closed && Apply(s, e) == Some(s')
    ensures s.handlers <= s'.handlers
    ensures multiset(s'.handlers) + Gather(s'.threads, ToAdd) ==
            multiset(s.handlers) + Gather(s.threads, ToAdd) + RequestedBy(e)
  {
    hide Advance, ToAdd, LocksHeld, Gather;
    match e
    case Spawn(t, op) =>
      SpawnBalances(s, t, op);
      SpawnRequests(t, op);
    case Move(t) =>
      MoveBalances(s, t, s');
  }

  /** While the server stays closed no handler is lost and none is added twice: those there are, with those
      still to be added, are those there were, with those requested since. They are appended. */
  lemma {:induction false} HandlersConserved(s: Server, es: seq<Event>, f: Server)
    requires Inv(s) && Exec(s, es) == Some(f) && Within(s, es, {Closed})
    ensures s.handlers <= f.handlers
    ensures multiset(f.handlers) + Gather(f.threads, ToAdd) ==
            multiset(s.handlers) + Gather(s.threads, ToAdd) + Requested(es)
    decreases |es|
  {
    hide Inv, Apply, ToAdd;
    if es != [] {
      var s1 := Apply(s, es[0]).value;
      StepInv(s, es[0], s1);
      LocksOf(s);
      StepAdds(s, es[0], s1);
      HandlersConserved(s1, es[1..], f);
    }
  }

  /** So once no goroutine can go on, all of them are in. */
  lemma EveryHandlerAdded(s: Server, es: seq<Event>, f: Server)
    requires Inv(s) && Exec(s, es) == Some(f) && Within(s, es, {Closed}) && Stuck(f)
    ensures multiset(f.handlers) == multiset(s.handlers) + Gather(s.threads, ToAdd) + Requested(es)
  {
    hide Inv, Advance, Stuck;
    HandlersConserved(s, es, f);
    RunInv(s, es, f);
    NoDeadlock(f);
    GatherNothing(f.threads, ToAdd);
  }

  /** While it is not closed at any time, none is added. */
  lemma {:induction false} NoHandlersUnlessClosed(s: Server, es: seq<Event>, f: Server)
    requires Inv(s) && Exec(s, es) == Some(f) && Within(s, es, {Open, Closing})
    ensures f.handlers == s.handlers
    decreases |es|
  {
    hide Inv, Apply;
    if es != [] {
      var s1 := Apply(s, es[0]).value;
      StepInv(s, es[0], s1);
      HandlersOnlyWhileClosed(s, es[0], s1);
      NoHandlersUnlessClosed(s1, es[1..], f);
    }
  }
}
