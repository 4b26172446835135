/** Whole schedules of the server: they end, they cannot deadlock, so an orderly shutdown is reached
    under each of them; and runs that show what the code does not guarantee. */
module ServerSchedules {
  import opened Strconv
  import opened ServerState
  import opened MapTotals

  /** At most how many steps a goroutine at pc still takes. */
  function Rank(pc: PC): nat {
    match pc
    case RegWant => 17
    case RegCheck => 16
    case RegReject => 1
    case RegLock => 15
    case RegInc => 14
    case RegUnlock => 13
    case RegRUnlock => 12
    case Serving => 11
    case DerDec => 10
    case DerUnlock => 9
    case DerRead => 8
    case CondWant(_) => 7
    case CondCheck(_) => 6
    case CondRelease(_) => 5
    case CondGiveUp => 1
    case CondWantWrite(_) => 4
    case CondWrite(_) => 3
    case CondUnlock => 2
    case SetWant(_) => 3
    case SetWrite(_) => 2
    case SetUnlock => 1
    case AddWant(_) => 4
    case AddCheck(_) => 3
    case AddInsert(_) => 2
    case AddRUnlock => 1
    case Done => 0
  }

  lemma RegisterRank(s: Server, t: Tid, s': Server)
    requires t in s.threads && InRegister(s.threads[t]) && Register(s, t, s.threads[t]) == Some(s')
    ensures t in s'.threads && s'.threads == s.threads[t := s'.threads[t]]
    ensures Rank(s'.threads[t]) < Rank(s.threads[t])
  {
  }

  lemma DeregisterRank(s: Server, t: Tid, s': Server)
    requires t in s.threads && InDeregister(s.threads[t]) && Deregister(s, t, s.threads[t]) == Some(s')
    ensures t in s'.threads && s'.threads == s.threads[t := s'.threads[t]]
    ensures Rank(s'.threads[t]) < Rank(s.threads[t])
  {
  }

  lemma ChangeIfRank(s: Server, t: Tid, s': Server)
    requires t in s.threads && InChangeIf(s.threads[t]) && ChangeIf(s, t, s.threads[t]) == Some(s')
    ensures t in s'.threads && s'.threads == s.threads[t := s'.threads[t]]
    ensures Rank(s'.threads[t]) < Rank(s.threads[t])
  {
  }

  lemma OtherRank(s: Server, t: Tid, s': Server)
    requires t in s.threads && InOther(s.threads[t]) && Other(s, t, s.threads[t]) == Some(s')
    ensures t in s'.threads && s'.threads == s.threads[t := s'.threads[t]]
    ensures Rank(s'.threads[t]) < Rank(s.threads[t])
  {
  }

  lemma MoveRank(s: Server, t: Tid, s': Server)
    requires t in s.threads && Advance(s, t) == Some(s')
    ensures t in s'.threads && s'.threads == s.threads[t := s'.threads[t]]
    ensures Rank(s'.threads[t]) < Rank(s.threads[t])
  {
    hide Rank, Register, Deregister, ChangeIf, Other;
    var pc := s.threads[t];
    if InRegister(pc) {
      RegisterRank(s, t, s');
    } else if InDeregister(pc) {
      DeregisterRank(s, t, s');
    } else if InChangeIf(pc) {
      ChangeIfRank(s, t, s');
    } else {
      OtherRank(s, t, s');
    }
  }

  lemma MoveTotal(s: Server, t: Tid, s': Server)
    requires t in s.threads && Advance(s, t) == Some(s')
    ensures Total(s'.threads, Rank) < Total(s.threads, Rank)
  {
    hide Advance, Rank;
    MoveRank(s, t, s');
    TotalUpdate(s.threads, t, s'.threads[t], Rank);
  }

  ghost predicate AllMoves(es: seq<Event>) {
    forall e | e in es :: e.Move?
  }

  /** Without new calls, every schedule ends: the steps goroutines have left bound its length. */
  lemma {:induction false} SchedulesEnd(s: Server, es: seq<Event>, f: Server)
    requires Exec(s, es) == Some(f) && AllMoves(es)
    ensures |es| + Total(f.threads, Rank) <= Total(s.threads, Rank)
    decreases |es|
  {
    hide Advance;
    if es != [] {
      assert es[0] in es;
      var s1 := Apply(s, es[0]).value;
      MoveTotal(s, es[0].t, s1);
      SchedulesEnd(s1, es[1..], f);
    }
  }

  /** About to take stateLock for reading, and for writing. */
  predicate WantsRead(pc: PC) {
    pc.RegWant? || pc.CondWant? || pc.AddWant?
  }

  predicate WantsWrite(pc: PC) {
    pc.CondWantWrite? || pc.SetWant?
  }

  /** No goroutine can take a step, or only one that takes stateLock for reading while another waits to
      write, which a waiting writer keeps out. */
  ghost predicate Stuck(s: Server) {
    forall t | t in s.threads ::
      Advance(s, t) == None || (WantsRead(s.threads[t]) && exists u | u in s.threads :: WantsWrite(s.threads[u]))
  }

  lemma CanMove(s: Server, t: Tid)
    requires t in s.threads && s.threads[t] != Done
    requires Counting(s.threads[t]) || Writing(s.threads[t])
             || (s.countLock == None && (Reading(s.threads[t]) || (s.writer == None && s.readers == {})))
    ensures Advance(s, t) != None
  {
  }

  lemma HoldersWantNothing(pc: PC)
    ensures Counting(pc) || Writing(pc) || Reading(pc) || WantsWrite(pc) ==> !WantsRead(pc) && pc != Done
  {
  }

  /** No deadlock, whether or not waiting writers keep readers out: as long as some goroutine is not done, one
      of them can take a step. */
  lemma NoDeadlock(s: Server)
    requires Inv(s) && Stuck(s)
    ensures forall t | t in s.threads :: s.threads[t] == Done
  {
    hide Advance, Counting, Writing, Reading;
    if s.countLock.Some? {
      HoldersWantNothing(s.threads[s.countLock.value]);
      CanMove(s, s.countLock.value);
    } else if s.writer.Some? {
      HoldersWantNothing(s.threads[s.writer.value]);
      CanMove(s, s.writer.value);
    } else if s.readers != {} {
      var t :| t in s.readers;
      HoldersWantNothing(s.threads[t]);
      CanMove(s, t);
    } else if u :| u in s.threads && WantsWrite(s.threads[u]) {
      CanMove(s, u);
    } else {
      forall t | t in s.threads
        ensures s.threads[t] == Done
      {
        if s.threads[t] != Done {
          CanMove(s, t);
        }
      }
    }
  }

  /** Nobody is about to set the state. */
  ghost predicate NoSetter(s: Server) {
    forall t | t in s.threads :: !s.threads[t].SetWant? && !s.threads[t].SetWrite?
  }

  lemma MoveNoSetter(s: Server, t: Tid, s': Server)
    requires t in s.threads && Advance(s, t) == Some(s') && !s.threads[t].SetWant? && !s.threads[t].SetWrite?
    ensures s'.threads == s.threads[t := s'.threads[t]]
    ensures !s'.threads[t].SetWant? && !s'.threads[t].SetWrite?
  {
  }

  lemma {:induction false} NoSetterNothingSet(s: Server, es: seq<Event>, f: Server)
    requires NoSetter(s) && AllMoves(es) && Exec(s, es) == Some(f)
    ensures NothingSet(s, es)
    decreases |es|
  {
    hide Advance;
    if es != [] {
      assert es[0] in es;
      var s1 := Apply(s, es[0]).value;
      MoveNoSetter(s, es[0].t, s1);
      NoSetterNothingSet(s1, es[1..], f);
    }
  }

  /** Orderly shutdown under every schedule, of a lock that lets readers pass waiting writers or of one that
      does not. From a Closing server where nobody is about to call Open or Close again, let the goroutines
      run in any order until none can: everyone finishes, and the server
      is Closed if a connection was left, or one was just departing, at the start; else it stays Closing. */
  lemma EveryScheduleShutsDown(s: Server, es: seq<Event>, f: Server)
    requires Inv(s) && s.phase == Closing && NoSetter(s)
    requires AllMoves(es) && Exec(s, es) == Some(f) && Stuck(f)
    ensures |es| <= Total(s.threads, Rank)
    ensures forall t | t in f.threads :: f.threads[t] == Done
    ensures f.phase == if Live(s) then Closed else Closing
  {
    SchedulesEnd(s, es, f);
    RunInv(s, es, f);
    NoDeadlock(f);
    NoSetterNothingSet(s, es, f);
    assert Drained(f);
    ShutdownIff(s, es, f);
  }

  // ---------------------------------------------------------------- what is not guaranteed

  lemma {:induction false} ExecAppend(s: Server, es: seq<Event>, m: Server, fs: seq<Event>)
    requires Exec(s, es) == Some(m)
    ensures Exec(s, es + fs) == Exec(m, fs)
    decreases |es|
  {
    hide Apply;
    if es == [] {
      assert es + fs == fs;
    } else {
      assert (es + fs)[0] == es[0] && (es + fs)[1..] == es[1..] + fs;
      ExecAppend(Apply(s, es[0]).value, es[1..], m, fs);
    }
  }

  function Again(t: Tid, n: nat): seq<Event> {
    if n == 0 then [] else [Move(t)] + Again(t, n - 1)
  }

  /** Goroutine t takes n steps in a row. */
  function Go(s: Server, t: Tid, n: nat): Option<Server>
    decreases n
  {
    if n == 0 then Some(s)
    else if t !in s.threads then None
    else match Advance(s, t) case None => None case Some(s1) => Go(s1, t, n - 1)
  }

  lemma {:induction false} GoRuns(s: Server, t: Tid, n: nat)
    ensures Exec(s, Again(t, n)) == Go(s, t, n)
    decreases n
  {
    hide Advance;
    if n > 0 && t in s.threads && Advance(s, t) != None {
      GoRuns(Advance(s, t).value, t, n - 1);
    }
  }

  lemma SpawnRuns(s: Server, t: Tid, op: Op, n: nat)
    requires t !in s.threads && op != ChangeState(Closed)
    ensures Exec(s, [Spawn(t, op)] + Again(t, n)) == Go(s.At(t, Start(op)), t, n)
  {
    hide Advance;
    assert ([Spawn(t, op)] + Again(t, n))[1..] == Again(t, n);
    GoRuns(s.At(t, Start(op)), t, n);
  }

  /** One step of Go, by the function the goroutine is in. */
  lemma GoRegister(s: Server, t: Tid, n: nat, pc: PC, s1: Server)
    requires n > 0 && t in s.threads && s.threads[t] == pc && InRegister(pc) && Register(s, t, pc) == Some(s1)
    ensures Go(s, t, n) == Go(s1, t, n - 1)
  {
    hide Register, Deregister, ChangeIf, Other;
  }

  lemma GoDeregister(s: Server, t: Tid, n: nat, pc: PC, s1: Server)
    requires n > 0 && t in s.threads && s.threads[t] == pc && InDeregister(pc) && Deregister(s, t, pc) == Some(s1)
    ensures Go(s, t, n) == Go(s1, t, n - 1)
  {
    hide Register, Deregister, ChangeIf, Other;
  }

  lemma GoChangeIf(s: Server, t: Tid, n: nat, pc: PC, s1: Server)
    requires n > 0 && t in s.threads && s.threads[t] == pc && InChangeIf(pc) && ChangeIf(s, t, pc) == Some(s1)
    ensures Go(s, t, n) == Go(s1, t, n - 1)
  {
    hide Register, Deregister, ChangeIf, Other;
  }

  lemma GoOther(s: Server, t: Tid, n: nat, pc: PC, s1: Server)
    requires n > 0 && t in s.threads && s.threads[t] == pc && InOther(pc) && Other(s, t, pc) == Some(s1)
    ensures Go(s, t, n) == Go(s1, t, n - 1)
  {
    hide Register, Deregister, ChangeIf, Other;
  }

  /** Goroutine t calls Open or Close on a server nobody has locked. */
  lemma CallSet(s: Server, t: Tid, to: Phase)
    requires t !in s.threads && to != Closed && s.writer == None && s.readers == {}
    ensures Exec(s, [Spawn(t, ChangeState(to))] + Again(t, 3)) == Some(Write(s, to).At(t, Done))
  {
    hide Advance, Exec, Go, Write;
    SpawnRuns(s, t, ChangeState(to), 3);
    SetSteps(s, t, to);
  }

  lemma SetSteps(s: Server, t: Tid, to: Phase)
    requires s.writer == None && s.readers == {}
    ensures Go(s.At(t, SetWant(to)), t, 3) == Some(Write(s, to).At(t, Done))
  {
    hide Advance, Go, Write;
    var s0 := s.At(t, SetWant(to));
    var s1 := Lock(s0, t, SetWrite(to)).value;
    var s2 := Write(s1, to).At(t, SetUnlock);
    var s3 := Unlock(s2, t, Done).value;
    GoOther(s0, t, 3, SetWant(to), s1);
    GoOther(s1, t, 2, SetWrite(to), s2);
    GoOther(s2, t, 1, SetUnlock, s3);
    WriteUnderLock(s, t, SetWant(to), SetWrite(to), SetUnlock, to);
    Go0(s3, t);
  }

  lemma Go0(s: Server, t: Tid)
    ensures Go(s, t, 0) == Some(s)
  {
  }

  /** Goroutine t registers a connection with an open server nobody has locked. */
  lemma CallConnect(s: Server, t: Tid)
    requires t !in s.threads && s.phase == Open && s.writer == None && s.readers == {} && s.countLock == None
    ensures Exec(s, [Spawn(t, HandleConnection)] + Again(t, 6)) ==
            Some(s.(connections := s.connections + 1).At(t, Serving))
  {
    hide Advance, Exec, Go;
    SpawnRuns(s, t, HandleConnection, 6);
    var s0 := s.At(t, RegWant);
    var s1 := RLock(s0, t, RegCheck).value;
    var s2 := s1.At(t, RegLock);
    var s3 := LockCount(s2, t, RegInc).value;
    var s4 := s3.(connections := s.connections + 1).At(t, RegUnlock);
    var s5 := UnlockCount(s4, t, RegRUnlock).value;
    var s6 := RUnlock(s5, t, Serving).value;
    GoRegister(s0, t, 6, RegWant, s1);
    GoRegister(s1, t, 5, RegCheck, s2);
    GoRegister(s2, t, 4, RegLock, s3);
    GoRegister(s3, t, 3, RegInc, s4);
    GoRegister(s4, t, 2, RegUnlock, s5);
    GoRegister(s5, t, 1, RegRUnlock, s6);
    assert s6.threads == s.threads[t := Serving] && s6.readers == {};
    Go0(s6, t);
  }

  /** The last connection's goroutine uncounts itself and reads zero, but goes no further yet. */
  lemma CallReadZero(s: Server, t: Tid)
    requires t in s.threads && s.threads[t] == Serving && s.countLock == None && s.connections == 1
    ensures Exec(s, Again(t, 4)) == Some(s.(connections := 0).At(t, CondWant(s.epoch)))
  {
    hide Advance, Exec, Go;
    GoRuns(s, t, 4);
    var s1 := LockCount(s, t, DerDec).value;
    var s2 := s1.(connections := 0).At(t, DerUnlock);
    var s3 := UnlockCount(s2, t, DerRead).value;
    var s4 := s3.At(t, CondWant(s.epoch));
    GoDeregister(s, t, 4, Serving, s1);
    GoDeregister(s1, t, 3, DerDec, s2);
    GoDeregister(s2, t, 2, DerUnlock, s3);
    GoDeregister(s3, t, 1, DerRead, s4);
    assert s4.threads == s.threads[t := CondWant(s.epoch)];
    Go0(s4, t);
  }

  /** It goes on in a Closing server. */
  lemma CallClosed(s: Server, t: Tid, z: nat)
    requires t in s.threads && s.threads[t] == CondWant(z) && s.phase == Closing && s.writer == None && s.readers == {}
    ensures Exec(s, Again(t, 6)) == Some(Write(s, Closed).At(t, Done))
  {
    hide Advance, Exec, Go;
    GoRuns(s, t, 6);
    var s1 := RLock(s, t, CondCheck(z)).value;
    var s2 := s1.At(t, CondRelease(z));
    var s3 := RUnlock(s2, t, CondWantWrite(z)).value;
    GoChangeIf(s, t, 6, CondWant(z), s1);
    GoChangeIf(s1, t, 5, CondCheck(z), s2);
    GoChangeIf(s2, t, 4, CondRelease(z), s3);
    assert s3.threads == s.At(t, CondWantWrite(z)).threads && s3.readers == {};
    CallWriteClosed(s, t, z);
  }

  lemma CallWriteClosed(s: Server, t: Tid, z: nat)
    requires t in s.threads && s.phase == Closing && s.writer == None && s.readers == {}
    ensures Go(s.At(t, CondWantWrite(z)), t, 3) == Some(Write(s, Closed).At(t, Done))
  {
    hide Advance, Go, Write;
    var s3 := s.At(t, CondWantWrite(z));
    var s4 := Lock(s3, t, CondWrite(z)).value;
    var s5 := Write(s4, Closed).At(t, CondUnlock);
    var s6 := Unlock(s5, t, Done).value;
    GoChangeIf(s3, t, 3, CondWantWrite(z), s4);
    GoChangeIf(s4, t, 2, CondWrite(z), s5);
    GoChangeIf(s5, t, 1, CondUnlock, s6);
    WriteUnderLock(s, t, CondWantWrite(z), CondWrite(z), CondUnlock, Closed);
    Go0(s6, t);
  }

  lemma WriteUnderLock(s: Server, t: Tid, a: PC, b: PC, c: PC, to: Phase)
    requires s.writer == None && s.readers == {}
    ensures var s1 := Lock(s.At(t, a), t, b).value;
            Unlock(Write(s1, to).At(t, c), t, Done) == Some(Write(s, to).At(t, Done))
  {
    var s1 := Lock(s.At(t, a), t, b).value;
    assert Write(s1, to).At(t, c).At(t, Done).threads == s.threads[t := Done];
  }

  /** A Closed server can have a connection: 1 serves and reads zero while the server is open, 2
      registers, 3 closes the server, and only then 1 goes on, on its stale reading. */
  lemma ClosedWithAConnection() returns (es: seq<Event>, f: Server)
    ensures Exec(INITIAL, es) == Some(f)
    ensures f.phase == Closed && f.connections == 1 && 2 in f.threads && f.threads[2] == Serving
  {
    hide Apply;
    CallSet(INITIAL, 0, Open);
    var s1 := Write(INITIAL, Open).At(0, Done);
    CallConnect(s1, 1);
    var s2 := s1.(connections := 1).At(1, Serving);
    CallReadZero(s2, 1);
    var s3 := s2.(connections := 0).At(1, CondWant(s2.epoch));
    CallConnect(s3, 2);
    var s4 := s3.(connections := 1).At(2, Serving);
    CallSet(s4, 3, Closing);
    var s5 := Write(s4, Closing).At(3, Done);
    CallClosed(s5, 1, s2.epoch);
    f := Write(s5, Closed).At(1, Done);
    var es1 := [Spawn(0, ChangeState(Open))] + Again(0, 3);
    var es2 := es1 + ([Spawn(1, HandleConnection)] + Again(1, 6));
    var es3 := es2 + Again(1, 4);
    var es4 := es3 + ([Spawn(2, HandleConnection)] + Again(2, 6));
    var es5 := es4 + ([Spawn(3, ChangeState(Closing))] + Again(3, 3));
    es := es5 + Again(1, 6);
    ExecAppend(INITIAL, es1, s1, [Spawn(1, HandleConnection)] + Again(1, 6));
    ExecAppend(INITIAL, es2, s2, Again(1, 4));
    ExecAppend(INITIAL, es3, s3, [Spawn(2, HandleConnection)] + Again(2, 6));
    ExecAppend(INITIAL, es4, s4, [Spawn(3, ChangeState(Closing))] + Again(3, 3));
    ExecAppend(INITIAL, es5, s5, Again(1, 6));
  }

  /** About to try the change to Closed, with no lock held. */
  predicate OnTheWay(pc: PC) {
    pc.CondWant? || pc.CondWantWrite?
  }

  /** In changeStateIf, before it has tried to write. */
  predicate Trying(pc: PC) {
    pc.CondWant? || pc.CondCheck? || pc.CondRelease? || pc.CondWantWrite? || pc.CondWrite?
  }

  ghost predicate NobodyTrying(s: Server) {
    forall t | t in s.threads :: !Trying(s.threads[t])
  }

  /** Nobody starts trying while a connection is left, and only those trying write Closed. */
  lemma MoveTrying(s: Server, t: Tid, s': Server)
    requires t in s.threads && Advance(s, t) == Some(s') && !Trying(s.threads[t]) && s.connections > 0
    ensures s'.threads == s.threads[t := s'.threads[t]] && !Trying(s'.threads[t])
    ensures s'.phase == s.phase || (s.threads[t].SetWrite? && s'.phase == s.threads[t].to)
  {
  }

  lemma StillClosing(s: Server, e: Event, s1: Server)
    requires Inv(s) && Apply(s, e) == Some(s1) && s1.epoch == s.epoch
    requires s.phase == Closing && s.connections > 0 && NobodyTrying(s)
    ensures s1.phase == Closing && NobodyTrying(s1)
  {
    if e.Move? {
      hide Advance, Apply;
      assert Advance(s, e.t) == Some(s1) by { MoveIsAdvance(s, e.t); }
      MoveTrying(s, e.t, s1);
      StepEffect(s, e, s1);
      assert Stable(s, s.threads[e.t]);
    }
  }

  lemma MoveIsAdvance(s: Server, t: Tid)
    ensures Apply(s, Move(t)) == if t in s.threads then Advance(s, t) else None
  {
  }

  /** With a connection left and nobody trying, a Closing server does not get Closed with a connection. */
  lemma {:induction false} NobodyClosesBusy(s: Server, es: seq<Event>, f: Server)
    requires Inv(s) && s.phase == Closing && NobodyTrying(s)
    requires Exec(s, es) == Some(f) && f.epoch == s.epoch
    ensures f.phase != Closed || f.connections == 0
    decreases |es|
  {
    hide Inv, Apply, NobodyTrying;
    CountsNonNegative(s);
    if s.connections == 0 {
      ZeroUntilOpen(s, es, f);
    } else if es != [] {
      var s1 := Apply(s, es[0]).value;
      StepInv(s, es[0], s1);
      EpochStep(s, es[0], s1);
      EpochGrows(s1, es[1..], f);
      StillClosing(s, es[0], s1);
      NobodyClosesBusy(s1, es[1..], f);
    }
  }

  /** Goroutine t, on the way, goes through with it. */
  lemma GoesThrough(s: Server, t: Tid) returns (es: seq<Event>)
    requires t in s.threads && OnTheWay(s.threads[t]) && s.phase == Closing && s.writer == None && s.readers == {}
    ensures Exec(s, es) == Some(Write(s, Closed).At(t, Done))
  {
    hide Exec, Go;
    var z := s.threads[t].seen;
    if s.threads[t].CondWant? {
      es := Again(t, 6);
      CallClosed(s, t, z);
    } else {
      es := Again(t, 3);
      CallWriteClosed(s, t, z);
      GoRuns(s, t, 3);
      assert s.At(t, CondWantWrite(z)) == s;
    }
  }

  /** The write lock is held to open the server. */
  ghost predicate Opening(s: Server) {
    exists t | t in s.threads :: s.threads[t] == SetWrite(Open)
  }

  /** Whoever holds stateLock in a Closing server, unless to open it, steps on; nobody trying stops trying
      except by writing Closed. */
  lemma HolderSteps(s: Server, t: Tid)
    requires t in s.threads && s.phase == Closing && Stable(s, s.threads[t])
    requires Reading(s.threads[t]) || (Writing(s.threads[t]) && !s.threads[t].SetWrite? && !s.threads[t].CondWrite?)
             || s.threads[t] == SetWrite(Closing)
    ensures var s1 := Advance(s, t);
            && s1.Some? && s1.value.threads == s.threads[t := s1.value.threads[t]]
            && s1.value.phase == Closing && s1.value.epoch == s.epoch && s1.value.connections == s.connections
            && (Trying(s.threads[t]) ==> Trying(s1.value.threads[t])) && s1.value.threads[t] != SetWrite(Open)
  {
  }

  lemma CondWriteCloses(s: Server, t: Tid)
    requires t in s.threads && s.phase == Closing && s.threads[t].CondWrite?
    ensures var s1 := Advance(s, t);
            s1.Some? && s1.value.phase == Closed && s1.value.epoch == s.epoch && s1.value.connections == s.connections
  {
  }

  lemma ExecCons(s: Server, t: Tid, s1: Server, es: seq<Event>)
    requires t in s.threads && Advance(s, t) == Some(s1)
    ensures Exec(s, [Move(t)] + es) == Exec(s1, es)
  {
    hide Advance;
    assert ([Move(t)] + es)[1..] == es;
  }

  /** Someone trying, with nobody opening the server: holders let go one after the other, and it is Closed. */
  lemma {:induction false} TryingCloses(s: Server, u: Tid) returns (es: seq<Event>, f: Server)
    requires Inv(s) && s.phase == Closing && !Opening(s) && u in s.threads && Trying(s.threads[u])
    ensures Exec(s, es) == Some(f) && f.epoch == s.epoch && f.phase == Closed && f.connections == s.connections
    decreases Total(s.threads, Rank)
  {
    hide Exec, Advance, Stable, Trying, Reading, Writing;
    if s.writer == None && s.readers == {} {
      OnTheWayIfFree(s, u);
      es := GoesThrough(s, u);
      f := Write(s, Closed).At(u, Done);
    } else {
      var t := Holder(s);
      if s.threads[t].CondWrite? {
        CondWriteCloses(s, t);
        f := Advance(s, t).value;
        es := [Move(t)] + [];
        ExecCons(s, t, f, []);
        ExecNone(f);
      } else {
        HolderSteps(s, t);
        var s1 := Advance(s, t).value;
        MoveIsAdvance(s, t);
        StepInv(s, Move(t), s1);
        MoveTotal(s, t, s1);
        assert !Opening(s1);
        var more;
        more, f := TryingCloses(s1, u);
        es := [Move(t)] + more;
        ExecCons(s, t, s1, more);
      }
    }
  }

  lemma ExecNone(s: Server)
    ensures Exec(s, []) == Some(s)
  {
  }

  lemma OnTheWayIfFree(s: Server, u: Tid)
    requires LocksHeld(s) && s.writer == None && s.readers == {} && u in s.threads && Trying(s.threads[u])
    ensures OnTheWay(s.threads[u])
  {
    assert u !in s.readers;
    assert !Reading(s.threads[u]) && !Writing(s.threads[u]);
  }

  /** Somebody who holds stateLock. */
  lemma Holder(s: Server) returns (t: Tid)
    requires Inv(s) && s.phase == Closing && !Opening(s) && (s.writer != None || s.readers != {})
    ensures t in s.threads && Stable(s, s.threads[t])
    ensures Reading(s.threads[t]) || Writing(s.threads[t])
    ensures s.threads[t].SetWrite? ==> s.threads[t] == SetWrite(Closing)
  {
    if s.writer != None {
      t := s.writer.value;
      SetsOpenOrClosing(s, t);
    } else {
      t :| t in s.readers;
    }
  }

  lemma SetsOpenOrClosing(s: Server, t: Tid)
    requires t in s.threads && Stable(s, s.threads[t]) && !Opening(s)
    ensures s.threads[t].SetWrite? ==> s.threads[t] == SetWrite(Closing)
  {
  }

  /** While someone holds the write lock to open the server, it does not become Closed in this period. */
  lemma {:induction false} OpeningBlocks(s: Server, w: Tid, es: seq<Event>, f: Server)
    requires Inv(s) && s.phase == Closing && w in s.threads && s.threads[w] == SetWrite(Open)
    requires Exec(s, es) == Some(f) && f.epoch == s.epoch
    ensures f.phase == Closing
    decreases |es|
  {
    hide Inv, Apply;
    if es != [] {
      var s1 := Apply(s, es[0]).value;
      StepInv(s, es[0], s1);
      EpochStep(s, es[0], s1);
      EpochGrows(s1, es[1..], f);
      OpeningStays(s, w, es[0], s1);
      OpeningBlocks(s1, w, es[1..], f);
    }
  }

  lemma OpeningStays(s: Server, w: Tid, e: Event, s1: Server)
    requires Inv(s) && s.phase == Closing && w in s.threads && s.threads[w] == SetWrite(Open)
    requires Apply(s, e) == Some(s1) && s1.epoch == s.epoch
    ensures s1.phase == Closing && w in s1.threads && s1.threads[w] == SetWrite(Open)
  {
    hide Apply, Advance;
    StepEffect(s, e, s1);
    if e.t == w {
      OpenerOpens(s, w, e, s1);
    } else {
      assert e.t in s.threads ==> !Writing(s.threads[e.t]);
    }
  }

  lemma OpenerOpens(s: Server, w: Tid, e: Event, s1: Server)
    requires s.phase == Closing && w in s.threads && s.threads[w] == SetWrite(Open)
    requires e.t == w && Apply(s, e) == Some(s1)
    ensures s1.epoch != s.epoch
  {
  }

  /** A Closing server can still become Closed with a connection left, before it is opened again, exactly if
      one is left, some goroutine is trying the change with the zero it once read, and none holds the lock
      to open the server. */
  lemma ClosesBusyIff(s: Server)
    requires Inv(s) && s.phase == Closing
    ensures (exists es, f :: Exec(s, es) == Some(f) && f.epoch == s.epoch && f.phase == Closed && f.connections > 0)
            <==> s.connections > 0 && !NobodyTrying(s) && !Opening(s)
  {
    hide Exec, Stable, Trying;
    forall es, f | Exec(s, es) == Some(f) && f.epoch == s.epoch && f.phase == Closed && f.connections > 0
      ensures s.connections > 0 && !NobodyTrying(s) && !Opening(s)
    {
      CountsNonNegative(s);
      if s.connections == 0 {
        ZeroUntilOpen(s, es, f);
      }
      if NobodyTrying(s) {
        NobodyClosesBusy(s, es, f);
      }
      if Opening(s) {
        var w :| w in s.threads && s.threads[w] == SetWrite(Open);
        OpeningBlocks(s, w, es, f);
      }
    }
    if s.connections > 0 && !NobodyTrying(s) && !Opening(s) {
      var u :| u in s.threads && Trying(s.threads[u]);
      var es, f := TryingCloses(s, u);
    }
  }

  /** Closing an idle server loses the shutdown: nothing is under way, so whatever the goroutines do
      short of another Open or Close, it stays Closing. */
  lemma IdleCloseIsStuck(s: Server, t: Tid, es: seq<Event>, f: Server)
    requires Inv(s) && t !in s.threads && s.writer == None && s.readers == {} && !Live(s)
    requires var closed := Write(s, Closing).At(t, Done);
             Exec(closed, es) == Some(f) && NothingSet(closed, es) && Drained(f)
    ensures f.phase == Closing
  {
    var closed := Write(s, Closing).At(t, Done);
    var es0 := [Spawn(t, ChangeState(Closing))] + Again(t, 3);
    CallSet(s, t, Closing);
    RunInv(s, es0, closed);
    assert !Live(closed) by {
      DepartingNotDone();
      assert forall u | u in closed.threads && u != t :: closed.threads[u] == s.threads[u];
    }
    ShutdownIff(closed, es, f);
  }
}
