/** The server's open/closing/closed protocol: goroutines registering and deregistering connections,
    opening and closing the server, and adding handlers, interleaved at every lock operation and every
    access to the shared fields. */
module ServerState {
  import opened Strconv

  type Tid = nat

  datatype Phase = Closed | Closing | Open

  /** What a goroutine is called to do. */
  datatype Op = HandleConnection | ChangeState(to: Phase) | AddHandler(h: nat)

  /** Where a goroutine stands. The Cond steps are changeStateIf(Closing, Closed); `seen` is the epoch
      in which the goroutine read that no connections were left. */
  datatype PC =
    | RegWant                    // about to take stateLock for reading
    | RegCheck                   // holds it, about to look at the state
    | RegReject                  // saw another state than Open
    | RegLock                    // saw Open, about to take connectionsLock
    | RegInc                     // holds connectionsLock
    | RegUnlock                  // has counted itself
    | RegRUnlock                 // has let go of connectionsLock
    | Serving                    // runs the handler
    | DerDec                     // holds connectionsLock
    | DerUnlock                  // has uncounted itself
    | DerRead                    // about to look at connections, without a lock
    | CondWant(seen: nat)        // about to take stateLock for reading
    | CondCheck(seen: nat)       // holds it
    | CondRelease(seen: nat)     // saw Closing
    | CondGiveUp                 // saw another state
    | CondWantWrite(seen: nat)   // about to take stateLock for writing
    | CondWrite(seen: nat)       // holds it, about to look again
    | CondUnlock
    | SetWant(to: Phase)         // changeState: about to take stateLock for writing
    | SetWrite(to: Phase)        // holds it
    | SetUnlock
    | AddWant(h: nat)            // AddHandler: about to take stateLock for reading
    | AddCheck(h: nat)           // holds it
    | AddInsert(h: nat)          // saw Closed
    | AddRUnlock
    | Done

  predicate Reading(pc: PC) {
    match pc
    case RegCheck | RegReject | RegLock | RegInc | RegUnlock | RegRUnlock => true
    case CondCheck(_) | CondRelease(_) | CondGiveUp => true
    case AddCheck(_) | AddInsert(_) | AddRUnlock => true
    case _ => false
  }

  predicate Writing(pc: PC) {
    pc.CondWrite? || pc.CondUnlock? || pc.SetWrite? || pc.SetUnlock?
  }

  predicate Counting(pc: PC) {
    pc.RegInc? || pc.RegUnlock? || pc.DerDec? || pc.DerUnlock?
  }

  /** Between its increment and its decrement. */
  predicate Counted(pc: PC) {
    pc.RegUnlock? || pc.RegRUnlock? || pc.Serving? || pc.DerDec?
  }

  /** Between its decrement and its attempt to write Closed. */
  predicate Departing(pc: PC) {
    match pc
    case DerUnlock | DerRead => true
    case CondWant(_) | CondCheck(_) | CondRelease(_) | CondWantWrite(_) | CondWrite(_) => true
    case _ => false
  }

  /** The shared fields, the two locks, and every goroutine there has been. `epoch` counts how often the
      server has become open or ceased to be; no code reads it. */
  datatype Server = Server(
    phase: Phase,
    readers: set<Tid>, writer: Option<Tid>,
    connections: int, countLock: Option<Tid>,
    handlers: seq<nat>,
    threads: map<Tid, PC>,
    epoch: nat)
  {
    function At(t: Tid, pc: PC): Server {
      this.(threads := threads[t := pc])
    }
  }

  const INITIAL := Server(Closed, {}, None, 0, None, [], map[], 0)

  datatype Event = Spawn(t: Tid, op: Op) | Move(t: Tid)

  function Write(s: Server, to: Phase): Server {
    s.(phase := to, epoch := if (s.phase == Open) != (to == Open) then s.epoch + 1 else s.epoch)
  }

  /** stateLock.RLock, RUnlock, Lock and Unlock by goroutine t, which then stands at pc. */
  function RLock(s: Server, t: Tid, pc: PC): Option<Server> {
    if s.writer == None then Some(s.(readers := s.readers + {t}).At(t, pc)) else None
  }

  function RUnlock(s: Server, t: Tid, pc: PC): Option<Server> {
    Some(s.(readers := s.readers - {t}).At(t, pc))
  }

  function Lock(s: Server, t: Tid, pc: PC): Option<Server> {
    if s.writer == None && s.readers == {} then Some(s.(writer := Some(t)).At(t, pc)) else None
  }

  function Unlock(s: Server, t: Tid, pc: PC): Option<Server> {
    Some(s.(writer := None).At(t, pc))
  }

  function LockCount(s: Server, t: Tid, pc: PC): Option<Server> {
    if s.countLock == None then Some(s.(countLock := Some(t)).At(t, pc)) else None
  }

  function UnlockCount(s: Server, t: Tid, pc: PC): Option<Server> {
    Some(s.(countLock := None).At(t, pc))
  }

  predicate InRegister(pc: PC) {
    match pc
    case RegWant | RegCheck | RegReject | RegLock | RegInc | RegUnlock | RegRUnlock => true
    case _ => false
  }

  /** registerConnection, and the start of HandleStream. */
  function Register(s: Server, t: Tid, pc: PC): Option<Server>
    requires InRegister(pc)
  {
    match pc
    case RegWant => RLock(s, t, RegCheck)
    case RegCheck => Some(s.At(t, if s.phase == Open then RegLock else RegReject))
    case RegReject => RUnlock(s, t, Done)
    case RegLock => LockCount(s, t, RegInc)
    case RegInc => Some(s.(connections := s.connections + 1).At(t, RegUnlock))
    case RegUnlock => UnlockCount(s, t, RegRUnlock)
    case RegRUnlock => RUnlock(s, t, Serving)
  }

  predicate InDeregister(pc: PC) {
    pc.Serving? || pc.DerDec? || pc.DerUnlock? || pc.DerRead?
  }

  /** deregisterConnection, and the end of HandleStream. */
  function Deregister(s: Server, t: Tid, pc: PC): Option<Server>
    requires InDeregister(pc)
  {
    match pc
    case Serving => LockCount(s, t, DerDec)
    case DerDec => Some(s.(connections := s.connections - 1).At(t, DerUnlock))
    case DerUnlock => UnlockCount(s, t, DerRead)
    case DerRead => Some(s.At(t, if s.connections == 0 then CondWant(s.epoch) else Done))
  }

  predicate InChangeIf(pc: PC) {
    match pc
    case CondWant(_) | CondCheck(_) | CondRelease(_) | CondGiveUp | CondWantWrite(_) | CondWrite(_) | CondUnlock => true
    case _ => false
  }

  /** changeStateIf(StateClosing, StateClosed). */
  function ChangeIf(s: Server, t: Tid, pc: PC): Option<Server>
    requires InChangeIf(pc)
  {
    match pc
    case CondWant(z) => RLock(s, t, CondCheck(z))
    case CondCheck(z) => Some(s.At(t, if s.phase == Closing then CondRelease(z) else CondGiveUp))
    case CondRelease(z) => RUnlock(s, t, CondWantWrite(z))
    case CondGiveUp => RUnlock(s, t, Done)
    case CondWantWrite(z) => Lock(s, t, CondWrite(z))
    case CondWrite(z) => Some((if s.phase == Closing then Write(s, Closed) else s).At(t, CondUnlock))
    case CondUnlock => Unlock(s, t, Done)
  }

  predicate InOther(pc: PC) {
    match pc
    case SetWant(_) | SetWrite(_) | SetUnlock | AddWant(_) | AddCheck(_) | AddInsert(_) | AddRUnlock => true
    case _ => false
  }

  /** changeState (Open and Close), and the Add*Handler methods. */
  function Other(s: Server, t: Tid, pc: PC): Option<Server>
    requires InOther(pc)
  {
    match pc
    case SetWant(to) => Lock(s, t, SetWrite(to))
    case SetWrite(to) => Some(Write(s, to).At(t, SetUnlock))
    case SetUnlock => Unlock(s, t, Done)
    case AddWant(h) => RLock(s, t, AddCheck(h))
    case AddCheck(h) => Some(s.At(t, if s.phase == Closed then AddInsert(h) else AddRUnlock))
    case AddInsert(h) => Some(s.(handlers := s.handlers + [h]).At(t, AddRUnlock))
    case AddRUnlock => RUnlock(s, t, Done)
  }

  /** The next step of goroutine t, if no lock keeps it from taking it. */
  function Advance(s: Server, t: Tid): Option<Server>
    requires t in s.threads
  {
    var pc := s.threads[t];
    if InRegister(pc) then Register(s, t, pc)
    else if InDeregister(pc) then Deregister(s, t, pc)
    else if InChangeIf(pc) then ChangeIf(s, t, pc)
    else if InOther(pc) then Other(s, t, pc)
    else None
  }

  function Start(op: Op): PC {
    match op
    case HandleConnection => RegWant
    case ChangeState(to) => SetWant(to)
    case AddHandler(h) => AddWant(h)
  }

  function Apply(s: Server, e: Event): Option<Server> {
    match e
    case Spawn(t, op) =>
      if t in s.threads || op == ChangeState(Closed) then None else Some(s.At(t, Start(op)))
    case Move(t) => if t in s.threads then Advance(s, t) else None
  }

  /** A run: the state after all the events, if each of them can happen in turn. */
  function Exec(s: Server, es: seq<Event>): Option<Server>
    decreases |es|
  {
    if es == [] then Some(s)
    else match Apply(s, es[0]) case None => None case Some(s1) => Exec(s1, es[1..])
  }

  // ---------------------------------------------------------------- the invariant

  ghost predicate LocksHeld(s: Server) {
    && s.readers == (set t | t in s.threads && Reading(s.threads[t]))
    && (forall t | t in s.threads :: Writing(s.threads[t]) <==> s.writer == Some(t))
    && (forall t | t in s.threads :: Counting(s.threads[t]) <==> s.countLock == Some(t))
    && (s.writer.Some? ==> s.writer.value in s.threads && s.readers == {})
    && (s.countLock.Some? ==> s.countLock.value in s.threads)
  }

  function InFlight(s: Server): set<Tid> {
    set t | t in s.threads && Counted(s.threads[t])
  }

  /** What goroutine at `pc` relies on others not to change. */
  ghost predicate Stable(s: Server, pc: PC) {
    match pc
    case RegLock | RegInc | RegUnlock | RegRUnlock => s.phase == Open
    case CondRelease(z) => s.phase == Closing && Fresh(s, z)
    case CondWant(z) => Fresh(s, z)
    case CondCheck(z) => Fresh(s, z)
    case CondWantWrite(z) => Fresh(s, z)
    case CondWrite(z) => Fresh(s, z)
    case AddInsert(_) => s.phase == Closed
    case SetWant(to) => to != Closed
    case SetWrite(to) => to != Closed
    case _ => true
  }

  /** Having read zero in the epoch that still lasts, and not Open, still means zero. */
  ghost predicate Fresh(s: Server, seen: nat) {
    seen <= s.epoch && (seen == s.epoch && s.phase != Open ==> s.connections == 0)
  }

  ghost predicate Inv(s: Server) {
    && LocksHeld(s)
    && s.connections == |InFlight(s)|
    && forall t | t in s.threads :: Stable(s, s.threads[t])
  }

  lemma InitialInv()
    ensures Inv(INITIAL)
  {
    assert InFlight(INITIAL) == {};
  }

  function PcOf(s: Server, t: Tid): PC {
    if t in s.threads then s.threads[t] else Done
  }

  /** What one step of goroutine t, from `pc` to `pc'`, does to locks, counter and state. */
  ghost predicate Effect(s: Server, t: Tid, pc: PC, pc': PC, s': Server) {
    && s'.threads == s.threads[t := pc']
    && (forall u :: u in s'.readers <==> if u == t then Reading(pc') else u in s.readers)
    && s'.writer == (if Writing(pc') then Some(t) else if Writing(pc) then None else s.writer)
    && s'.countLock == (if Counting(pc') then Some(t) else if Counting(pc) then None else s.countLock)
    && s'.connections == s.connections + (if Counted(pc') then 1 else 0) - (if Counted(pc) then 1 else 0)
    && (Reading(pc') && !Reading(pc) ==> s.writer == None)
    && (Writing(pc') && !Writing(pc) ==> s.writer == None && s.readers == {})
    && (Counting(pc') && !Counting(pc) ==> s.countLock == None)
    && (s'.phase != s.phase || s'.epoch != s.epoch ==> Writing(pc))
    && (s'.epoch == if (s.phase == Open) != (s'.phase == Open) then s.epoch + 1 else s.epoch)
    && (s'.connections > s.connections ==> pc == RegInc)
  }

  lemma RegisterEffect(s: Server, t: Tid, s': Server)
    requires LocksHeld(s) && t in s.threads && InRegister(s.threads[t]) && Register(s, t, s.threads[t]) == Some(s')
    ensures t in s'.threads && Effect(s, t, s.threads[t], s'.threads[t], s')
  {
    assert Reading(s.threads[t]) <==> t in s.readers;
  }

  lemma DeregisterEffect(s: Server, t: Tid, s': Server)
    requires LocksHeld(s) && t in s.threads && InDeregister(s.threads[t]) && Deregister(s, t, s.threads[t]) == Some(s')
    ensures t in s'.threads && Effect(s, t, s.threads[t], s'.threads[t], s')
  {
    assert Reading(s.threads[t]) <==> t in s.readers;
  }

  lemma ChangeIfEffect(s: Server, t: Tid, s': Server)
    requires LocksHeld(s) && t in s.threads && InChangeIf(s.threads[t]) && ChangeIf(s, t, s.threads[t]) == Some(s')
    ensures t in s'.threads && Effect(s, t, s.threads[t], s'.threads[t], s')
  {
    assert Reading(s.threads[t]) <==> t in s.readers;
  }

  lemma OtherEffect(s: Server, t: Tid, s': Server)
    requires LocksHeld(s) && t in s.threads && InOther(s.threads[t]) && Other(s, t, s.threads[t]) == Some(s')
    ensures t in s'.threads && Effect(s, t, s.threads[t], s'.threads[t], s')
  {
    assert Reading(s.threads[t]) <==> t in s.readers;
  }

  lemma StepEffect(s: Server, e: Event, s': Server)
    requires LocksHeld(s) && Apply(s, e) == Some(s')
    ensures e.t in s'.threads && Effect(s, e.t, PcOf(s, e.t), s'.threads[e.t], s')
  {
    hide Effect, Register, Deregister, ChangeIf, Other;
    match e
    case Spawn(t, op) => SpawnEffect(s, t, op);
    case Move(t) =>
      var pc := s.threads[t];
      if InRegister(pc) {
        RegisterEffect(s, t, s');
      } else if InDeregister(pc) {
        DeregisterEffect(s, t, s');
      } else if InChangeIf(pc) {
        ChangeIfEffect(s, t, s');
      } else {
        OtherEffect(s, t, s');
      }
  }

  lemma SpawnEffect(s: Server, t: Tid, op: Op)
    requires LocksHeld(s) && t !in s.threads
    ensures Effect(s, t, Done, Start(op), s.At(t, Start(op)))
  {
  }

  lemma StepLocks(s: Server, t: Tid, pc: PC, pc': PC, s': Server)
    requires LocksHeld(s) && pc == PcOf(s, t) && Effect(s, t, pc, pc', s')
    ensures LocksHeld(s')
  {
  }

  lemma StepCounts(s: Server, t: Tid, pc: PC, pc': PC, s': Server)
    requires s.connections == |InFlight(s)| && pc == PcOf(s, t) && Effect(s, t, pc, pc', s')
    ensures s'.connections == |InFlight(s')|
  {
    var before, after := InFlight(s), InFlight(s');
    assert t in before <==> Counted(pc);
    if Counted(pc') {
      assert after == before + {t};
      assert t in before ==> after == before;
    } else {
      assert after == before - {t};
    }
  }

  lemma CountedMeansSome(s: Server, t: Tid)
    requires s.connections == |InFlight(s)|
    ensures Counted(PcOf(s, t)) ==> s.connections > 0
  {
    assert Counted(PcOf(s, t)) ==> t in InFlight(s);
  }

  lemma StepStableOther(s: Server, t: Tid, pc: PC, pc': PC, s': Server, u: Tid)
    requires Inv(s) && pc == PcOf(s, t) && Effect(s, t, pc, pc', s')
    requires u in s.threads && u != t
    ensures Stable(s', s.threads[u])
  {
    assert Stable(s, s.threads[u]);
    assert Reading(s.threads[u]) <==> u in s.readers;
    assert Writing(pc) ==> s.readers == {};
    assert t in s.threads ==> Stable(s, pc);
    CountedMeansSome(s, t);
  }

  lemma RegisterStable(s: Server, t: Tid, s': Server)
    requires t in s.threads && InRegister(s.threads[t]) && Register(s, t, s.threads[t]) == Some(s')
    requires Stable(s, s.threads[t]) && (Counted(s.threads[t]) ==> s.connections > 0)
    ensures t in s'.threads && Stable(s', s'.threads[t])
  {
  }

  lemma DeregisterStable(s: Server, t: Tid, s': Server)
    requires t in s.threads && InDeregister(s.threads[t]) && Deregister(s, t, s.threads[t]) == Some(s')
    requires Stable(s, s.threads[t]) && (Counted(s.threads[t]) ==> s.connections > 0)
    ensures t in s'.threads && Stable(s', s'.threads[t])
  {
  }

  lemma ChangeIfStable(s: Server, t: Tid, s': Server)
    requires t in s.threads && InChangeIf(s.threads[t]) && ChangeIf(s, t, s.threads[t]) == Some(s')
    requires Stable(s, s.threads[t]) && (Counted(s.threads[t]) ==> s.connections > 0)
    ensures t in s'.threads && Stable(s', s'.threads[t])
  {
  }

  lemma OtherStable(s: Server, t: Tid, s': Server)
    requires t in s.threads && InOther(s.threads[t]) && Other(s, t, s.threads[t]) == Some(s')
    requires Stable(s, s.threads[t]) && (Counted(s.threads[t]) ==> s.connections > 0)
    ensures t in s'.threads && Stable(s', s'.threads[t])
  {
  }

  lemma StepStableSelf(s: Server, e: Event, s': Server)
    requires Inv(s) && Apply(s, e) == Some(s')
    ensures e.t in s'.threads && Stable(s', s'.threads[e.t])
  {
    hide Stable, Register, Deregister, ChangeIf, Other;
    match e
    case Spawn(t, op) => SpawnStable(s, t, op);
    case Move(t) =>
      var pc := s.threads[t];
      CountedMeansSome(s, t);
      if InRegister(pc) {
        RegisterStable(s, t, s');
      } else if InDeregister(pc) {
        DeregisterStable(s, t, s');
      } else if InChangeIf(pc) {
        ChangeIfStable(s, t, s');
      } else {
        OtherStable(s, t, s');
      }
  }

  lemma SpawnStable(s: Server, t: Tid, op: Op)
    requires op != ChangeState(Closed)
    ensures Stable(s.At(t, Start(op)), Start(op))
  {
  }

  /** Every step of every goroutine keeps the invariant. */
  lemma StepInv(s: Server, e: Event, s': Server)
    requires Inv(s) && Apply(s, e) == Some(s')
    ensures Inv(s')
  {
    hide Apply;
    StepEffect(s, e, s');
    var t, pc, pc' := e.t, PcOf(s, e.t), s'.threads[e.t];
    StepLocks(s, t, pc, pc', s');
    StepCounts(s, t, pc, pc', s');
    StepStableSelf(s, e, s');
    forall u | u in s'.threads && u != t
      ensures Stable(s', s'.threads[u])
    {
      StepStableOther(s, t, pc, pc', s', u);
    }
  }

  lemma {:induction false} RunInv(s: Server, es: seq<Event>, f: Server)
    requires Inv(s) && Exec(s, es) == Some(f)
    ensures Inv(f)
    decreases |es|
  {
    hide Inv, Apply;
    if es != [] {
      var s1 := Apply(s, es[0]).value;
      StepInv(s, es[0], s1);
      RunInv(s1, es[1..], f);
    }
  }

  /** In every run of the server the counter is the number of goroutines between their increment and
      their decrement, and it rises only while the server is open. */
  lemma ConnectionsConserved(es: seq<Event>, s: Server, e: Event, s': Server)
    requires Exec(INITIAL, es) == Some(s) && Apply(s, e) == Some(s')
    ensures s'.connections == |InFlight(s')|
    ensures s'.connections > s.connections ==> s.phase == Open && s'.phase == Open
  {
    hide Apply;
    InitialInv();
    RunInv(INITIAL, es, s);
    StepInv(s, e, s');
    StepEffect(s, e, s');
    assert e.t in s.threads ==> Stable(s, s.threads[e.t]);
  }

  // ---------------------------------------------------------------- no lost shutdown

  ghost predicate Live(s: Server) {
    s.connections > 0 || exists t | t in s.threads :: Departing(s.threads[t])
  }

  /** In a Closing server a goroutine on its way to write Closed keeps on that way, unless connections
      are left or it has written; a counted one stays counted or gets on that way; nobody else does. */
  ghost predicate DepartEffect(s: Server, pc: PC, pc': PC, s': Server) {
    && (Departing(pc') ==> Departing(pc) || s.connections > 0)
    && (Departing(pc) ==> Departing(pc') || s'.connections > 0 || s'.phase == Closed)
    && (Counted(pc) ==> Counted(pc') || Departing(pc'))
    && (s'.phase == Closed ==> Departing(pc))
    && s'.connections <= s.connections
  }

  lemma RegisterDeparts(s: Server, t: Tid, s': Server)
    requires t in s.threads && InRegister(s.threads[t]) && Register(s, t, s.threads[t]) == Some(s')
    requires s.phase == Closing && s.connections >= 0
    requires Stable(s, s.threads[t]) && (Counted(s.threads[t]) ==> s.connections > 0)
    ensures t in s'.threads && DepartEffect(s, s.threads[t], s'.threads[t], s')
  {
  }

  lemma DeregisterDeparts(s: Server, t: Tid, s': Server)
    requires t in s.threads && InDeregister(s.threads[t]) && Deregister(s, t, s.threads[t]) == Some(s')
    requires s.phase == Closing && s.connections >= 0
    requires Stable(s, s.threads[t]) && (Counted(s.threads[t]) ==> s.connections > 0)
    ensures t in s'.threads && DepartEffect(s, s.threads[t], s'.threads[t], s')
  {
  }

  lemma ChangeIfDeparts(s: Server, t: Tid, s': Server)
    requires t in s.threads && InChangeIf(s.threads[t]) && ChangeIf(s, t, s.threads[t]) == Some(s')
    requires s.phase == Closing && s.connections >= 0
    requires Stable(s, s.threads[t]) && (Counted(s.threads[t]) ==> s.connections > 0)
    ensures t in s'.threads && DepartEffect(s, s.threads[t], s'.threads[t], s')
  {
  }

  lemma OtherDeparts(s: Server, t: Tid, s': Server)
    requires t in s.threads && InOther(s.threads[t]) && Other(s, t, s.threads[t]) == Some(s')
    requires s.phase == Closing && s.connections >= 0
    requires Stable(s, s.threads[t]) && (Counted(s.threads[t]) ==> s.connections > 0)
    ensures t in s'.threads && DepartEffect(s, s.threads[t], s'.threads[t], s')
  {
  }

  lemma MoverDeparts(s: Server, e: Event, s': Server)
    requires Inv(s) && Apply(s, e) == Some(s') && s.phase == Closing
    ensures e.t in s'.threads && DepartEffect(s, PcOf(s, e.t), s'.threads[e.t], s')
  {
    hide DepartEffect, Stable, Register, Deregister, ChangeIf, Other;
    match e
    case Spawn(t, op) => SpawnDeparts(s, t, op);
    case Move(t) =>
      var pc := s.threads[t];
      CountedMeansSome(s, t);
      if InRegister(pc) {
        RegisterDeparts(s, t, s');
      } else if InDeregister(pc) {
        DeregisterDeparts(s, t, s');
      } else if InChangeIf(pc) {
        ChangeIfDeparts(s, t, s');
      } else {
        OtherDeparts(s, t, s');
      }
  }

  lemma SpawnDeparts(s: Server, t: Tid, op: Op)
    requires s.phase == Closing
    ensures DepartEffect(s, Done, Start(op), s.At(t, Start(op)))
  {
  }

  /** While the server is Closing, shutting down stays under way or stays stuck; it is under way when
      Closed is written. */
  lemma StepLive(s: Server, e: Event, s': Server)
    requires Inv(s) && Apply(s, e) == Some(s') && s.phase == Closing
    ensures s'.phase == Closing ==> (Live(s') <==> Live(s))
    ensures s'.phase == Closed ==> Live(s)
  {
    hide Apply, Departing, Stable;
    StepEffect(s, e, s');
    MoverDeparts(s, e, s');
    CountsNonNegative(s);
    var t := e.t;
    if t in s.threads && Departing(s.threads[t]) {
      assert Departing(s'.threads[t]) || s'.connections > 0 || s'.phase == Closed;
    } else if exists u | u in s.threads :: Departing(s.threads[u]) {
      var u :| u in s.threads && Departing(s.threads[u]);
      assert u in s'.threads && s'.threads[u] == s.threads[u];
    }
    if exists u | u in s'.threads :: Departing(s'.threads[u]) {
      var u :| u in s'.threads && Departing(s'.threads[u]);
      assert u != t ==> u in s.threads;
    }
    if s'.connections < s.connections {
      assert Departing(s'.threads[t]);
    }
    DepartingNotDone();
  }

  lemma DepartingNotDone()
    ensures !Departing(Done)
  {
  }

  lemma CountsNonNegative(s: Server)
    requires Inv(s)
    ensures s.connections >= 0
  {
  }

  /** All states of the run from s, the last one included, are of these. */
  ghost predicate Within(s: Server, es: seq<Event>, phases: set<Phase>)
    decreases |es|
  {
    s.phase in phases &&
    (es != [] ==> match Apply(s, es[0]) case None => true case Some(s1) => Within(s1, es[1..], phases))
  }

  /** No lost shutdown: in every state of a Closing period, connections are left or a goroutine is
      between its decrement and its write, exactly if that was so when the period began. */
  lemma {:induction false} ClosingPeriod(s: Server, es: seq<Event>, f: Server)
    requires Inv(s) && Exec(s, es) == Some(f) && Within(s, es, {Closing})
    ensures Live(f) <==> Live(s)
    decreases |es|
  {
    hide Inv, Apply, Live;
    if es != [] {
      var s1 := Apply(s, es[0]).value;
      StepInv(s, es[0], s1);
      StepLive(s, es[0], s1);
      ClosingPeriod(s1, es[1..], f);
    }
  }

  /** Goroutine e.t writes the state for Open or Close. */
  predicate Sets(s: Server, e: Event) {
    e.Move? && PcOf(s, e.t).SetWrite?
  }

  predicate NothingSet(s: Server, es: seq<Event>)
    decreases |es|
  {
    es != [] ==>
      !Sets(s, es[0]) && match Apply(s, es[0]) case None => true case Some(s1) => NothingSet(s1, es[1..])
  }

  /** Every connection has been handled: nobody is counted, nobody is departing. */
  ghost predicate Drained(s: Server) {
    forall t | t in s.threads :: !Counted(s.threads[t]) && !Departing(s.threads[t])
  }

  lemma UnsetPhase(s: Server, e: Event, s': Server)
    requires Inv(s) && Apply(s, e) == Some(s') && !Sets(s, e)
    ensures s'.phase == s.phase || (s.phase == Closing && s'.phase == Closed)
  {
    if e.Move? {
      assert Stable(s, s.threads[e.t]);
    }
  }

  lemma DrainedNotLive(s: Server)
    requires Inv(s) && Drained(s)
    ensures !Live(s)
  {
    assert InFlight(s) == {};
  }

  /** From a Closing server, by any interleaving without another Open or Close: once all connections
      are handled the server is Closed if and only if shutting down was under way at the start. */
  lemma {:induction false} ShutdownIff(s: Server, es: seq<Event>, f: Server)
    requires Inv(s) && s.phase == Closing
    requires Exec(s, es) == Some(f) && NothingSet(s, es) && Drained(f)
    ensures f.phase == (if Live(s) then Closed else Closing)
    decreases |es|
  {
    hide Inv, Apply, Live, Drained;
    if es == [] {
      DrainedNotLive(s);
    } else {
      var s1 := Apply(s, es[0]).value;
      StepInv(s, es[0], s1);
      StepLive(s, es[0], s1);
      UnsetPhase(s, es[0], s1);
      if s1.phase == Closing {
        ShutdownIff(s1, es[1..], f);
      } else {
        StaysUnset(s1, es[1..], f);
      }
    }
  }

  lemma {:induction false} StaysUnset(s: Server, es: seq<Event>, f: Server)
    requires Inv(s) && s.phase == Closed && Exec(s, es) == Some(f) && NothingSet(s, es)
    ensures f.phase == Closed
    decreases |es|
  {
    hide Inv, Apply;
    if es != [] {
      var s1 := Apply(s, es[0]).value;
      StepInv(s, es[0], s1);
      UnsetPhase(s, es[0], s1);
      StaysUnset(s1, es[1..], f);
    }
  }

  // ---------------------------------------------------------------- quiescence

  /** A goroutine that read zero since the server last ceased to be open writes Closed only when there
      is no connection. */
  lemma FreshCloseIsQuiet(s: Server, t: Tid, s': Server)
    requires Inv(s) && t in s.threads && Apply(s, Move(t)) == Some(s')
    requires s.phase != Closed && s'.phase == Closed
    ensures s.threads[t].CondWrite?
    ensures s.threads[t].seen == s.epoch ==> s'.connections == 0
  {
    assert Stable(s, s.threads[t]);
  }

  /** No connections in a server that is not open: none until it is opened again. */
  lemma {:induction false} ZeroUntilOpen(s: Server, es: seq<Event>, f: Server)
    requires Inv(s) && s.phase != Open && s.connections == 0
    requires Exec(s, es) == Some(f) && f.epoch == s.epoch
    ensures f.phase != Open && f.connections == 0
    decreases |es|
  {
    hide Apply, Inv;
    if es != [] {
      var s1 := Apply(s, es[0]).value;
      StepInv(s, es[0], s1);
      EpochGrows(s1, es[1..], f);
      ZeroStep(s, es[0], s1);
      ZeroUntilOpen(s1, es[1..], f);
    }
  }

  lemma ZeroStep(s: Server, e: Event, s': Server)
    requires Inv(s) && Inv(s') && s.phase != Open && s.connections == 0 && Apply(s, e) == Some(s')
    ensures s'.epoch >= s.epoch
    ensures s'.epoch == s.epoch ==> s'.phase != Open && s'.connections == 0
  {
    hide Apply;
    StepEffect(s, e, s');
    CountsNonNegative(s');
    assert e.t in s.threads ==> Stable(s, s.threads[e.t]);
  }

  lemma {:induction false} EpochGrows(s: Server, es: seq<Event>, f: Server)
    requires Inv(s) && Exec(s, es) == Some(f)
    ensures f.epoch >= s.epoch
    decreases |es|
  {
    hide Apply, Inv;
    if es != [] {
      var s1 := Apply(s, es[0]).value;
      StepInv(s, es[0], s1);
      EpochStep(s, es[0], s1);
      EpochGrows(s1, es[1..], f);
    }
  }

  lemma EpochStep(s: Server, e: Event, s': Server)
    requires Inv(s) && Apply(s, e) == Some(s')
    ensures s'.epoch >= s.epoch
  {
    hide Apply;
    StepEffect(s, e, s');
  }

  /** Handlers are added only to a Closed server, which stays Closed while they are. */
  lemma HandlersOnlyWhileClosed(s: Server, e: Event, s': Server)
    requires Inv(s) && Apply(s, e) == Some(s')
    ensures s'.handlers != s.handlers ==> s.phase == Closed && s'.phase == Closed
  {
    if e.Move? {
      assert Stable(s, s.threads[e.t]);
    }
  }
}
