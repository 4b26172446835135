/** Header updates under every schedule: a goroutine waits only for another that holds a lock, and every call
    returns. */
module HeaderCalls {
  import opened Strconv
  import opened MapTotals
  import opened HeaderStore
  import opened HeaderLinearizable

  /** The slice a goroutine has taken the lock of. */
  predicate HoldsSliceOf(pc: PC, id: nat) {
    HoldsSlice(pc) && pc.id == id
  }

  lemma WaitsOnLocks(h: Header, t: Tid, op: Op, pc: PC)
    requires MapOk(h) && Relies(h, op, pc)
    ensures Next(h, t, op, pc) == None <==>
            || pc.Returned?
            || (pc.Want? && h.writer != None)
            || (pc.WantWrite? && (h.writer != None || h.readers != {}))
            || (pc.Found? && pc.id in h.sliceLock)
  {
    hide NewValues;
  }

  /** A goroutine that has not returned can take its next step unless another is in its way: readers of the key
      set keep out writers only, writers everybody, and of each slice there is one user at a time. */
  lemma BlockedIff(s: State, t: Tid)
    requires Inv(s) && t in s.threads
    ensures var pc := s.threads[t].pc;
            Next(s.h, t, s.threads[t].op, pc) == None <==>
            || pc.Returned?
            || (pc.Want? && exists u | u in s.threads :: HoldsWrite(s.threads[u].pc))
            || (pc.WantWrite? &&
                exists u | u in s.threads :: HoldsWrite(s.threads[u].pc) || HoldsRead(s.threads[u].pc))
            || (pc.Found? && exists u | u in s.threads :: HoldsSliceOf(s.threads[u].pc, pc.id))
  {
    hide Next, History, Settled, HoldsRead, HoldsWrite, HoldsSlice, MapOk, Relies;
    var pc := s.threads[t].pc;
    WaitsOnLocks(s.h, t, s.threads[t].op, pc);
    LocksTaken(s);
    if pc.Found? {
      SliceTaken(s, pc.id);
    }
  }

  lemma LocksTaken(s: State)
    requires LocksHeld(s)
    ensures s.h.writer != None <==> exists u | u in s.threads :: HoldsWrite(s.threads[u].pc)
    ensures s.h.readers != {} <==> exists u | u in s.threads :: HoldsRead(s.threads[u].pc)
  {
    hide HoldsRead, HoldsWrite, HoldsSlice;
    if s.h.writer != None {
      assert OwnLocks(s.h, s.h.writer.value, s.threads[s.h.writer.value].pc);
    }
    if s.h.readers != {} {
      var u :| u in s.h.readers;
      assert OwnLocks(s.h, u, s.threads[u].pc);
    }
    if u :| u in s.threads && HoldsWrite(s.threads[u].pc) {
      assert OwnLocks(s.h, u, s.threads[u].pc);
    }
    if u :| u in s.threads && HoldsRead(s.threads[u].pc) {
      assert OwnLocks(s.h, u, s.threads[u].pc);
    }
  }

  lemma SliceTaken(s: State, id: nat)
    requires LocksHeld(s)
    ensures id in s.h.sliceLock <==> exists u | u in s.threads :: HoldsSliceOf(s.threads[u].pc, id)
  {
    hide HoldsRead, HoldsWrite, HoldsSlice;
    if id in s.h.sliceLock {
      var u := s.h.sliceLock[id];
      assert OwnLocks(s.h, u, s.threads[u].pc) && Holds(s.h.sliceLock, id, u);
    }
    if u :| u in s.threads && HoldsSliceOf(s.threads[u].pc, id) {
      assert OwnLocks(s.h, u, s.threads[u].pc) && Holds(s.h.sliceLock, id, u);
    }
  }

  // ---------------------------------------------------------------- every call returns

  /** At most how many steps a call still takes. */
  function Rank(c: Thread): nat {
    var n := if c.op.Batch? then |c.op.items| else 0;
    match c.pc
    case Want => n + 11
    case Look => n + 10
    case Release => n + 9
    case WantWrite => n + 8
    case LookAgain => n + 7
    case Found(_, _) => 6
    case Held(_, _) => 5
    case Put(_, _, _) => 4
    case Unslice(_, _, _) => 3
    case Adding(i) => if i <= n then n - i + 2 else 2
    case Leave(_, _) => 1
    case Returned(_) => 0
  }

  lemma MoveRank(h: Header, t: Tid, c: Thread, step: Step)
    requires Next(h, t, c.op, c.pc) == Some(step)
    ensures Rank(c.(pc := step.pc)) < Rank(c)
  {
    hide Rank, LookStep, SliceStep, LookAgainStep, BatchStep, LeaveStep;
    if Looking(c.pc) {
      LookRank(h, t, c, step);
    } else if OnSlice(c.pc) {
      SliceRank(h, t, c, step);
    } else {
      RestRank(h, t, c, step);
    }
  }

  lemma LookRank(h: Header, t: Tid, c: Thread, step: Step)
    requires Looking(c.pc) && (c.pc.Look? ==> !c.op.Batch?) && LookStep(h, t, c.op, c.pc) == Some(step)
    ensures Rank(c.(pc := step.pc)) < Rank(c)
  {
  }

  lemma SliceRank(h: Header, t: Tid, c: Thread, step: Step)
    requires OnSlice(c.pc) && SliceStep(h, t, c.op, c.pc) == Some(step)
    ensures Rank(c.(pc := step.pc)) < Rank(c)
  {
    hide NewValues;
  }

  lemma RestRank(h: Header, t: Tid, c: Thread, step: Step)
    requires !Looking(c.pc) && !OnSlice(c.pc) && Next(h, t, c.op, c.pc) == Some(step)
    ensures Rank(c.(pc := step.pc)) < Rank(c)
  {
    hide NewValues, LookStep, SliceStep;
  }

  lemma MoveTotal(s: State, t: Tid, s': State)
    requires Apply(s, Move(t)) == Some(s')
    ensures Total(s'.threads, Rank) < Total(s.threads, Rank)
  {
    hide Next, Rank;
    var step := Next(s.h, t, s.threads[t].op, s.threads[t].pc).value;
    MoveRank(s.h, t, s.threads[t], step);
    TotalUpdate(s.threads, t, s'.threads[t], Rank);
  }

  ghost predicate AllMoves(es: seq<Event>) {
    forall e | e in es :: e.Move?
  }

  /** Without new calls every schedule ends: the steps left bound its length. */
  lemma {:induction false} SchedulesEnd(s: State, es: seq<Event>, f: State)
    requires Exec(s, es) == Some(f) && AllMoves(es)
    ensures |es| + Total(f.threads, Rank) <= Total(s.threads, Rank)
    decreases |es|
  {
    hide Apply;
    if es != [] {
      assert es[0] in es;
      var s1 := Apply(s, es[0]).value;
      MoveTotal(s, es[0].t, s1);
      SchedulesEnd(s1, es[1..], f);
    }
  }

  /** From any state, let the goroutines run in any order until none can: every call has returned, its update
      is logged with its result, and the header holds what the log makes. */
  lemma EveryCallReturns(es: seq<Event>, s: State, fs: seq<Event>, f: State)
    requires Exec(EMPTY, es) == Some(s) && Exec(s, fs) == Some(f) && AllMoves(fs) && Stuck(f)
    ensures |fs| <= Total(s.threads, Rank)
    ensures forall t | t in f.threads :: f.threads[t].pc.Returned?
    ensures f.h.readers == {} && f.h.writer == None && f.h.sliceLock == map[]
    ensures Abs(f.h) == f.spec && SequentialRun(f.log, f.spec)
  {
    hide Exec, Next, SequentialRun, Abs, MapOk, Relies;
    SchedulesEnd(s, fs, f);
    EmptyInv();
    RunInv(EMPTY, es, s);
    RunInv(s, fs, f);
    NoDeadlock(f);
    NobodyHolds(f);
  }

  lemma NobodyHolds(f: State)
    requires LocksHeld(f) && forall t | t in f.threads :: f.threads[t].pc.Returned?
    ensures f.h.readers == {} && f.h.writer == None && f.h.sliceLock == map[]
  {
    LocksTaken(f);
    forall id
      ensures id !in f.h.sliceLock
    {
      SliceTaken(f, id);
    }
  }
  // ---------------------------------------------------------------- what needs no write lock

  /** Neither about to take KeyModLock for writing nor letting go of it to do so. */
  predicate OnReadPath(pc: PC) {
    match pc
    case Want | Look | Returned(_) => true
    case Found(w, _) => !w
    case Held(w, _) => !w
    case Put(w, _, _) => !w
    case Unslice(w, _, _) => !w
    case Leave(w, _) => !w
    case _ => false
  }

  /** The first lookup settles the call: an update's key is there, or a key to delete is not. */
  predicate SettledByLook(h: Header, op: Op) {
    (Updates(op) && op.key in h.values) || (op.Del? && op.key !in h.values)
  }

  ghost predicate AlwaysSettles(s: State, es: seq<Event>, op: Op)
    decreases |es|
  {
    SettledByLook(s.h, op) &&
    (es != [] ==> match Apply(s, es[0]) case None => true case Some(s1) => AlwaysSettles(s1, es[1..], op))
  }

  lemma MoveOnReadPath(h: Header, t: Tid, op: Op, pc: PC, step: Step)
    requires SettledByLook(h, op) && OnReadPath(pc) && Next(h, t, op, pc) == Some(step)
    ensures OnReadPath(step.pc)
  {
    hide NewValues;
  }

  /** A call that the first lookup settles at all times never comes to the write lock: updates of keys that are
      there, and deletions of keys that are not, keep each other out of the map at no time. */
  lemma {:induction false} ReadPathOnly(s: State, es: seq<Event>, f: State, t: Tid)
    requires Exec(s, es) == Some(f) && t in s.threads && OnReadPath(s.threads[t].pc)
    requires AlwaysSettles(s, es, s.threads[t].op)
    ensures t in f.threads && OnReadPath(f.threads[t].pc) && !HoldsWrite(f.threads[t].pc)
    decreases |es|
  {
    if es == [] {
    } else {
      hide Next, OnReadPath, HoldsWrite, SettledByLook;
      var s1 := Apply(s, es[0]).value;
      if es[0] == Move(t) {
        MoveOnReadPath(s.h, t, s.threads[t].op, s.threads[t].pc, Next(s.h, t, s.threads[t].op, s.threads[t].pc).value);
      }
      ReadPathOnly(s1, es[1..], f, t);
    }
  }

  // ---------------------------------------------------------------- what the header then holds

  /** The values of a batch for the key, in order. */
  function ItemsFor(items: seq<(string, string)>, key: string): seq<string> {
    if items == [] then []
    else
      var last := items[|items| - 1];
      ItemsFor(items[..|items| - 1], key) + if last.0 == key then [last.1] else []
  }

  /** The values an update adds behind those of the key. */
  function Added(op: Op, key: string): seq<string> {
    match op
    case Add(k, v) => if k == key then [v] else []
    case Batch(items) => ItemsFor(items, key)
    case _ => []
  }

  function AllAdded(log: seq<Entry>, key: string): seq<string> {
    if log == [] then [] else AllAdded(log[..|log| - 1], key) + Added(log[|log| - 1].op, key)
  }

  /** An update that puts other values in place of those of the key, or none. */
  predicate Resets(op: Op, key: string) {
    (op.Set? || op.Del?) && op.key == key
  }

  /** The entries up to the last such. */
  function UpToReset(log: seq<Entry>, key: string): (n: nat)
    ensures n <= |log| && (n > 0 ==> Resets(log[n - 1].op, key))
    ensures forall i | n <= i < |log| :: !Resets(log[i].op, key)
  {
    if log == [] then 0
    else if Resets(log[|log| - 1].op, key) then |log|
    else UpToReset(log[..|log| - 1], key)
  }

  /** The values set last, and all added since, in the order of the log. */
  function Latest(log: seq<Entry>, key: string): seq<string> {
    var n := UpToReset(log, key);
    (if n > 0 && log[n - 1].op.Set? then log[n - 1].op.values else []) + AllAdded(log[n..], key)
  }

  lemma {:induction false} AddAllAdds(m: Contents, items: seq<(string, string)>, key: string)
    ensures Lookup(AddAll(m, items), key) == Lookup(m, key) + ItemsFor(items, key)
  {
    if items == [] {
      assert Lookup(m, key) + [] == Lookup(m, key);
    } else {
      var init, last := items[..|items| - 1], items[|items| - 1];
      AddAllAdds(m, init, key);
      assert Lookup(m, key) + ItemsFor(init, key) + [last.1] == Lookup(m, key) + (ItemsFor(init, key) + [last.1]);
    }
  }

  lemma SequentialAdds(m: Contents, op: Op, key: string)
    requires !Resets(op, key) && !(op.Modify? && op.key == key)
    ensures Lookup(Sequential(m, op).0, key) == Lookup(m, key) + Added(op, key)
  {
    hide AddAll, ItemsFor;
    if op.Batch? {
      AddAllAdds(m, op.items, key);
    } else {
      assert Lookup(m, key) + [] == Lookup(m, key);
    }
  }

  lemma LatestNext(log: seq<Entry>, e: Entry, key: string)
    ensures Latest(log + [e], key) ==
            if Resets(e.op, key) then (if e.op.Set? then e.op.values else []) else Latest(log, key) + Added(e.op, key)
  {
    hide Resets, Added;
    var more := log + [e];
    assert more[..|log|] == log;
    if Resets(e.op, key) {
      assert more[|more|..] == [];
    } else {
      var n := UpToReset(log, key);
      var rest := log[n..];
      assert more[n..] == rest + [e] && (rest + [e])[..|rest|] == rest;
      assert forall a: seq<string>, b, c :: a + (b + c) == a + b + c;
    }
  }

  /** No added value is lost or doubled: a map made by a sequential run holds under each key the values set last
      and those added since. */
  lemma {:induction false} RunHolds(log: seq<Entry>, m: Contents, key: string)
    requires SequentialRun(log, m) && forall i | 0 <= i < |log| :: !(log[i].op.Modify? && log[i].op.key == key)
    ensures Lookup(m, key) == Latest(log, key)
  {
    if log != [] {
      var init, e := log[..|log| - 1], log[|log| - 1];
      assert log == init + [e];
      var before :| SequentialRun(init, before) && Sequential(before, e.op) == (m, e.result);
      hide SequentialRun, Latest, Sequential;
      RunHolds(init, before, key);
      LatestNext(init, e, key);
      if Resets(e.op, key) {
        ResetHolds(before, e.op, key);
      } else {
        SequentialAdds(before, e.op, key);
      }
    }
  }

  lemma ResetHolds(m: Contents, op: Op, key: string)
    requires Resets(op, key)
    ensures Lookup(Sequential(m, op).0, key) == if op.Set? then op.values else []
  {
  }

  /** So does the header, after any schedule taken to its end: under each key that no Modify was called for, the
      values of the last Set in the log, if no Del came later, and then those of all Adds and batches since. */
  lemma HeaderHolds(es: seq<Event>, f: State, key: string)
    requires Exec(EMPTY, es) == Some(f) && f.h.writer == None
    requires forall t | t in f.threads :: !(f.threads[t].op.Modify? && f.threads[t].op.key == key)
    ensures Lookup(Abs(f.h), key) == Latest(f.log, key)
  {
    hide Exec, SequentialRun, Abs, Latest;
    Linearizable(es, f);
    RunHolds(f.log, f.spec, key);
  }
}
