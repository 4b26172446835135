/** Concurrent header updates behave like updates of one atomic map. */
module HeaderLinearizable {
  import opened Strconv
  import opened HeaderStore

  // ---------------------------------------------------------------- locks

  predicate HoldsRead(pc: PC) {
    match pc
    case Look | Release => true
    case Found(w, _) => !w
    case Held(w, _) => !w
    case Put(w, _, _) => !w
    case Unslice(w, _, _) => !w
    case Leave(w, _) => !w
    case _ => false
  }

  predicate HoldsWrite(pc: PC) {
    match pc
    case LookAgain | Adding(_) => true
    case Found(w, _) => w
    case Held(w, _) => w
    case Put(w, _, _) => w
    case Unslice(w, _, _) => w
    case Leave(w, _) => w
    case _ => false
  }

  predicate HoldsSlice(pc: PC) {
    pc.Held? || pc.Put? || pc.Unslice?
  }

  predicate Holds(locks: map<nat, Tid>, id: nat, t: Tid) {
    id in locks && locks[id] == t
  }

  ghost predicate OwnLocks(h: Header, t: Tid, pc: PC) {
    && (t in h.readers <==> HoldsRead(pc))
    && (h.writer == Some(t) <==> HoldsWrite(pc))
    && (forall id :: Holds(h.sliceLock, id, t) <==> HoldsSlice(pc) && pc.id == id)
  }

  ghost predicate LocksHeld(s: State) {
    && (forall t | t in s.threads :: OwnLocks(s.h, t, s.threads[t].pc))
    && (forall t | t in s.h.readers :: t in s.threads)
    && (s.h.writer.Some? ==> s.h.writer.value in s.threads && s.h.readers == {})
    && (forall id | id in s.h.sliceLock :: s.h.sliceLock[id] in s.threads)
  }

  /** What a step of t from pc to pc' does to the locks: to its own, and to nobody else's. */
  ghost predicate LockEffect(h: Header, t: Tid, pc: PC, pc': PC, h': Header) {
    && OwnLocks(h', t, pc')
    && (forall u | u != t :: u in h'.readers <==> u in h.readers)
    && (forall u | u != t :: h'.writer == Some(u) <==> h.writer == Some(u))
    && (forall id, u | u != t :: Holds(h'.sliceLock, id, u) <==> Holds(h.sliceLock, id, u))
    && (HoldsRead(pc') && !HoldsRead(pc) ==> h.writer == None)
    && (HoldsWrite(pc') && !HoldsWrite(pc) ==> h.writer == None && h.readers == {})
  }

  lemma LookLocks(h: Header, t: Tid, op: Op, pc: PC, step: Step)
    requires OwnLocks(h, t, pc) && Looking(pc) && (pc.Look? ==> !op.Batch?) && LookStep(h, t, op, pc) == Some(step)
    ensures LockEffect(h, t, pc, step.pc, step.h)
  {
    hide NewValues;
  }

  lemma SliceLocks(h: Header, t: Tid, op: Op, pc: PC, step: Step)
    requires OwnLocks(h, t, pc) && OnSlice(pc) && SliceStep(h, t, op, pc) == Some(step)
    ensures LockEffect(h, t, pc, step.pc, step.h)
  {
    hide NewValues;
    assert HoldsSlice(pc) ==> Holds(h.sliceLock, pc.id, t);
    forall id
      ensures Holds(step.h.sliceLock, id, t) <==> HoldsSlice(step.pc) && step.pc.id == id
    {
      assert Holds(h.sliceLock, id, t) <==> HoldsSlice(pc) && pc.id == id;
    }
  }

  ghost predicate SameLocks(h: Header, h': Header) {
    h'.readers == h.readers && h'.writer == h.writer && h'.sliceLock == h.sliceLock
  }

  lemma AgainKeepsLocks(h: Header, op: Op)
    ensures var step := LookAgainStep(h, op);
            SameLocks(h, step.h) && HoldsWrite(step.pc) && !HoldsRead(step.pc) && !HoldsSlice(step.pc)
  {
    hide NewValues;
  }

  /** A step under the write lock that lets go of nothing. */
  lemma WriterKeepsLocks(h: Header, t: Tid, pc: PC, pc': PC, h': Header)
    requires OwnLocks(h, t, pc) && HoldsWrite(pc) && !HoldsRead(pc) && !HoldsSlice(pc)
    requires SameLocks(h, h') && HoldsWrite(pc') && !HoldsRead(pc') && !HoldsSlice(pc')
    ensures LockEffect(h, t, pc, pc', h')
  {
  }

  lemma AgainLocks(h: Header, t: Tid, op: Op, pc: PC, step: Step)
    requires OwnLocks(h, t, pc) && pc == LookAgain && LookAgainStep(h, op) == step
    ensures LockEffect(h, t, pc, step.pc, step.h)
  {
    hide LookAgainStep, LockEffect, OwnLocks, SameLocks;
    AgainKeepsLocks(h, op);
    WriterKeepsLocks(h, t, pc, step.pc, step.h);
  }

  lemma BatchLocks(h: Header, t: Tid, op: Op, pc: PC, step: Step)
    requires OwnLocks(h, t, pc) && pc.Adding? && BatchStep(h, op, pc.i) == Some(step)
    ensures LockEffect(h, t, pc, step.pc, step.h)
  {
    hide LockEffect, OwnLocks;
    WriterKeepsLocks(h, t, pc, step.pc, step.h);
  }

  lemma LeaveLocks(h: Header, t: Tid, op: Op, pc: PC, step: Step)
    requires OwnLocks(h, t, pc) && pc.Leave? && LeaveStep(h, t, pc.w, pc.r) == step
    ensures LockEffect(h, t, pc, step.pc, step.h)
  {
    hide NewValues;
  }

  lemma NextLocks(h: Header, t: Tid, op: Op, pc: PC, step: Step)
    requires OwnLocks(h, t, pc) && Next(h, t, op, pc) == Some(step)
    ensures LockEffect(h, t, pc, step.pc, step.h)
  {
    hide LookStep, SliceStep, LookAgainStep, BatchStep, LeaveStep, OwnLocks, LockEffect;
    if Looking(pc) {
      LookLocks(h, t, op, pc, step);
    } else if OnSlice(pc) {
      SliceLocks(h, t, op, pc, step);
    } else if pc.LookAgain? {
      AgainLocks(h, t, op, pc, step);
    } else if pc.Adding? {
      BatchLocks(h, t, op, pc, step);
    } else {
      LeaveLocks(h, t, op, pc, step);
    }
  }

  lemma StepLocks(s: State, t: Tid, step: Step)
    requires LocksHeld(s) && t in s.threads && Next(s.h, t, s.threads[t].op, s.threads[t].pc) == Some(step)
    ensures LocksHeld(Take(s, t, step))
  {
    hide Next;
    var pc := s.threads[t].pc;
    NextLocks(s.h, t, s.threads[t].op, pc, step);
    forall u | u in s.threads && u != t
      ensures OwnLocks(step.h, u, s.threads[u].pc)
    {
      assert OwnLocks(s.h, u, s.threads[u].pc);
    }
    forall id | id in step.h.sliceLock
      ensures step.h.sliceLock[id] in s.threads
    {
      var u := step.h.sliceLock[id];
      assert Holds(step.h.sliceLock, id, u);
      assert u != t ==> Holds(s.h.sliceLock, id, u);
    }
  }

  // ---------------------------------------------------------------- contents

  ghost predicate MapOk(h: Header) {
    && (forall k | k in h.values :: h.values[k] in h.heap)
    && (forall j, k | j in h.values && k in h.values :: h.values[j] == h.values[k] ==> j == k)
    && (forall id | id in h.heap :: id < |h.heap|)
  }

  /** What the header holds. */
  function Abs(h: Header): Contents {
    map k | k in h.values && h.values[k] in h.heap :: h.heap[h.values[k]]
  }

  /** What a goroutine relies on others not to change: above all, the slice it found is in the map. */
  ghost predicate Relies(h: Header, op: Op, pc: PC) {
    match pc
    case Want => !op.Batch?
    case Look => !op.Batch?
    case Release => !op.Batch?
    case Found(_, id) => Updates(op) && op.key in h.values && h.values[op.key] == id
    case Held(_, id) => Updates(op) && op.key in h.values && h.values[op.key] == id
    case Put(_, id, vs) =>
      && Updates(op) && op.key in h.values && h.values[op.key] == id
      && id in h.heap && NewValues(op, h.heap[id]) == Some(vs)
    case Adding(i) => op.Batch? && i <= |op.items|
    case _ => true
  }

  /** What the log's map must be for the header's contents to be right while a goroutine is at pc: the
      contents themselves, short of what a batch under way has added. */
  ghost predicate Settles(contents: Contents, spec: Contents, op: Op, pc: PC) {
    contents == if pc.Adding? && op.Batch? && pc.i <= |op.items| then AddAll(spec, op.items[..pc.i]) else spec
  }

  /** A step's effect on contents and log: a call that takes effect does to the map, and returns, what
      the sequential update does; and only locked parts of the header change. */
  ghost predicate Refines(h: Header, spec: Contents, op: Op, pc: PC, step: Step) {
    && MapOk(step.h) && Relies(step.h, op, step.pc)
    && (match step.logged
        case None => Settles(Abs(step.h), spec, op, step.pc)
        case Some(r) => Settles(Abs(step.h), Sequential(spec, op).0, op, step.pc) && Sequential(spec, op).1 == r)
    && (step.h.values == h.values || HoldsWrite(pc))
    && (forall id | id in h.heap :: id in step.h.heap &&
         (step.h.heap[id] == h.heap[id] || pc.Adding? || (HoldsSlice(pc) && pc.id == id)))
  }

  lemma InsertAbs(h: Header, k: string, vs: Values)
    requires MapOk(h) && k !in h.values
    ensures MapOk(h.Insert(k, vs)) && Abs(h.Insert(k, vs)) == Abs(h)[k := vs]
    ensures forall id | id in h.heap :: id in h.Insert(k, vs).heap && h.Insert(k, vs).heap[id] == h.heap[id]
  {
    var id, h' := |h.heap|, h.Insert(k, vs);
    assert id !in h.heap;
    forall j
      ensures j in Abs(h') <==> j in Abs(h)[k := vs]
      ensures j in Abs(h') ==> Abs(h')[j] == Abs(h)[k := vs][j]
    {
      if j != k && j in h.values {
        assert h'.values[j] == h.values[j] != id;
      }
    }
  }

  lemma WriteAbs(h: Header, k: string, vs: Values)
    requires MapOk(h) && k in h.values
    ensures var h' := h.(heap := h.heap[h.values[k] := vs]);
            MapOk(h') && Abs(h') == Abs(h)[k := vs]
  {
  }

  lemma DeleteOk(h: Header, k: string)
    requires MapOk(h)
    ensures MapOk(h.(values := h.values - {k}))
  {
  }

  lemma DeleteAbs(h: Header, k: string)
    requires MapOk(h)
    ensures Abs(h.(values := h.values - {k})) == Abs(h) - {k}
  {
    hide MapOk;
    var after, want := Abs(h.(values := h.values - {k})), Abs(h) - {k};
    forall j
      ensures j in after <==> j in want
      ensures j in after ==> after[j] == want[j]
    {
    }
  }

  /** Storing an update's new values is what the update does to the map. */
  lemma UpdateIsSequential(m: Contents, op: Op)
    requires Updates(op)
    ensures Sequential(m, op) ==
            match NewValues(op, Lookup(m, op.key)) case None => (m, Refused) case Some(vs) => (m[op.key := vs], Ok)
  {
  }

  lemma LookRefines(h: Header, t: Tid, spec: Contents, op: Op, pc: PC, step: Step)
    requires MapOk(h) && Relies(h, op, pc) && Abs(h) == spec
    requires Looking(pc) && (pc.Look? ==> !op.Batch?) && LookStep(h, t, op, pc) == Some(step)
    ensures Refines(h, spec, op, pc, step)
  {
    assert op.Del? && op.key !in h.values ==> spec - {op.key} == spec;
    assert Abs(step.h) == Abs(h);
  }

  lemma AgainRefines(h: Header, spec: Contents, op: Op, pc: PC, step: Step)
    requires MapOk(h) && Abs(h) == spec && pc == LookAgain && LookAgainStep(h, op) == step
    ensures Refines(h, spec, op, pc, step)
  {
    if op.Batch? {
      assert op.items[..0] == [];
      AddNone(spec);
    } else if op.Del? {
      AgainDelRefines(h, spec, op, step);
    } else {
      AgainUpdateRefines(h, spec, op, step);
    }
  }

  lemma AgainDelRefines(h: Header, spec: Contents, op: Op, step: Step)
    requires MapOk(h) && Abs(h) == spec && op.Del? && LookAgainStep(h, op) == step
    ensures Refines(h, spec, op, LookAgain, step)
  {
    hide MapOk, AddAll, NewValues, Abs;
    var was := op.key in h.values;
    var h' := if was then h.(values := h.values - {op.key}) else h;
    assert step == Step(h', Leave(true, Deleted(was)), Some(Deleted(was)));
    AfterDelete(h, op.key, h');
  }

  lemma AfterDelete(h: Header, k: string, h': Header)
    requires MapOk(h) && h' == if k in h.values then h.(values := h.values - {k}) else h
    ensures MapOk(h') && Abs(h') == Abs(h) - {k}
    ensures k in Abs(h) <==> k in h.values
  {
    if k in h.values {
      DeleteOk(h, k);
      DeleteAbs(h, k);
    }
  }

  lemma AgainUpdateRefines(h: Header, spec: Contents, op: Op, step: Step)
    requires MapOk(h) && Abs(h) == spec && Updates(op) && LookAgainStep(h, op) == step
    ensures Refines(h, spec, op, LookAgain, step)
  {
    SameKeys(h);
    hide MapOk, AddAll, Abs, NewValues, Sequential;
    UpdateIsSequential(spec, op);
    if op.key !in h.values && NewValues(op, []).Some? {
      InsertAbs(h, op.key, NewValues(op, []).value);
    }
  }

  lemma SameKeys(h: Header)
    requires MapOk(h)
    ensures Abs(h).Keys == h.values.Keys
  {
  }

  lemma AddNone(m: Contents)
    ensures AddAll(m, []) == m
  {
  }

  lemma SliceRefines(h: Header, t: Tid, spec: Contents, op: Op, pc: PC, step: Step)
    requires MapOk(h) && Relies(h, op, pc) && Abs(h) == spec && OnSlice(pc) && SliceStep(h, t, op, pc) == Some(step)
    ensures Refines(h, spec, op, pc, step)
  {
    if pc.Put? {
      PutRefines(h, t, spec, op, pc, step);
    } else if pc.Held? {
      HeldRefines(h, t, spec, op, pc, step);
    } else {
      assert Abs(step.h) == Abs(h);
    }
  }

  lemma PutRefines(h: Header, t: Tid, spec: Contents, op: Op, pc: PC, step: Step)
    requires MapOk(h) && Relies(h, op, pc) && Abs(h) == spec && pc.Put? && SliceStep(h, t, op, pc) == Some(step)
    ensures Refines(h, spec, op, pc, step)
  {
    hide Sequential, NewValues;
    UpdateIsSequential(spec, op);
    WriteAbs(h, op.key, pc.values);
  }

  lemma HeldRefines(h: Header, t: Tid, spec: Contents, op: Op, pc: PC, step: Step)
    requires MapOk(h) && Relies(h, op, pc) && Abs(h) == spec && pc.Held? && SliceStep(h, t, op, pc) == Some(step)
    ensures Refines(h, spec, op, pc, step)
  {
    hide Sequential, NewValues;
    UpdateIsSequential(spec, op);
  }

  lemma BatchRefines(h: Header, spec: Contents, op: Op, pc: PC, step: Step)
    requires MapOk(h) && pc.Adding? && Relies(h, op, pc) && Settles(Abs(h), spec, op, pc)
    requires BatchStep(h, op, pc.i) == Some(step)
    ensures Refines(h, spec, op, pc, step)
  {
    if pc.i == |op.items| {
      hide MapOk, Abs, AddAll;
      assert op.items[..pc.i] == op.items;
    } else {
      BatchItemRefines(h, spec, op, pc, step);
    }
  }

  lemma BatchItemRefines(h: Header, spec: Contents, op: Op, pc: PC, step: Step)
    requires MapOk(h) && pc.Adding? && Relies(h, op, pc) && Settles(Abs(h), spec, op, pc)
    requires pc.i < |op.items| && BatchStep(h, op, pc.i) == Some(step)
    ensures Refines(h, spec, op, pc, step)
  {
    hide MapOk, Abs, AddAll, AddOne, Sequential;
    AddNext(spec, op.items, pc.i);
    BatchAdds(h, op.items[pc.i].0, op.items[pc.i].1);
  }

  lemma AddNext(spec: Contents, items: seq<(string, string)>, i: nat)
    requires i < |items|
    ensures AddAll(spec, items[..i + 1]) == AddOne(AddAll(spec, items[..i]), items[i])
  {
    assert items[..i + 1][..i] == items[..i];
  }

  /** One item of a batch, added to a new slice or to the one there is. */
  lemma BatchAdds(h: Header, k: string, v: string)
    requires MapOk(h)
    ensures var h' := if k !in h.values then h.Insert(k, [v])
                      else if h.values[k] !in h.heap then h
                      else h.(heap := h.heap[h.values[k] := h.heap[h.values[k]] + [v]]);
            && (k in h.values ==> h.values[k] in h.heap)
            && MapOk(h') && Abs(h') == AddOne(Abs(h), (k, v)) && forall id | id in h.heap :: id in h'.heap
  {
    if k !in h.values {
      InsertAbs(h, k, [v]);
      assert [] + [v] == [v];
    } else {
      WriteAbs(h, k, h.heap[h.values[k]] + [v]);
    }
  }

  lemma LeaveRefines(h: Header, t: Tid, spec: Contents, op: Op, pc: PC, step: Step)
    requires MapOk(h) && Abs(h) == spec && pc.Leave? && LeaveStep(h, t, pc.w, pc.r) == step
    ensures Refines(h, spec, op, pc, step)
  {
    assert Abs(step.h) == Abs(h);
  }

  lemma NextRefines(h: Header, t: Tid, spec: Contents, op: Op, pc: PC, step: Step)
    requires MapOk(h) && Relies(h, op, pc) && Settles(Abs(h), spec, op, pc) && Next(h, t, op, pc) == Some(step)
    ensures Refines(h, spec, op, pc, step)
  {
    hide LookStep, SliceStep, LookAgainStep, BatchStep, LeaveStep, Refines, MapOk;
    if Looking(pc) {
      LookRefines(h, t, spec, op, pc, step);
    } else if OnSlice(pc) {
      SliceRefines(h, t, spec, op, pc, step);
    } else if pc.LookAgain? {
      AgainRefines(h, spec, op, pc, step);
    } else if pc.Adding? {
      BatchRefines(h, spec, op, pc, step);
    } else {
      LeaveRefines(h, t, spec, op, pc, step);
    }
  }

  // ---------------------------------------------------------------- history

  predicate Logged(pc: PC) {
    pc.Unslice? || pc.Leave? || pc.Returned?
  }

  lemma NextLogs(h: Header, t: Tid, op: Op, pc: PC, step: Step)
    requires Next(h, t, op, pc) == Some(step)
    ensures step.logged.Some? ==> !Logged(pc) && Logged(step.pc) && step.pc.r == step.logged.value
    ensures step.logged.None? ==> (Logged(pc) <==> Logged(step.pc)) && (Logged(pc) ==> step.pc.r == pc.r)
  {
    hide NewValues;
  }

  ghost predicate HasEntry(log: seq<Entry>, t: Tid) {
    exists i | 0 <= i < |log| :: log[i].t == t
  }

  /** The log: a sequential run giving the map, with one entry per call that has taken effect, made since
      the call began and holding the result it returns. */
  ghost predicate History(s: State) {
    && SequentialRun(s.log, s.spec)
    && (forall t | t in s.threads :: s.threads[t].since <= |s.log|)
    && (forall t | t in s.threads :: Logged(s.threads[t].pc) ==> HasEntry(s.log, t))
    && (forall i | 0 <= i < |s.log| :: EntryOk(s, s.log[i], i))
    && (forall i, j | 0 <= i < j < |s.log| :: s.log[i].t != s.log[j].t)
  }

  ghost predicate EntryOk(s: State, e: Entry, i: nat) {
    && e.t in s.threads && s.threads[e.t].op == e.op && s.threads[e.t].since <= i
    && Logged(s.threads[e.t].pc) && s.threads[e.t].pc.r == e.result
  }

  lemma RunAppend(log: seq<Entry>, spec: Contents, e: Entry)
    requires SequentialRun(log, spec) && Sequential(spec, e.op).1 == e.result
    ensures SequentialRun(log + [e], Sequential(spec, e.op).0)
  {
    var more := log + [e];
    assert more[..|more| - 1] == log && more[|more| - 1] == e;
    assert Sequential(spec, e.op) == (Sequential(spec, e.op).0, e.result);
  }

  lemma EntryKept(log: seq<Entry>, e: Entry, t: Tid)
    ensures HasEntry(log, t) ==> HasEntry(log + [e], t)
    ensures HasEntry(log + [e], e.t)
  {
    assert (log + [e])[|log|] == e;
    if HasEntry(log, t) {
      var i :| 0 <= i < |log| && log[i].t == t;
      assert (log + [e])[i].t == t;
    }
  }

  lemma StepHistory(s: State, t: Tid, step: Step)
    requires History(s) && t in s.threads && Next(s.h, t, s.threads[t].op, s.threads[t].pc) == Some(step)
    requires step.logged.Some? ==> Sequential(s.spec, s.threads[t].op).1 == step.logged.value
    ensures History(Take(s, t, step))
  {
    hide Next, Sequential, SequentialRun;
    var s' := Take(s, t, step);
    NextLogs(s.h, t, s.threads[t].op, s.threads[t].pc, step);
    if step.logged.Some? {
      var e := Entry(t, s.threads[t].op, step.logged.value);
      RunAppend(s.log, s.spec, e);
      forall u
        ensures HasEntry(s.log, u) ==> HasEntry(s'.log, u)
        ensures HasEntry(s'.log, t)
      {
        EntryKept(s.log, e, u);
      }
    }
    forall i | 0 <= i < |s.log|
      ensures EntryOk(s', s.log[i], i)
    {
      assert EntryOk(s, s.log[i], i);
    }
  }

  // ---------------------------------------------------------------- the invariant

  ghost predicate Settled(s: State) {
    if s.h.writer.Some? && s.h.writer.value in s.threads then
      var th := s.threads[s.h.writer.value];
      Settles(Abs(s.h), s.spec, th.op, th.pc)
    else Abs(s.h) == s.spec
  }

  ghost predicate Inv(s: State) {
    && LocksHeld(s) && MapOk(s.h) && Settled(s) && History(s)
    && (forall t | t in s.threads :: Relies(s.h, s.threads[t].op, s.threads[t].pc))
  }

  lemma EmptyInv()
    ensures Inv(EMPTY)
  {
  }

  /** With the write lock taken, nobody else can take a step. */
  lemma WriterAlone(s: State, t: Tid, step: Step)
    requires LocksHeld(s) && t in s.threads && Next(s.h, t, s.threads[t].op, s.threads[t].pc) == Some(step)
    ensures s.h.writer == None || s.h.writer == Some(t)
  {
    hide LookAgainStep, SliceStep, BatchStep, LeaveStep;
    assert OwnLocks(s.h, t, s.threads[t].pc);
  }

  lemma StepRelies(s: State, t: Tid, step: Step, u: Tid)
    requires Inv(s) && t in s.threads && u in s.threads && u != t
    requires LockEffect(s.h, t, s.threads[t].pc, step.pc, step.h)
    requires s.h.writer == None || s.h.writer == Some(t)
    requires Refines(s.h, s.spec, s.threads[t].op, s.threads[t].pc, step)
    ensures Relies(step.h, s.threads[u].op, s.threads[u].pc)
  {
    hide Settles, Sequential, NewValues;
    var pc, other := s.threads[t].pc, s.threads[u].pc;
    assert OwnLocks(s.h, t, pc) && OwnLocks(s.h, u, other);
    assert Relies(s.h, s.threads[u].op, other);
    assert HoldsSlice(other) ==> Holds(s.h.sliceLock, other.id, u) && !Holds(s.h.sliceLock, other.id, t);
  }

  lemma MoveInv(s: State, t: Tid, step: Step)
    requires Inv(s) && t in s.threads && Next(s.h, t, s.threads[t].op, s.threads[t].pc) == Some(step)
    ensures Inv(Take(s, t, step))
  {
    hide Next, History, MapOk, Settles, Abs, Sequential, Relies;
    var op, pc := s.threads[t].op, s.threads[t].pc;
    WriterAlone(s, t, step);
    assert OwnLocks(s.h, t, pc);
    SettlesUnlessAdding(Abs(s.h), s.spec, op, pc);
    NextLocks(s.h, t, op, pc, step);
    NextRefines(s.h, t, s.spec, op, pc, step);
    StepLocks(s, t, step);
    StepHistory(s, t, step);
    var s' := Take(s, t, step);
    assert OwnLocks(s'.h, t, step.pc);
    SettlesUnlessAdding(Abs(s'.h), s'.spec, op, step.pc);
    forall u | u in s'.threads
      ensures Relies(s'.h, s'.threads[u].op, s'.threads[u].pc)
    {
      if u != t {
        StepRelies(s, t, step, u);
      }
    }
  }

  lemma SettlesUnlessAdding(contents: Contents, spec: Contents, op: Op, pc: PC)
    ensures !HoldsWrite(pc) ==> (Settles(contents, spec, op, pc) <==> contents == spec)
  {
  }

  lemma StepInv(s: State, e: Event, s': State)
    requires Inv(s) && Apply(s, e) == Some(s')
    ensures Inv(s')
  {
    match e
    case Move(t) =>
      hide Next, Inv;
      MoveInv(s, t, Next(s.h, t, s.threads[t].op, s.threads[t].pc).value);
    case Call(t, op) =>
      CallInv(s, t, op);
  }

  lemma CallInv(s: State, t: Tid, op: Op)
    requires Inv(s) && t !in s.threads
    ensures Inv(s.(threads := s.threads[t := Thread(op, if op.Batch? then WantWrite else Want, |s.log|)]))
  {
    hide Next, Sequential, SequentialRun, Settles, MapOk;
    var s' := s.(threads := s.threads[t := Thread(op, if op.Batch? then WantWrite else Want, |s.log|)]);
    forall id
      ensures !Holds(s.h.sliceLock, id, t)
    {
    }
    forall i | 0 <= i < |s.log|
      ensures EntryOk(s', s.log[i], i)
    {
      assert EntryOk(s, s.log[i], i);
    }
  }

  lemma {:induction false} RunInv(s: State, es: seq<Event>, f: State)
    requires Inv(s) && Exec(s, es) == Some(f)
    ensures Inv(f) && s.log <= f.log
    decreases |es|
  {
    hide Inv, Apply;
    if es != [] {
      var s1 := Apply(s, es[0]).value;
      StepInv(s, es[0], s1);
      LogGrows(s, es[0], s1);
      RunInv(s1, es[1..], f);
    }
  }

  lemma LogGrows(s: State, e: Event, s': State)
    requires Apply(s, e) == Some(s')
    ensures s.log <= s'.log
  {
    hide Next;
  }

  // ---------------------------------------------------------------- results

  /** Linearizability, for every interleaving of any calls: the log is a sequential run of the updates
      on one map, which is what the header holds whenever the write lock is free; every entry in it is the
      update of a call, made after that call began; and each returned call has exactly one, with the result
      it returned. */
  lemma Linearizable(es: seq<Event>, f: State)
    requires Exec(EMPTY, es) == Some(f)
    ensures SequentialRun(f.log, f.spec)
    ensures f.h.writer == None ==> Abs(f.h) == f.spec
    ensures forall t | t in f.threads && f.threads[t].pc.Returned? ::
              exists i | f.threads[t].since <= i < |f.log| :: f.log[i] == Entry(t, f.threads[t].op, f.threads[t].pc.r)
    ensures forall i, j | 0 <= i < j < |f.log| :: f.log[i].t != f.log[j].t
    ensures forall i | 0 <= i < |f.log| ::
              && f.log[i].t in f.threads && f.log[i].op == f.threads[f.log[i].t].op && f.threads[f.log[i].t].since <= i
              && (f.threads[f.log[i].t].pc.Returned? ==> f.threads[f.log[i].t].pc.r == f.log[i].result)
  {
    hide Exec, SequentialRun, Abs;
    EmptyInv();
    RunInv(EMPTY, es, f);
    forall t | t in f.threads && f.threads[t].pc.Returned?
      ensures exists i | f.threads[t].since <= i < |f.log| :: f.log[i] == Entry(t, f.threads[t].op, f.threads[t].pc.r)
    {
      assert HasEntry(f.log, t);
      var i :| 0 <= i < |f.log| && f.log[i].t == t;
      assert EntryOk(f, f.log[i], i);
    }
    forall i | 0 <= i < |f.log|
      ensures EntryOk(f, f.log[i], i)
    {
    }
  }

  lemma {:induction false} SinceKept(s: State, es: seq<Event>, f: State, t: Tid)
    requires Exec(s, es) == Some(f) && t in s.threads
    ensures t in f.threads && f.threads[t].since == s.threads[t].since
    decreases |es|
  {
    hide Next;
    if es != [] {
      SinceKept(Apply(s, es[0]).value, es[1..], f, t);
    }
  }

  /** Calls that do not overlap take effect in the order they were made. */
  lemma RealTimeOrder(es: seq<Event>, s: State, a: Tid, b: Tid, op: Op, fs: seq<Event>, f: State, i: nat, j: nat)
    requires Exec(EMPTY, es) == Some(s) && a in s.threads && s.threads[a].pc.Returned?
    requires b !in s.threads && Exec(Apply(s, Call(b, op)).value, fs) == Some(f)
    requires i < |f.log| && f.log[i].t == a && j < |f.log| && f.log[j].t == b
    ensures i < j && b in f.threads && f.threads[b].since == |s.log|
  {
    hide Exec, SequentialRun, Next, LocksHeld, MapOk, Settled, Relies;
    EmptyInv();
    RunInv(EMPTY, es, s);
    assert HasEntry(s.log, a);
    var k :| 0 <= k < |s.log| && s.log[k].t == a;
    var s1 := Apply(s, Call(b, op)).value;
    StepInv(s, Call(b, op), s1);
    RunInv(s1, fs, f);
    assert f.log[k] == s.log[k];
    SinceKept(s1, fs, f, b);
    assert EntryOk(f, f.log[j], j);
  }

  /** An update always writes a slice that is still in the map, so no added value is lost to a
      concurrent delete. */
  lemma WritesReachTheMap(es: seq<Event>, s: State, t: Tid, s': State)
    requires Exec(EMPTY, es) == Some(s) && t in s.threads && s.threads[t].pc.Put? && Apply(s, Move(t)) == Some(s')
    ensures var op, pc := s.threads[t].op, s.threads[t].pc;
            && Updates(op) && op.key in s.h.values && s.h.values[op.key] == pc.id
            && Abs(s'.h) == Abs(s.h)[op.key := pc.values]
  {
    hide Exec, History, Settled, Sequential, NewValues, Abs;
    EmptyInv();
    RunInv(EMPTY, es, s);
    var op, pc := s.threads[t].op, s.threads[t].pc;
    assert Relies(s.h, op, pc);
    WriteAbs(s.h, op.key, pc.values);
  }

  lemma CanMove(s: State, t: Tid)
    requires Inv(s) && t in s.threads && !s.threads[t].pc.Returned?
    requires HoldsSlice(s.threads[t].pc)
             || (s.h.sliceLock == map[] && (HoldsWrite(s.threads[t].pc) || HoldsRead(s.threads[t].pc)))
             || (s.h.sliceLock == map[] && s.h.writer == None && s.h.readers == {})
    ensures Next(s.h, t, s.threads[t].op, s.threads[t].pc) != None
  {
    hide NewValues, History, LocksHeld, Settled;
    assert Relies(s.h, s.threads[t].op, s.threads[t].pc);
  }

  /** No goroutine can take a step, or only one that takes KeyModLock for reading while another waits to
      write, which a waiting writer keeps out. */
  ghost predicate Stuck(s: State) {
    forall t | t in s.threads ::
      || Next(s.h, t, s.threads[t].op, s.threads[t].pc) == None
      || (s.threads[t].pc.Want? && exists u | u in s.threads :: s.threads[u].pc.WantWrite?)
  }

  lemma HoldersWantNothing(pc: PC)
    ensures HoldsRead(pc) || HoldsWrite(pc) || HoldsSlice(pc) || pc.WantWrite? ==> !pc.Want? && !pc.Returned?
  {
  }

  /** No deadlock, whether or not waiting writers keep readers out: a stuck state has every call returned. */
  lemma NoDeadlock(s: State)
    requires Inv(s) && Stuck(s)
    ensures forall t | t in s.threads :: s.threads[t].pc.Returned?
  {
    hide Next, History, Settled, MapOk, Relies, HoldsRead, HoldsWrite, HoldsSlice;
    if s.h.sliceLock != map[] {
      var id :| id in s.h.sliceLock;
      var u := s.h.sliceLock[id];
      assert Holds(s.h.sliceLock, id, u) && OwnLocks(s.h, u, s.threads[u].pc);
      HoldersWantNothing(s.threads[u].pc);
      CanMove(s, u);
    } else if s.h.writer.Some? {
      assert OwnLocks(s.h, s.h.writer.value, s.threads[s.h.writer.value].pc);
      HoldersWantNothing(s.threads[s.h.writer.value].pc);
      CanMove(s, s.h.writer.value);
    } else if s.h.readers != {} {
      var u :| u in s.h.readers;
      assert OwnLocks(s.h, u, s.threads[u].pc);
      HoldersWantNothing(s.threads[u].pc);
      CanMove(s, u);
    } else if u :| u in s.threads && s.threads[u].pc.WantWrite? {
      CanMove(s, u);
    } else {
      forall t | t in s.threads
        ensures s.threads[t].pc.Returned?
      {
        if !s.threads[t].pc.Returned? {
          CanMove(s, t);
        }
      }
    }
  }
}
