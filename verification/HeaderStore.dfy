/** The header map under double-checked locking: KeyModLock over the key set, one lock per value slice.
    Any number of goroutines update it, interleaved at every lock operation and every access. */
module HeaderStore {
  import opened Strconv

  type Tid = nat
  type Values = seq<string>
  type Contents = map<string, Values>

  /** The updates. Modify's callback gives new values, or None to refuse; a missing key shows it none.
      Batch is an UnsafeAdder: Add calls between taking and releasing the write lock. */
  datatype Op =
    | Add(key: string, value: string)
    | Set(key: string, values: Values)
    | Del(key: string)
    | Modify(key: string, f: Values -> Option<Values>)
    | Batch(items: seq<(string, string)>)

  datatype Result = Ok | Deleted(was: bool) | Refused

  // ---------------------------------------------------------------- the sequential map

  function Lookup(m: Contents, key: string): Values {
    if key in m then m[key] else []
  }

  function AddOne(m: Contents, item: (string, string)): Contents {
    m[item.0 := Lookup(m, item.0) + [item.1]]
  }

  function AddAll(m: Contents, items: seq<(string, string)>): Contents {
    if items == [] then m else AddOne(AddAll(m, items[..|items| - 1]), items[|items| - 1])
  }

  /** What an update does to a map from keys to value lists when nothing else runs. */
  function Sequential(m: Contents, op: Op): (Contents, Result) {
    match op
    case Add(k, v) => (AddOne(m, (k, v)), Ok)
    case Set(k, vs) => (m[k := vs], Ok)
    case Del(k) => (m - {k}, Deleted(k in m))
    case Modify(k, f) => (match f(Lookup(m, k)) case None => (m, Refused) case Some(vs) => (m[k := vs], Ok))
    case Batch(items) => (AddAll(m, items), Ok)
  }

  datatype Entry = Entry(t: Tid, op: Op, result: Result)

  /** Running the logged updates one after the other gives the logged results, and map m. */
  ghost predicate SequentialRun(log: seq<Entry>, m: Contents) {
    if log == [] then m == map[]
    else
      var last := log[|log| - 1];
      exists before | SequentialRun(log[..|log| - 1], before) :: Sequential(before, last.op) == (m, last.result)
  }

  // ---------------------------------------------------------------- the code

  /** Where a goroutine stands; w tells whether it holds KeyModLock for writing or for reading. */
  datatype PC =
    | Want                                   // about to take KeyModLock for reading
    | Look                                   // about to look the key up
    | Release                                // about to let go of the read lock
    | WantWrite                              // about to take KeyModLock for writing
    | LookAgain                              // about to look the key up again, and act if that settles it
    | Found(w: bool, id: nat)                // about to take the slice's lock
    | Held(w: bool, id: nat)                 // about to read the slice
    | Put(w: bool, id: nat, values: Values)  // about to write it
    | Unslice(w: bool, id: nat, r: Result)   // about to let go of the slice's lock
    | Adding(i: nat)                         // a batch with i items added
    | Leave(w: bool, r: Result)              // about to let go of KeyModLock
    | Returned(r: Result)

  /** The header and its locks. */
  datatype Header = Header(
    values: map<string, nat>, heap: map<nat, Values>,
    readers: set<Tid>, writer: Option<Tid>, sliceLock: map<nat, Tid>)
  {
    /** A new slice holding vs, under key. */
    function Insert(key: string, vs: Values): Header {
      this.(values := values[key := |heap|], heap := heap[|heap| := vs])
    }
  }

  /** One step: the header after it, where the goroutine then stands, and the call's result if this is
      the step where the call takes effect. */
  datatype Step = Step(h: Header, pc: PC, logged: Option<Result>)

  predicate Updates(op: Op) {
    op.Add? || op.Set? || op.Modify?
  }

  /** The values AddRawKey, SetValuesRaw or ModifyRawKey stores in place of vs, if it stores any. */
  function NewValues(op: Op, vs: Values): Option<Values>
    requires Updates(op)
  {
    match op
    case Add(_, v) => Some(vs + [v])
    case Set(_, new_) => Some(new_)
    case Modify(_, f) => f(vs)
  }

  predicate Looking(pc: PC) {
    pc.Want? || pc.Look? || pc.Release? || pc.WantWrite?
  }

  /** The first lookup, under the read lock, and changing over to the write lock. */
  function LookStep(h: Header, t: Tid, op: Op, pc: PC): Option<Step>
    requires Looking(pc) && (pc.Look? ==> !op.Batch?)
  {
    match pc
    case Want => if h.writer == None then Some(Step(h.(readers := h.readers + {t}), Look, None)) else None
    case Look =>
      if op.key in h.values then Some(Step(h, if op.Del? then Release else Found(false, h.values[op.key]), None))
      else if op.Del? then Some(Step(h, Leave(false, Deleted(false)), Some(Deleted(false))))
      else Some(Step(h, Release, None))
    case Release => Some(Step(h.(readers := h.readers - {t}), WantWrite, None))
    case WantWrite =>
      if h.writer == None && h.readers == {} then Some(Step(h.(writer := Some(t)), LookAgain, None)) else None
  }

  /** Looking again under the write lock: that settles everything but an update of a key that is there. */
  function LookAgainStep(h: Header, op: Op): Step {
    if op.Batch? then Step(h, Adding(0), None)
    else if op.Del? then
      var was := op.key in h.values;
      Step(if was then h.(values := h.values - {op.key}) else h, Leave(true, Deleted(was)), Some(Deleted(was)))
    else if op.key in h.values then Step(h, Found(true, h.values[op.key]), None)
    else
      match NewValues(op, [])
      case None => Step(h, Leave(true, Refused), Some(Refused))
      case Some(vs) => Step(h.Insert(op.key, vs), Leave(true, Ok), Some(Ok))
  }

  predicate OnSlice(pc: PC) {
    pc.Found? || pc.Held? || pc.Put? || pc.Unslice?
  }

  /** Updating a slice that was found. */
  function SliceStep(h: Header, t: Tid, op: Op, pc: PC): Option<Step>
    requires OnSlice(pc)
  {
    match pc
    case Found(w, id) =>
      if id in h.sliceLock then None else Some(Step(h.(sliceLock := h.sliceLock[id := t]), Held(w, id), None))
    case Held(w, id) =>
      if id !in h.heap || !Updates(op) then None
      else
        (match NewValues(op, h.heap[id])
         case None => Some(Step(h, Unslice(w, id, Refused), Some(Refused)))
         case Some(vs) => Some(Step(h, Put(w, id, vs), None)))
    case Put(w, id, vs) => Some(Step(h.(heap := h.heap[id := vs]), Unslice(w, id, Ok), Some(Ok)))
    case Unslice(w, id, r) => Some(Step(h.(sliceLock := h.sliceLock - {id}), Leave(w, r), None))
  }

  /** A batch adds its next item, with no lock but KeyModLock, or is finished. */
  function BatchStep(h: Header, op: Op, i: nat): Option<Step> {
    if !op.Batch? then None
    else if i >= |op.items| then Some(Step(h, Leave(true, Ok), Some(Ok)))
    else
      var (k, v) := op.items[i];
      if k !in h.values then Some(Step(h.Insert(k, [v]), Adding(i + 1), None))
      else if h.values[k] !in h.heap then None
      else Some(Step(h.(heap := h.heap[h.values[k] := h.heap[h.values[k]] + [v]]), Adding(i + 1), None))
  }

  function LeaveStep(h: Header, t: Tid, w: bool, r: Result): Step {
    Step(if w then h.(writer := None) else h.(readers := h.readers - {t}), Returned(r), None)
  }

  /** The next step of a goroutine, if no lock keeps it from taking it. */
  function Next(h: Header, t: Tid, op: Op, pc: PC): Option<Step> {
    if Looking(pc) then (if pc.Look? && op.Batch? then None else LookStep(h, t, op, pc))
    else if OnSlice(pc) then SliceStep(h, t, op, pc)
    else if pc.LookAgain? then Some(LookAgainStep(h, op))
    else if pc.Adding? then BatchStep(h, op, pc.i)
    else if pc.Leave? then Some(LeaveStep(h, t, pc.w, pc.r))
    else None
  }

  datatype Thread = Thread(op: Op, pc: PC, since: nat)

  /** The header and every call there has been. `log` and `spec` are history: each update is logged at
      the step where it takes effect; `since` is the log's length when the call began. */
  datatype State = State(h: Header, threads: map<Tid, Thread>, log: seq<Entry>, spec: Contents)

  const EMPTY := State(Header(map[], map[], {}, None, map[]), map[], [], map[])

  datatype Event = Call(t: Tid, op: Op) | Move(t: Tid)

  function Apply(s: State, e: Event): Option<State> {
    match e
    case Call(t, op) =>
      if t in s.threads then None
      else Some(s.(threads := s.threads[t := Thread(op, if op.Batch? then WantWrite else Want, |s.log|)]))
    case Move(t) =>
      if t !in s.threads then None
      else
        match Next(s.h, t, s.threads[t].op, s.threads[t].pc)
        case None => None
        case Some(step) => Some(Take(s, t, step))
  }

  function Take(s: State, t: Tid, step: Step): State
    requires t in s.threads
  {
    var op := s.threads[t].op;
    var threads := s.threads[t := s.threads[t].(pc := step.pc)];
    match step.logged
    case None => State(step.h, threads, s.log, s.spec)
    case Some(r) => State(step.h, threads, s.log + [Entry(t, op, r)], Sequential(s.spec, op).0)
  }

  function Exec(s: State, es: seq<Event>): Option<State>
    decreases |es|
  {
    if es == [] then Some(s)
    else match Apply(s, es[0]) case None => None case Some(s1) => Exec(s1, es[1..])
  }
}
