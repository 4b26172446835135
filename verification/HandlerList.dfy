/** Handler lists: singly linked, ordered by stage and priority, walked with a cursor. The three list types
    of the program differ only in their handlers. */
module HandlerLists {
  import opened Strconv
  import opened StableSort

  type Stage = s: int | 0 <= s < 0x100
  type Priority = p: int | 0 <= p < 0x1_0000

  const STAGE_HANDLE: Stage := 97

  /** A handler function and the protocol it wants, "" for any. */
  datatype Handler = Handler(protocol: string, id: nat)

  class Item {
    const handler: Handler
    const stage: Stage
    const priority: Priority
    var next: Item?

    constructor (handler: Handler, stage: Stage, priority: Priority)
      ensures this.handler == handler && this.stage == stage && this.priority == priority
      ensures next == null
    {
      this.handler := handler;
      this.stage := stage;
      this.priority := priority;
      next := null;
    }
  }

  /** Lower stages first, then higher priorities. */
  function Rank(x: Item): int {
    x.stage * 0x1_0000 + (0xFFFF - x.priority)
  }

  predicate GoesBefore(j: Item, i: Item) {
    (j.stage == i.stage && j.priority > i.priority) || j.stage < i.stage
  }

  lemma RankOrders(j: Item, i: Item)
    ensures GoesBefore(j, i) <==> Rank(j) < Rank(i)
  {
  }

  ghost predicate Distinct(s: seq<Item>) {
    forall i, j | 0 <= i < j < |s| :: s[i] != s[j]
  }

  function At(s: seq<Item>, i: nat): Item? {
    if i < |s| then s[i] else null
  }

  /** Each item links to the one behind it, the last to none. */
  ghost predicate Linked(s: seq<Item>)
    reads s
  {
    forall i | 0 <= i < |s| :: s[i].next == At(s, i + 1)
  }

  function Spliced<T>(s: seq<T>, k: nat, x: T): seq<T>
    requires k <= |s|
  {
    s[..k] + [x] + s[k..]
  }

  lemma SplicedAt(s: seq<Item>, k: nat, x: Item, i: nat)
    requires k <= |s|
    ensures At(Spliced(s, k, x), i) == if i < k then At(s, i) else if i == k then x else At(s, i - 1)
  {
  }

  lemma SplicedDistinct(s: seq<Item>, k: nat, x: Item)
    requires k <= |s| && Distinct(s) && x !in s
    ensures Distinct(Spliced(s, k, x))
  {
  }

  /** The links of s, but for j linked in at k. */
  ghost predicate LinkedBut(s: seq<Item>, k: nat, j: Item)
    requires k <= |s|
    reads s, j
  {
    j.next == At(s, k) && forall i | 0 <= i < |s| :: s[i].next == if i + 1 == k then j else At(s, i + 1)
  }

  lemma LinkIn(s: seq<Item>, k: nat, j: Item)
    requires k <= |s| && LinkedBut(s, k, j)
    ensures Linked(Spliced(s, k, j))
  {
    var r := Spliced(s, k, j);
    forall i | 0 <= i < |r|
      ensures r[i].next == At(r, i + 1)
    {
      SplicedAt(s, k, j, i);
      SplicedAt(s, k, j, i + 1);
    }
  }

  lemma SortMembers(s: seq<Item>, x: Item)
    ensures x in Sort(s, Rank) <==> x in s
  {
    SortIsStable(s, Rank);
    assert x in multiset(Sort(s, Rank)) <==> x in multiset(s);
  }

  // ---------------------------------------------------------------- calling

  /** What a handler answers: whether it handled the session, and an error. */
  datatype Reply = Reply(handled: bool, err: Option<string>) {
    predicate Stops() {
      handled || err.Some?
    }
  }

  const NOT_HANDLED := Reply(false, None)

  /** What a handler will answer to this session, given the handlers called on it before. */
  type Session = (seq<Handler>, Handler) -> Reply

  /** An item's part in a call. */
  datatype Entry = Entry(handler: Handler, stage: Stage)

  function Entries(s: seq<Item>): seq<Entry> {
    seq(|s|, i requires 0 <= i < |s| => Entry(s[i].handler, s[i].stage))
  }

  predicate Wants(h: Handler, proto: string) {
    proto == h.protocol || h.protocol == ""
  }

  /** The reply of callFrom, and the handlers called so far. */
  function CallFrom(es: seq<Entry>, proto: string, ses: Session, called: seq<Handler>): (Reply, seq<Handler>)
    decreases |es|
  {
    if es == [] then (NOT_HANDLED, called)
    else
      var h := es[0].handler;
      if !Wants(h, proto) then CallFrom(es[1..], proto, ses, called)
      else
        var reply := ses(called, h);
        if reply.Stops() then (reply, called + [h]) else CallFrom(es[1..], proto, ses, called + [h])
  }

  /** The reply of callFromWithHandler: `extra` comes just before the first item of the Handle stage. */
  function CallFromWith(es: seq<Entry>, extra: Handler, proto: string, ses: Session, called: seq<Handler>):
    (Reply, seq<Handler>)
    decreases |es|
  {
    if es == [] then (NOT_HANDLED, called)
    else if es[0].stage == STAGE_HANDLE then
      if !Wants(extra, proto) then CallFrom(es, proto, ses, called)
      else
        var reply := ses(called, extra);
        if reply.Stops() then (reply, called + [extra]) else CallFrom(es, proto, ses, called + [extra])
    else
      var h := es[0].handler;
      if !Wants(h, proto) then CallFromWith(es[1..], extra, proto, ses, called)
      else
        var reply := ses(called, h);
        if reply.Stops() then (reply, called + [h]) else CallFromWith(es[1..], extra, proto, ses, called + [h])
  }

  /** The first position of the Handle stage, or the length. */
  function FirstHandle(es: seq<Entry>): (k: nat)
    ensures k <= |es|
    ensures forall i | 0 <= i < k :: es[i].stage != 97
    ensures k < |es| ==> es[k].stage == 97
  {
    if es == [] || es[0].stage == STAGE_HANDLE then 0 else 1 + FirstHandle(es[1..])
  }

  /** Calling with an extra handler is calling the list with it spliced in before the Handle stage; on a list
      without that stage it is never called. */
  lemma {:induction false} CallWithIsSpliced(es: seq<Entry>, extra: Handler, proto: string, ses: Session,
                                             called: seq<Handler>)
    ensures var k := FirstHandle(es);
            CallFromWith(es, extra, proto, ses, called) ==
            CallFrom(if k == |es| then es else Spliced(es, k, Entry(extra, STAGE_HANDLE)), proto, ses, called)
    decreases |es|
  {
    var k := FirstHandle(es);
    var x := Entry(extra, STAGE_HANDLE);
    if es != [] {
      if k == 0 {
        assert Spliced(es, 0, x)[1..] == es && Spliced(es, 0, x)[0] == x;
      } else {
        var h := es[0].handler;
        assert FirstHandle(es[1..]) == k - 1;
        if k < |es| {
          SpliceTail(es, k, x);
        }
        if Wants(h, proto) && !ses(called, h).Stops() {
          CallWithIsSpliced(es[1..], extra, proto, ses, called + [h]);
        } else if !Wants(h, proto) {
          CallWithIsSpliced(es[1..], extra, proto, ses, called);
        }
      }
    }
  }

  lemma SpliceTail(es: seq<Entry>, k: nat, x: Entry)
    requires 0 < k < |es|
    ensures Spliced(es, k, x)[0] == es[0] && Spliced(es, k, x)[1..] == Spliced(es[1..], k - 1, x)
  {
  }

  /** The handlers of a list for the session's protocol or for any. */
  function Willing(es: seq<Entry>, proto: string): seq<Handler> {
    if es == [] then []
    else
      var h := es[0].handler;
      (if h.protocol == "" || h.protocol == proto then [h] else []) + Willing(es[1..], proto)
  }

  /** Which handlers those are: the ones at some ascending positions, just where the protocol fits. */
  lemma {:induction false} WillingAt(es: seq<Entry>, proto: string) returns (at: seq<nat>)
    ensures |at| == |Willing(es, proto)|
    ensures forall i, j | 0 <= i < j < |at| :: at[i] < at[j]
    ensures forall i | 0 <= i < |at| :: at[i] < |es| && Willing(es, proto)[i] == es[at[i]].handler
    ensures forall k: nat | k < |es| :: k in at <==> es[k].handler.protocol in ["", proto]
  {
    at := [];
    if es != [] {
      var n := |es| - 1;
      at := WillingAt(es[..n], proto);
      WillingLast(es, proto);
      if es[n].handler.protocol in ["", proto] {
        at := at + [n];
      }
    }
  }

  lemma {:induction false} WillingLast(es: seq<Entry>, proto: string)
    requires es != []
    ensures var n := |es| - 1;
            var h := es[n].handler;
            Willing(es, proto) == Willing(es[..n], proto) + if h.protocol in ["", proto] then [h] else []
  {
    var n := |es| - 1;
    if n > 0 {
      WillingLast(es[1..], proto);
      assert es[1..][..n - 1] == es[..n][1..];
      var h := es[0].handler;
      var first, last := if h.protocol in ["", proto] then [h] else [],
        if es[n].handler.protocol in ["", proto] then [es[n].handler] else [];
      assert first + (Willing(es[..n][1..], proto) + last) == first + Willing(es[..n][1..], proto) + last;
    }
  }

  /** The reply ends a call: the session was handled, or there is an error. */
  predicate Ends(r: Reply) {
    r.handled || r.err.Some?
  }

  /** A call asks the first n willing handlers in list order: all of them, none stopping it; or up to the
      first that stops it, whose reply it returns. */
  predicate Asked(hs: seq<Handler>, ses: Session, called: seq<Handler>, n: nat, reply: Reply)
  {
    && n <= |hs|
    && (forall i | 0 <= i < n - 1 :: !Ends(ses(called + hs[..i], hs[i])))
    && (if n > 0 && Ends(ses(called + hs[..n - 1], hs[n - 1])) then reply == ses(called + hs[..n - 1], hs[n - 1])
        else n == |hs| && reply == Reply(false, None))
  }

  lemma {:induction false} CallAsks(es: seq<Entry>, proto: string, ses: Session, called: seq<Handler>) returns (n: nat)
    ensures var (reply, trace) := CallFrom(es, proto, ses, called);
            Asked(Willing(es, proto), ses, called, n, reply) && trace == called + Willing(es, proto)[..n]
    decreases |es|
  {
    var hs := Willing(es, proto);
    if es == [] {
      n := 0;
    } else {
      var h, rest := es[0].handler, Willing(es[1..], proto);
      if !Wants(h, proto) {
        n := CallAsks(es[1..], proto, ses, called);
        assert hs == rest;
      } else if ses(called, h).Stops() {
        n := 1;
        assert hs == [h] + rest;
        assert called + hs[..0] == called && hs[..1] == [h];
      } else {
        var m := CallAsks(es[1..], proto, ses, called + [h]);
        n := m + 1;
        assert hs == [h] + rest;
        AskedCons(h, rest, ses, called, m, CallFrom(es, proto, ses, called).0);
      }
    }
  }

  lemma AskedCons(h: Handler, rest: seq<Handler>, ses: Session, called: seq<Handler>, m: nat, reply: Reply)
    requires !Ends(ses(called, h)) && Asked(rest, ses, called + [h], m, reply)
    ensures Asked([h] + rest, ses, called, m + 1, reply)
    ensures called + ([h] + rest)[..m + 1] == called + [h] + rest[..m]
  {
    var hs := [h] + rest;
    forall i | 0 <= i <= |rest|
      ensures called + hs[..i + 1] == called + [h] + rest[..i]
    {
      assert hs[..i + 1] == [h] + rest[..i];
    }
    assert called + hs[..0] == called;
    forall i | 0 <= i < m
      ensures !Ends(ses(called + hs[..i], hs[i]))
    {
      if i > 0 {
        assert called + hs[..i - 1 + 1] == called + [h] + rest[..i - 1];
        assert hs[i] == rest[i - 1];
      }
    }
    if m > 0 {
      assert called + hs[..m - 1 + 1] == called + [h] + rest[..m - 1];
      assert hs[m] == rest[m - 1];
    }
  }

  class HandlerList {
    var start: Item?
    ghost var history: seq<Item>   // every item inserted, in order
    ghost var items: seq<Item>     // the items from start on

    /** The links spell out `items`, without a cycle, and they are the stable sort of the history. */
    ghost predicate Valid()
      reads this, items
    {
      items == Sort(history, Rank) && Distinct(items) && start == At(items, 0) && Linked(items)
    }

    constructor ()
      ensures Valid() && history == []
    {
      start := null;
      history := [];
      items := [];
    }

    /** j has been linked in at position k of the list. */
    ghost method Record(j: Item, k: nat)
      requires k <= |items| && items == Sort(history, Rank) && Distinct(items) && j !in items
      requires k > 0 ==> Rank(items[k - 1]) <= Rank(j)
      requires k < |items| ==> Rank(j) < Rank(items[k])
      requires start == (if k == 0 then j else items[0]) && LinkedBut(items, k, j)
      modifies this`items, this`history
      ensures Valid() && history == old(history) + [j]
      ensures items == StableSort.Insert(old(items), j, Rank)
    {
      SortIsStable(history, Rank);
      InsertPosition(items, j, k, Rank);
      SplicedDistinct(items, k, j);
      LinkIn(items, k, j);
      SplicedAt(items, k, j, 0);
      items := Spliced(items, k, j);
      history := history + [j];
      assert history[..|history| - 1] == old(history);
    }

    /** The loop of insert, for an item that does not go first. */
    method InsertBehind(j: Item)
      requires Valid() && start != null && !GoesBefore(j, start) && j !in items && j.next == null
      modifies this, items, j
      ensures Valid() && history == old(history) + [j]
      ensures items == StableSort.Insert(old(items), j, Rank)
    {
      hide Sort, StableSort.Insert, Rank, GoesBefore, Spliced;
      var i := start;
      ghost var n := 0;
      RankOrders(j, items[0]);
      while i.next != null
        invariant n < |items| && i == items[n] && Rank(items[n]) <= Rank(j)
        invariant unchanged(this) && unchanged(j) && unchanged(items)
        decreases |items| - n
      {
        assert items[n].next == At(items, n + 1);
        RankOrders(j, items[n + 1]);
        if GoesBefore(j, i.next) {
          j.next := i.next;
          i.next := j;
          Record(j, n + 1);
          return;
        }
        i := i.next;
        n := n + 1;
      }
      assert items[n].next == At(items, n + 1);
      i.next := j;
      j.next := null;
      Record(j, n + 1);
    }

    /** insert: behind everything of its stage with at least its priority. */
    method Insert(j: Item)
      requires Valid() && j !in history && j.next == null
      modifies this, items, j
      ensures Valid() && history == old(history) + [j]
      ensures items == StableSort.Insert(old(items), j, Rank)
    {
      SortMembers(history, j);
      hide Sort, StableSort.Insert, Rank, GoesBefore, Spliced;
      if start == null {
        start := j;
        Record(j, 0);
      } else if GoesBefore(j, start) {
        j.next := start;
        start := j;
        RankOrders(j, items[0]);
        Record(j, 0);
      } else {
        InsertBehind(j);
      }
    }

    /** What a run of inserts leaves: every item once, by stage, then by falling priority, and items alike in
        both in the order of their insertion. */
    lemma Ordered()
      requires Valid()
      ensures multiset(items) == multiset(history)
      ensures forall i, j | 0 <= i < j < |items| :: !GoesBefore(items[j], items[i])
      ensures forall k :: Bucket(items, k, Rank) == Bucket(history, k, Rank)
    {
      SortIsStable(history, Rank);
      forall i, j | 0 <= i < j < |items|
        ensures !GoesBefore(items[j], items[i])
      {
        RankOrders(items[j], items[i]);
      }
    }

    /** The items from position i on, as calls see them. */
    ghost function From(i: nat): seq<Entry>
      requires i <= |items|
      reads this
    {
      Entries(items[i..])
    }

    lemma FromStep(i: nat)
      requires i < |items|
      ensures From(i) != [] && From(i)[0] == Entry(items[i].handler, items[i].stage) && From(i)[1..] == From(i + 1)
    {
    }

    /** callFrom, with the cursor c at position `at`. */
    method CallFromItem(c: Item, ghost at: nat, proto: string, ses: Session, before: seq<Handler>)
      returns (reply: Reply, called: seq<Handler>)
      requires Valid() && at < |items| && items[at] == c
      ensures (reply, called) == CallFrom(From(at), proto, ses, before)
    {
      hide Sort, Wants, From;
      var c, called' := c, before;
      ghost var at := at;
      ghost var goal := CallFrom(From(at), proto, ses, before);
      while true
        invariant at < |items| && items[at] == c
        invariant goal == CallFrom(From(at), proto, ses, called')
        decreases |items| - at
      {
        FromStep(at);
        if Wants(c.handler, proto) {
          reply := ses(called', c.handler);
          called' := called' + [c.handler];
          if reply.Stops() {
            return reply, called';
          }
        }
        assert c.next == At(items, at + 1);
        if c.next == null {
          assert From(at + 1) == [] by { FromEnd(at + 1); }
          return NOT_HANDLED, called';
        }
        c := c.next;
        at := at + 1;
      }
    }

    lemma FromEnd(i: nat)
      requires i == |items|
      ensures From(i) == []
    {
    }

    /** callFromWithHandler, with the cursor c at position `at`. */
    method CallFromWithHandler(c: Item, ghost at: nat, extra: Handler, proto: string, ses: Session)
      returns (reply: Reply, called: seq<Handler>)
      requires Valid() && at < |items| && items[at] == c
      ensures (reply, called) == CallFromWith(From(at), extra, proto, ses, [])
    {
      hide Sort, Wants, From, CallFrom;
      var c := c;
      called := [];
      ghost var at := at;
      ghost var goal := CallFromWith(From(at), extra, proto, ses, []);
      while true
        invariant at < |items| && items[at] == c
        invariant goal == CallFromWith(From(at), extra, proto, ses, called)
        decreases |items| - at
      {
        FromStep(at);
        if c.stage == STAGE_HANDLE {
          if Wants(extra, proto) {
            reply := ses(called, extra);
            called := called + [extra];
            if reply.Stops() {
              return;
            }
          }
          reply, called := CallFromItem(c, at, proto, ses, called);
          return;
        }
        if Wants(c.handler, proto) {
          reply := ses(called, c.handler);
          called := called + [c.handler];
          if reply.Stops() {
            return;
          }
        }
        assert c.next == At(items, at + 1);
        if c.next == null {
          assert From(at + 1) == [] by { FromEnd(at + 1); }
          return NOT_HANDLED, called;
        }
        c := c.next;
        at := at + 1;
      }
    }

    method Handle(proto: string, ses: Session) returns (reply: Reply, called: seq<Handler>)
      requires Valid()
      ensures (reply, called) == CallFrom(Entries(items), proto, ses, [])
    {
      if start == null {
        return NOT_HANDLED, [];
      }
      assert items[0..] == items;
      reply, called := CallFromItem(start, 0, proto, ses, []);
    }

    method HandleWithHandler(extra: Handler, proto: string, ses: Session) returns (reply: Reply, called: seq<Handler>)
      requires Valid()
      ensures (reply, called) == CallFromWith(Entries(items), extra, proto, ses, [])
    {
      if start == null {
        return NOT_HANDLED, [];
      }
      assert items[0..] == items;
      reply, called := CallFromWithHandler(start, 0, extra, proto, ses);
    }
  }
}
