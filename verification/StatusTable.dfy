/** Tables from response statuses to values: four growing arrays indexed by code, padded when they grow.
    The two table types of the program differ only in their values. */
module StatusTables {
  import opened Strconv

  /** 16 bits: the type above, the code below. */
  type Status = s: int | 0 <= s < 0x1_0000

  const TYPE_OK := 0
  const TYPE_REDIRECT := 0x20
  const TYPE_SERVER_ERROR := 0x40
  const TYPE_CLIENT_ERROR := 0x80

  function TypeOf(s: Status): nat {
    s / 0x100
  }

  function CodeOf(s: Status): nat {
    s % 0x100
  }

  predicate ValidType(t: nat) {
    t == TYPE_OK || t == TYPE_REDIRECT || t == TYPE_SERVER_ERROR || t == TYPE_CLIENT_ERROR
  }

  /** A status is its type and its code, and four types are classes. */
  lemma StatusParts(t: nat, code: nat)
    requires t < 0x100 && code < 0x100
    ensures TypeOf(t * 0x100 + code) == t && CodeOf(t * 0x100 + code) == code
    ensures ValidType(t) <==> t in {0x00, 0x20, 0x40, 0x80}
  {
  }

  // ---------------------------------------------------------------- one class of statuses

  /** What has been set in a class, oldest first. */
  type History<T> = seq<(nat, T)>

  function Copies<T>(n: nat, x: T): (r: seq<T>)
    ensures |r| == n && forall i | 0 <= i < n :: r[i] == x
  {
    seq(n, _ => x)
  }

  /** Setting one code: growing the array pads it with its first value, or the default. */
  function Put<T>(slice: seq<T>, dflt: T, code: nat, v: T): seq<T> {
    var l := |slice|;
    if l > code then slice[code := v]
    else slice + Copies(code - l, if l == 0 then dflt else slice[0]) + [v]
  }

  function Slice<T>(h: History<T>, dflt: T): seq<T> {
    if h == [] then [] else Put(Slice(h[..|h| - 1], dflt), dflt, h[|h| - 1].0, h[|h| - 1].1)
  }

  function Lookup<T>(slice: seq<T>, dflt: T, code: nat): T {
    if slice == [] then dflt else if code >= |slice| then slice[0] else slice[code]
  }

  /** The value a code was given last. */
  function LastOf<T>(h: History<T>, code: nat): Option<T> {
    if h == [] then None
    else if h[|h| - 1].0 == code then Some(h[|h| - 1].1)
    else LastOf(h[..|h| - 1], code)
  }

  /** The class's own default: what its code 0 was given last, or the table's default. */
  function ClassDefault<T>(h: History<T>, dflt: T): T {
    var v := LastOf(h, 0);
    if v == None then dflt else v.value
  }

  predicate Passes<T>(h: History<T>, code: nat) {
    exists i | 0 <= i < |h| :: h[i].0 > code
  }

  /** The history up to where a greater code was first set. */
  function Before<T>(h: History<T>, code: nat): History<T> {
    if h == [] then []
    else
      var init := h[..|h| - 1];
      if Passes(init, code) then Before(init, code)
      else if h[|h| - 1].0 > code then init
      else h
  }

  /** What a code reads as after any history: the value it was given last, or else the class default of
      the time when a greater code was first set, if one was. */
  function Reads<T>(h: History<T>, dflt: T, code: nat): T {
    var v := LastOf(h, code);
    if v == None then ClassDefault(Before(h, code), dflt) else v.value
  }

  ghost predicate SliceReads<T>(h: History<T>, dflt: T) {
    var slice := Slice(h, dflt);
    && (forall k | 0 <= k < |slice| :: slice[k] == Reads(h, dflt, k))
    && (forall k | 0 <= k < |slice| :: LastOf(h, k) != None || Passes(h, k))
    && (forall k: nat | k >= |slice| :: LastOf(h, k) == None && !Passes(h, k))
    && (slice == [] ==> h == [])
  }

  lemma NotPassed<T>(h: History<T>, code: nat)
    requires !Passes(h, code)
    ensures Before(h, code) == h
  {
    if h != [] {
      var init := h[..|h| - 1];
      assert forall i | 0 <= i < |init| :: init[i] == h[i];
      assert !(h[|h| - 1].0 > code);
    }
  }

  lemma PassesLast<T>(init: History<T>, p: (nat, T), code: nat)
    ensures Passes(init + [p], code) <==> Passes(init, code) || p.0 > code
  {
    var h := init + [p];
    if Passes(init, code) {
      var i :| 0 <= i < |init| && init[i].0 > code;
      assert h[i].0 > code;
    }
    if p.0 > code {
      assert h[|init|].0 > code;
    }
  }

  /** One more pair: what every code reads as. */
  lemma ReadsLast<T>(init: History<T>, dflt: T, p: (nat, T), code: nat)
    ensures Reads(init + [p], dflt, code) ==
            if p.0 == code then p.1
            else if LastOf(init, code) != None || Passes(init, code) then Reads(init, dflt, code)
            else if p.0 > code then ClassDefault(init, dflt)
            else ClassDefault(init + [p], dflt)
  {
    var h := init + [p];
    assert h[..|h| - 1] == init;
  }

  lemma {:induction false} SliceIsReads<T>(h: History<T>, dflt: T)
    ensures SliceReads(h, dflt)
  {
    if h != [] {
      hide Reads, LastOf, Before, Passes;
      var init, p := h[..|h| - 1], h[|h| - 1];
      assert h == init + [p];
      SliceIsReads(init, dflt);
      SliceStep(init, dflt, p);
    }
  }

  lemma SliceStep<T>(init: History<T>, dflt: T, p: (nat, T))
    requires SliceReads(init, dflt)
    ensures SliceReads(init + [p], dflt)
  {
    hide Reads, LastOf, Before, Passes;
    var h := init + [p];
    var was, slice := Slice(init, dflt), Slice(h, dflt);
    assert h[..|init|] == init;
    assert slice == Put(was, dflt, p.0, p.1);
    FirstReads(init, dflt);
    NothingSet(dflt);
    forall k: nat
      ensures k < |slice| ==> slice[k] == Reads(h, dflt, k) && (LastOf(h, k) != None || Passes(h, k))
      ensures k >= |slice| ==> LastOf(h, k) == None && !Passes(h, k)
    {
      ReadsLast(init, dflt, p, k);
      PassesLast(init, p, k);
      LastLast(init, p, k);
    }
  }

  lemma NothingSet<T>(dflt: T)
    ensures ClassDefault([], dflt) == dflt
  {
  }

  lemma LastLast<T>(init: History<T>, p: (nat, T), code: nat)
    ensures LastOf(init + [p], code) == if p.0 == code then Some(p.1) else LastOf(init, code)
  {
    assert (init + [p])[..|init|] == init;
  }

  /** The first element reads as the class default. */
  lemma FirstReads<T>(h: History<T>, dflt: T)
    ensures Reads(h, dflt, 0) == ClassDefault(h, dflt)
  {
    BeforeUnset(h);
  }

  lemma {:induction false} BeforeUnset<T>(h: History<T>)
    ensures LastOf(h, 0) == None ==> LastOf(Before(h, 0), 0) == None
  {
    if h != [] {
      BeforeUnset(h[..|h| - 1]);
    }
  }

  /** Get on the array of a class. */
  lemma LookupReads<T>(h: History<T>, dflt: T, code: nat)
    ensures Lookup(Slice(h, dflt), dflt, code) == Reads(h, dflt, code)
  {
    hide Slice, Reads, LastOf, Before, Passes, ClassDefault;
    SliceIsReads(h, dflt);
    var slice := Slice(h, dflt);
    NothingSet(dflt);
    if code >= |slice| {
      UnsetReads(h, dflt, code);
      FirstReads(h, dflt);
    }
  }

  lemma UnsetReads<T>(h: History<T>, dflt: T, code: nat)
    requires LastOf(h, code) == None && !Passes(h, code)
    ensures Reads(h, dflt, code) == ClassDefault(h, dflt)
  {
    NotPassed(h, code);
  }

  /** A table meets its promise on a code, the value set last or else the class default, exactly if the code
      was set or the class default is what it was when a greater code was first set. */
  lemma PromiseIff<T>(h: History<T>, dflt: T, code: nat)
    ensures Lookup(Slice(h, dflt), dflt, code) ==
            (if LastOf(h, code) != None then LastOf(h, code).value else ClassDefault(h, dflt)) <==>
            LastOf(h, code) != None || ClassDefault(Before(h, code), dflt) == ClassDefault(h, dflt)
  {
    hide Slice, LastOf, Before, ClassDefault, Lookup;
    LookupReads(h, dflt, code);
  }

  /** Code 0 is set before any other code. */
  predicate ZeroFirst<T>(h: History<T>) {
    forall i, j | 0 <= i < j < |h| && h[j].0 == 0 :: h[i].0 == 0
  }

  lemma {:induction false} ZeroFirstDefault<T>(h: History<T>, dflt: T, code: nat)
    requires ZeroFirst(h)
    ensures ClassDefault(Before(h, code), dflt) == ClassDefault(h, dflt)
  {
    if h != [] {
      var init, p := h[..|h| - 1], h[|h| - 1];
      ZeroFirstDefault(init, dflt, code);
      if Passes(init, code) {
        var i :| 0 <= i < |init| && init[i].0 > code;
        assert h[i].0 > code;
        assert p.0 != 0;
      }
    }
  }

  /** When every class sets its code 0 first, Get keeps the promise on every code. */
  lemma ZeroFirstKeepsPromise<T>(h: History<T>, dflt: T, code: nat)
    requires ZeroFirst(h)
    ensures Lookup(Slice(h, dflt), dflt, code) ==
            if LastOf(h, code) != None then LastOf(h, code).value else ClassDefault(h, dflt)
  {
    ZeroFirstDefault(h, dflt, code);
    PromiseIff(h, dflt, code);
  }

  /** The codes set, in order. */
  function Codes<T>(h: History<T>): seq<nat> {
    seq(|h|, i requires 0 <= i < |h| => h[i].0)
  }

  /** An unset code was passed before some code 0 was set. */
  predicate ZeroTooLate(codes: seq<nat>, code: nat) {
    code !in codes && exists i, j | 0 <= i < j < |codes| :: codes[i] > code && codes[j] == 0
  }

  lemma {:induction false} NeverSet<T>(h: History<T>, code: nat)
    ensures LastOf(h, code) == None <==> code !in Codes(h)
  {
    if h != [] {
      var init, last := h[..|h| - 1], h[|h| - 1];
      NeverSet(init, code);
      assert Codes(h) == Codes(init) + [last.0];
    }
  }

  lemma PassesCodes<T>(h: History<T>, code: nat)
    ensures Passes(h, code) <==> exists i | 0 <= i < |Codes(h)| :: Codes(h)[i] > code
  {
    if Passes(h, code) {
      var i :| 0 <= i < |h| && h[i].0 > code;
      assert Codes(h)[i] > code;
    }
  }

  lemma TooLateLast<T>(init: History<T>, p: (nat, T), code: nat)
    requires code !in Codes(init + [p])
    ensures ZeroTooLate(Codes(init + [p]), code) <==>
            ZeroTooLate(Codes(init), code) || (Passes(init, code) && p.0 == 0)
  {
    var h := init + [p];
    assert Codes(h) == Codes(init) + [p.0];
    PassesCodes(init, code);
    if ZeroTooLate(Codes(h), code) {
      var i, j :| 0 <= i < j < |Codes(h)| && Codes(h)[i] > code && Codes(h)[j] == 0;
      assert i < |init| && Codes(init)[i] > code;
      assert j < |init| ==> Codes(init)[j] == 0;
    }
    if ZeroTooLate(Codes(init), code) {
      var i, j :| 0 <= i < j < |Codes(init)| && Codes(init)[i] > code && Codes(init)[j] == 0;
      assert Codes(h)[i] > code && Codes(h)[j] == 0;
    }
    if Passes(init, code) && p.0 == 0 {
      var i :| 0 <= i < |Codes(init)| && Codes(init)[i] > code;
      assert Codes(h)[i] > code && Codes(h)[|init|] == 0;
    }
  }

  /** Unless code 0 is set too late, the class default is what it was when the code was passed. */
  lemma {:induction false} NotTooLate<T>(h: History<T>, dflt: T, code: nat)
    requires code !in Codes(h) && !ZeroTooLate(Codes(h), code)
    ensures ClassDefault(Before(h, code), dflt) == ClassDefault(h, dflt)
  {
    if h != [] {
      var init, p := h[..|h| - 1], h[|h| - 1];
      assert h == init + [p];
      assert forall c | c in Codes(init) :: c in Codes(h) by {
        assert Codes(h) == Codes(init) + [p.0];
      }
      TooLateLast(init, p, code);
      NotTooLate(init, dflt, code);
    }
  }

  /** Values by position: x up to `last`, y behind. */
  function Valued<T>(codes: seq<nat>, last: int, x: T, y: T): History<T> {
    seq(|codes|, i requires 0 <= i < |codes| => (codes[i], if i <= last then x else y))
  }

  lemma ValuedInit<T>(codes: seq<nat>, last: int, x: T, y: T)
    requires codes != []
    ensures var n, h := |codes| - 1, Valued(codes, last, x, y);
            h[..n] == Valued(codes[..n], last, x, y) && h[n] == (codes[n], if n <= last then x else y)
  {
  }

  lemma {:induction false} OnlyX<T>(codes: seq<nat>, last: int, x: T, y: T)
    requires |codes| <= last + 1
    ensures ClassDefault(Valued(codes, last, x, y), x) == x
  {
    if codes != [] {
      ValuedInit(codes, last, x, y);
      OnlyX(codes[..|codes| - 1], last, x, y);
    }
  }

  lemma {:induction false} EndsInY<T>(codes: seq<nat>, last: int, j: nat, x: T, y: T)
    requires last < j < |codes| && codes[j] == 0
    ensures LastOf(Valued(codes, last, x, y), 0) == Some(y)
  {
    var n := |codes| - 1;
    ValuedInit(codes, last, x, y);
    if codes[n] != 0 {
      EndsInY(codes[..n], last, j, x, y);
    }
  }

  /** With these values, what a code passed by then reads as is x. */
  lemma {:induction false} BeforeIsX<T>(codes: seq<nat>, code: nat, last: nat, x: T, y: T)
    requires last < |codes| && codes[last] > code
    ensures ClassDefault(Before(Valued(codes, last, x, y), code), x) == x
  {
    var n := |codes| - 1;
    var h := Valued(codes, last, x, y);
    ValuedInit(codes, last, x, y);
    if last < n {
      assert h[..n][last].0 > code;
      BeforeIsX(codes[..n], code, last, x, y);
    } else {
      BeforeOnlyX(codes[..n], code, last, x, y);
      OnlyX(codes[..n], last, x, y);
    }
  }

  lemma {:induction false} BeforeOnlyX<T>(codes: seq<nat>, code: nat, last: int, x: T, y: T)
    requires |codes| <= last + 1
    ensures ClassDefault(Before(Valued(codes, last, x, y), code), x) == x
  {
    OnlyX(codes, last, x, y);
    if codes != [] {
      ValuedInit(codes, last, x, y);
      BeforeOnlyX(codes[..|codes| - 1], code, last, x, y);
      OnlyX(codes[..|codes| - 1], last, x, y);
    }
  }

  /** Told from the codes alone: whatever the values and the default, a code reads as its last value or else
      the class default exactly if no code 0 is set after the code was passed unset. */
  lemma PromiseForAllValuesIff<T(!new)>(codes: seq<nat>, code: nat, x: T, y: T)
    requires x != y
    ensures (forall h: History<T>, dflt: T | Codes(h) == codes ::
               Lookup(Slice(h, dflt), dflt, code) ==
               if LastOf(h, code) != None then LastOf(h, code).value else ClassDefault(h, dflt))
            <==> !ZeroTooLate(codes, code)
  {
    hide Slice, LastOf, Before, ClassDefault, Lookup;
    forall h: History<T>, dflt: T | Codes(h) == codes && !ZeroTooLate(codes, code)
      ensures Lookup(Slice(h, dflt), dflt, code) ==
              if LastOf(h, code) != None then LastOf(h, code).value else ClassDefault(h, dflt)
    {
      PromiseIff(h, dflt, code);
      NeverSet(h, code);
      if code !in codes {
        NotTooLate(h, dflt, code);
      }
    }
    if ZeroTooLate(codes, code) {
      var i, j :| 0 <= i < j < |codes| && codes[i] > code && codes[j] == 0;
      var h := Valued(codes, i, x, y);
      assert Codes(h) == codes;
      PromiseIff(h, x, code);
      NeverSet(h, code);
      BeforeIsX(codes, code, i, x, y);
      EndsInY(codes, i, j, x, y);
      DefaultIsLast(h, x);
      assert LastOf(h, code) == None && Lookup(Slice(h, x), x, code) != ClassDefault(h, x);
    }
  }

  lemma DefaultIsLast<T>(h: History<T>, dflt: T)
    ensures LastOf(h, 0).Some? ==> ClassDefault(h, dflt) == LastOf(h, 0).value
  {
  }

  /** Set after its class has grown, code 0 is not what the codes in between read as. */
  lemma LateZero<T>(dflt: T, two: T, zero: T)
    ensures Lookup(Slice([(2, two), (0, zero)], dflt), dflt, 1) == dflt
  {
    var h: History<T> := [(2, two), (0, zero)];
    assert h[..1] == [(2, two)] && h[..1][..0] == [];
    assert Slice([(2, two)], dflt) == [] + Copies(2, dflt) + [two];
  }

  // ---------------------------------------------------------------- the table

  /** The pairs of one class, by code. */
  function OfType<T>(pairs: seq<(Status, T)>, t: nat): History<T> {
    if pairs == [] then []
    else
      var last := pairs[|pairs| - 1];
      OfType(pairs[..|pairs| - 1], t) + (if TypeOf(last.0) == t then [(CodeOf(last.0), last.1)] else [])
  }

  /** The value a status was given last. */
  function LastSet<T>(pairs: seq<(Status, T)>, s: Status): Option<T> {
    if pairs == [] then None
    else if pairs[|pairs| - 1].0 == s then Some(pairs[|pairs| - 1].1)
    else LastSet(pairs[..|pairs| - 1], s)
  }

  /** What a table promises: the last value of a status, or that of its class's code 0, or the default. */
  function Promised<T>(pairs: seq<(Status, T)>, dflt: T, s: Status): T {
    var zero: Status := s - CodeOf(s);
    if !ValidType(TypeOf(s)) then dflt
    else if LastSet(pairs, s) != None then LastSet(pairs, s).value
    else if LastSet(pairs, zero) != None then LastSet(pairs, zero).value
    else dflt
  }

  /** Each class sets its code 0 before its other codes. */
  predicate ZerosFirst<T>(pairs: seq<(Status, T)>) {
    forall i, j | 0 <= i < j < |pairs| ::
      TypeOf(pairs[i].0) == TypeOf(pairs[j].0) && CodeOf(pairs[j].0) == 0 ==> CodeOf(pairs[i].0) == 0
  }

  lemma {:induction false} LastOfType<T>(pairs: seq<(Status, T)>, s: Status)
    ensures LastOf(OfType(pairs, TypeOf(s)), CodeOf(s)) == LastSet(pairs, s)
  {
    if pairs != [] {
      var init, last := pairs[..|pairs| - 1], pairs[|pairs| - 1];
      LastOfType(init, s);
      SameStatus(last.0, s);
      if TypeOf(last.0) == TypeOf(s) {
        LastLast(OfType(init, TypeOf(s)), (CodeOf(last.0), last.1), CodeOf(s));
      } else {
        assert OfType(init, TypeOf(s)) + [] == OfType(init, TypeOf(s));
      }
    }
  }

  lemma SameStatus(a: Status, b: Status)
    ensures a == b <==> TypeOf(a) == TypeOf(b) && CodeOf(a) == CodeOf(b)
  {
  }

  lemma {:induction false} OfTypeFrom<T>(pairs: seq<(Status, T)>, t: nat, i: nat)
    requires i < |OfType(pairs, t)|
    ensures exists k | 0 <= k < |pairs| :: TypeOf(pairs[k].0) == t && CodeOf(pairs[k].0) == OfType(pairs, t)[i].0
  {
    var n := |pairs| - 1;
    if i < |OfType(pairs[..n], t)| {
      OfTypeFrom(pairs[..n], t, i);
      var k :| 0 <= k < n && TypeOf(pairs[..n][k].0) == t && CodeOf(pairs[..n][k].0) == OfType(pairs[..n], t)[i].0;
      assert pairs[k] == pairs[..n][k];
    } else {
      assert TypeOf(pairs[n].0) == t;
    }
  }

  lemma {:induction false} ZerosFirstOfType<T>(pairs: seq<(Status, T)>, t: nat)
    requires ZerosFirst(pairs)
    ensures ZeroFirst(OfType(pairs, t))
  {
    if pairs != [] {
      var n := |pairs| - 1;
      var init, last := OfType(pairs[..n], t), pairs[n];
      ZerosFirstOfType(pairs[..n], t);
      if TypeOf(last.0) == t && CodeOf(last.0) == 0 {
        forall i | 0 <= i < |init|
          ensures init[i].0 == 0
        {
          OfTypeFrom(pairs[..n], t, i);
          var k :| 0 <= k < n && TypeOf(pairs[..n][k].0) == t && CodeOf(pairs[..n][k].0) == init[i].0;
          assert pairs[k] == pairs[..n][k];
        }
      }
    }
  }

  /** A table whose classes set code 0 first keeps its promise on every status. */
  lemma ReadsPromised<T>(pairs: seq<(Status, T)>, dflt: T, s: Status)
    requires ZerosFirst(pairs) && ValidType(TypeOf(s))
    ensures Reads(OfType(pairs, TypeOf(s)), dflt, CodeOf(s)) == Promised(pairs, dflt, s)
  {
    hide Slice, LastOf, Before, OfType, LastSet, Lookup;
    var zero: Status := s - CodeOf(s);
    var h := OfType(pairs, TypeOf(s));
    assert TypeOf(zero) == TypeOf(s) && CodeOf(zero) == 0;
    ZerosFirstOfType(pairs, TypeOf(s));
    ZeroFirstKeepsPromise(h, dflt, CodeOf(s));
    LookupReads(h, dflt, CodeOf(s));
    LastOfType(pairs, s);
    LastOfType(pairs, zero);
  }

  class StatusTable<T> {
    const dflt: T
    var ok: seq<T>
    var redirect: seq<T>
    var clientError: seq<T>
    var serverError: seq<T>
    ghost var history: seq<(Status, T)>

    /** Every array is what the pairs of its class make. */
    ghost predicate Valid()
      reads this
    {
      && ok == Slice(OfType(history, TYPE_OK), dflt)
      && redirect == Slice(OfType(history, TYPE_REDIRECT), dflt)
      && clientError == Slice(OfType(history, TYPE_CLIENT_ERROR), dflt)
      && serverError == Slice(OfType(history, TYPE_SERVER_ERROR), dflt)
    }

    constructor (dflt: T)
      ensures Valid() && history == [] && this.dflt == dflt
    {
      this.dflt := dflt;
      ok, redirect, clientError, serverError := [], [], [], [];
      history := [];
    }

    method Get(s: Status) returns (v: T)
      requires Valid()
      ensures v == if ValidType(TypeOf(s)) then Reads(OfType(history, TypeOf(s)), dflt, CodeOf(s)) else dflt
      ensures ZerosFirst(history) ==> v == Promised(history, dflt, s)
    {
      if ZerosFirst(history) && ValidType(TypeOf(s)) {
        ReadsPromised(history, dflt, s);
      }
      hide Slice, Reads, OfType, LastSet, ZerosFirst;
      var slice: seq<T>;
      var t := TypeOf(s);
      if t == TYPE_OK {
        slice := ok;
      } else if t == TYPE_REDIRECT {
        slice := redirect;
      } else if t == TYPE_CLIENT_ERROR {
        slice := clientError;
      } else if t == TYPE_SERVER_ERROR {
        slice := serverError;
      } else {
        return dflt;
      }
      LookupReads(OfType(history, t), dflt, CodeOf(s));
      if |slice| == 0 {
        return dflt;
      }
      var code := CodeOf(s);
      if code >= |slice| {
        code := 0;
      }
      return slice[code];
    }

    /** The growing of Set, on the array of the class. */
    method Grow(slice: seq<T>, code: nat, v: T) returns (r: seq<T>)
      ensures r == Put(slice, dflt, code, v)
    {
      var l := |slice|;
      if l == code {
        assert slice + Copies(0, dflt) + [v] == slice + [v];
        assert l > 0 ==> slice + Copies(0, slice[0]) + [v] == slice + [v];
        return slice + [v];
      } else if l < code {
        if code == 1 {
          assert slice + Copies(1, dflt) + [v] == slice + [dflt, v];
          return slice + [dflt, v];
        }
        r := slice;
        var d: T;
        if l == 0 {
          d := dflt;
          r := r + [d, d];
          l := 2;
        } else {
          d := slice[0];
          r := r + [d];
          l := l + 1;
        }
        while l < code
          invariant |slice| < l <= code && r == slice + Copies(l - |slice|, d)
        {
          assert Copies(l - |slice|, d) + [d] == Copies(l + 1 - |slice|, d);
          r := r + [d];
          l := l + 1;
        }
        return r + [v];
      } else {
        return slice[code := v];
      }
    }

    /** Set; a status of no class panics. */
    method Set(s: Status, v: T) returns (panicked: bool)
      requires Valid()
      modifies this
      ensures Valid() && panicked == !ValidType(TypeOf(s))
      ensures history == if panicked then old(history) else old(history) + [(s, v)]
    {
      hide Slice, Put;
      var t, code := TypeOf(s), CodeOf(s);
      NextPair(history, (s, v), dflt);
      if t == TYPE_OK {
        ok := Grow(ok, code, v);
      } else if t == TYPE_REDIRECT {
        redirect := Grow(redirect, code, v);
      } else if t == TYPE_CLIENT_ERROR {
        clientError := Grow(clientError, code, v);
      } else if t == TYPE_SERVER_ERROR {
        serverError := Grow(serverError, code, v);
      } else {
        return true;
      }
      history := history + [(s, v)];
      return false;
    }

    /** SetAll: the pairs one after the other, up to the first of no class. */
    method SetAll(pairs: seq<(Status, T)>) returns (panicked: bool)
      requires Valid()
      modifies this
      ensures Valid() && (panicked <==> exists k | 0 <= k < |pairs| :: !ValidType(TypeOf(pairs[k].0)))
      ensures !panicked ==> history == old(history) + pairs
    {
      hide Valid, TypeOf, ValidType;
      for k := 0 to |pairs|
        invariant Valid() && history == old(history) + pairs[..k]
        invariant forall j | 0 <= j < k :: ValidType(TypeOf(pairs[j].0))
      {
        panicked := Set(pairs[k].0, pairs[k].1);
        if panicked {
          return;
        }
        assert pairs[..k + 1] == pairs[..k] + [pairs[k]];
      }
      assert pairs[..|pairs|] == pairs;
      return false;
    }
  }

  /** A new table filled with pairs: None if one of them is of no class, which panics. */
  method NewFromValuePairs<T>(dflt: T, pairs: seq<(Status, T)>) returns (table: Option<StatusTable<T>>)
    ensures table.Some? <==> forall k | 0 <= k < |pairs| :: ValidType(TypeOf(pairs[k].0))
    ensures table.Some? ==> fresh(table.value) && table.value.Valid() && table.value.dflt == dflt
    ensures table.Some? ==> table.value.history == pairs
  {
    var t := new StatusTable<T>(dflt);
    var panicked := t.SetAll(pairs);
    if panicked {
      return None;
    }
    assert [] + pairs == pairs;
    return Some(t);
  }

  lemma NextPair<T>(history: seq<(Status, T)>, p: (Status, T), dflt: T)
    ensures forall t: nat :: Slice(OfType(history + [p], t), dflt) ==
              if TypeOf(p.0) == t then Put(Slice(OfType(history, t), dflt), dflt, CodeOf(p.0), p.1)
              else Slice(OfType(history, t), dflt)
  {
    assert (history + [p])[..|history|] == history;
    forall t: nat
      ensures Slice(OfType(history + [p], t), dflt) ==
              if TypeOf(p.0) == t then Put(Slice(OfType(history, t), dflt), dflt, CodeOf(p.0), p.1)
              else Slice(OfType(history, t), dflt)
    {
      hide Put;
      var h := OfType(history, t);
      assert h + [] == h;
      assert (h + [(CodeOf(p.0), p.1)])[..|h|] == h;
    }
  }
}
