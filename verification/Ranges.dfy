/** Byte ranges, sorting and merging them in place, and what that does to the bytes they cover. */
module Ranges {
  import opened Strconv
  import opened StableSort

  /** Both ends are inclusive; a negative one counts from the end of the data. Ends are int64. */
  datatype Range = Range(start: int, end: int) {
    predicate Int64() {
      IsInt64(start) && IsInt64(end)
    }

    predicate IsAbsolute() {
      start >= 0 && end >= 0
    }

    /** The range on data of the given size. */
    function Abs(size: int): Range {
      Range(if start < 0 then start + size else start, if end < 0 then end + size else end)
    }

    /** Starts at a fixed byte but ends relative to the end of the data. */
    predicate OpenEnded() {
      start >= 0 && end < 0
    }

    predicate IsNoLength() {
      if start < 0 && end > 0 then false
      else if end < 0 then false
      else Wrap64(end - start) < 0
    }

    /** Length and the multiple of the size to add to it, in wrapping int64 arithmetic. */
    function Length(): (int, int) {
      (Wrap64(Wrap64(end - start) + 1),
       if start < 0 then (if end > 0 then -1 else 0) else if end < 0 then 1 else 0)
    }

    function AbsLength(size: int): int {
      Wrap64(Length().0 + Wrap64(Length().1 * size))
    }
  }

  function Start(r: Range): int {
    r.start
  }

  // ---------------------------------------------------------------- merging, on values

  predicate IsEmpty(r: Range) {
    r.IsAbsolute() && r.end < r.start
  }

  /** r2 merged into r1, if the loop of MergeRanges merges them. */
  function Join(r1: Range, r2: Range): Option<Range> {
    if !r2.IsAbsolute() || IsEmpty(r2) || r1.start < 0 then None
    else if r1.start <= r2.start then
      if r2.start <= r1.end then Some(Range(r1.start, if r1.end < r2.end then r2.end else r1.end)) else None
    else
      if r1.start <= r2.end then Some(Range(r2.start, if r1.end < r2.end then r2.end else r1.end)) else None
  }

  /** The rest of the loop, with r1 the last range kept. */
  function MergeFrom(r1: Range, rest: seq<Range>): seq<Range>
    decreases |rest|
  {
    if rest == [] then [r1]
    else if IsEmpty(rest[0]) then MergeFrom(r1, rest[1..])
    else
      match Join(r1, rest[0])
      case Some(r) => MergeFrom(r, rest[1..])
      case None => [r1] + MergeFrom(rest[0], rest[1..])
  }

  function DropLeading(rs: seq<Range>): (r: seq<Range>)
    ensures r != [] ==> !r[0].IsNoLength()
  {
    if rs != [] && rs[0].IsNoLength() then DropLeading(rs[1..]) else rs
  }

  function Merge(rs: seq<Range>): seq<Range> {
    var kept := DropLeading(rs);
    if kept == [] then [] else MergeFrom(kept[0], kept[1..])
  }

  function Tidy(rs: seq<Range>): seq<Range> {
    Merge(Sort(rs, Start))
  }

  // ---------------------------------------------------------------- in place

  /** The inner loop of the insertion sort: a[i] sinks to its place in the sorted a[..i]. */
  method SinkLast(a: array<Range>, i: nat)
    requires i < a.Length && Sorted(a[..i], Start)
    modifies a
    ensures a[..i + 1] == Insert(old(a[..i]), old(a[i]), Start)
    ensures a[i + 1..] == old(a[i + 1..])
  {
    hide Sorted, Insert;
    var r := a[i];
    ghost var sorted := a[..i];
    var j := i - 1;
    while 0 <= j && r.start < a[j].start
      invariant -1 <= j < i && a[j + 1] == r
      invariant forall k | 0 <= k <= j :: a[k] == sorted[k]
      invariant forall k | j + 2 <= k <= i :: a[k] == sorted[k - 1]
      invariant forall k | i < k < a.Length :: a[k] == old(a[k])
      invariant j + 1 < i ==> r.start < sorted[j + 1].start
      decreases j
    {
      a[j + 1] := a[j];
      a[j] := r;
      j := j - 1;
    }
    Assembled(sorted, r, j + 1, a[..i + 1]);
  }

  lemma Assembled(sorted: seq<Range>, r: Range, m: nat, b: seq<Range>)
    requires Sorted(sorted, Start) && m <= |sorted| && |b| == |sorted| + 1
    requires m > 0 ==> sorted[m - 1].start <= r.start
    requires m < |sorted| ==> r.start < sorted[m].start
    requires b[m] == r && forall k | 0 <= k < m :: b[k] == sorted[k]
    requires forall k | m < k < |b| :: b[k] == sorted[k - 1]
    ensures b == Insert(sorted, r, Start)
  {
    InsertPosition(sorted, r, m, Start);
  }

  /** Insertion sort, in place: the stable sort by start. */
  method SortRanges(a: array<Range>)
    modifies a
    ensures a[..] == Sort(old(a[..]), Start)
  {
    ghost var was := a[..];
    var i := 1;
    while i < a.Length
      invariant 1 <= i
      invariant i <= a.Length ==> a[..i] == Sort(was[..i], Start) && a[i..] == was[i..]
      invariant a.Length < i ==> a.Length == 0
    {
      SortIsStable(was[..i], Start);
      SinkLast(a, i);
      assert was[..i + 1][..i] == was[..i];
      i := i + 1;
    }
    assert a[..] == a[..a.Length] && was == was[..a.Length];
  }

  /** Removes a[i] from a[..hi], moving what follows down: copy(rs[i:], rs[i+1:]) and reslicing. */
  method RemoveAt(a: array<Range>, lo: nat, i: nat, hi: nat) returns (hi': nat)
    requires lo <= i < hi <= a.Length
    modifies a
    ensures hi' == hi - 1
    ensures a[lo..i] == old(a[lo..i]) && a[i..hi'] == old(a[i + 1..hi])
  {
    forall k | i <= k < hi - 1 {
      a[k] := a[k + 1];
    }
    hi' := hi - 1;
  }

  /** MergeRanges on the slice a[lo..hi]; the result is the slice a[lo'..hi']. */
  method MergeRanges(a: array<Range>, lo: nat, hi: nat) returns (lo': nat, hi': nat)
    requires lo <= hi <= a.Length
    modifies a
    ensures lo <= lo' <= hi' <= hi
    ensures a[lo'..hi'] == Merge(old(a[lo..hi]))
    decreases hi - lo
  {
    hide MergeFrom;
    if lo == hi {
      return lo, hi;
    }
    ghost var was := a[lo..hi];
    assert was[1..] == a[lo + 1..hi];
    if a[lo].IsNoLength() {
      lo', hi' := MergeRanges(a, lo + 1, hi);
      return;
    }
    lo' := lo;
    hi' := MergeKept(a, lo, hi);
  }

  /** The loop of MergeRanges, which keeps a[lo] or what it is merged into. */
  method MergeKept(a: array<Range>, lo: nat, hi: nat) returns (hi': nat)
    requires lo < hi <= a.Length
    modifies a
    ensures lo < hi' <= hi
    ensures a[lo..hi'] == MergeFrom(old(a[lo]), old(a[lo + 1..hi]))
  {
    hide MergeFrom;
    var r1 := a[lo];
    ghost var goal, done := MergeFrom(r1, a[lo + 1..hi]), [];
    hi' := hi;
    var i := lo + 1;
    assert goal == done + MergeFrom(r1, a[i..hi']);
    while i < hi'
      invariant lo < i <= hi' <= hi
      invariant a[lo..i] == done + [r1]
      invariant goal == done + MergeFrom(r1, a[i..hi'])
      decreases hi' - i
    {
      assert r1 == a[lo..i][|done|] && a[i - 1] == r1;
      var r2 := a[i];
      MergeStep(r1, a[i..hi'], a[i + 1..hi']);
      if r2.start >= 0 {
        if r2.end >= 0 {
          if r2.end < r2.start {
            hi' := RemoveAt(a, lo, i, hi');
            continue;
          }
          if r1.start >= 0 {
            if r1.start <= r2.start {
              if r2.start <= r1.end {
                if r1.end < r2.end {
                  r1 := Range(r1.start, r2.end);
                  a[i - 1] := Range(a[i - 1].start, r2.end);
                }
                assert a[lo..i] == done + [r1];
                hi' := RemoveAt(a, lo, i, hi');
                continue;
              }
            } else {
              if r1.start <= r2.end {
                r1 := Range(r2.start, r1.end);
                if r1.end < r2.end {
                  r1 := Range(r1.start, r2.end);
                }
                a[i - 1] := r1;
                assert a[lo..i] == done + [r1];
                hi' := RemoveAt(a, lo, i, hi');
                continue;
              }
            }
          }
        }
      }
      assert a[lo..i + 1] == done + [r1] + [r2];
      Regroup(done, [r1], MergeFrom(r2, a[i + 1..hi']));
      done := done + [r1];
      r1 := r2;
      i := i + 1;
    }
    MergeEnd(r1);
    assert i == hi' && a[i..hi'] == [] && goal == a[lo..i];
  }

  lemma MergeStep(r1: Range, rest: seq<Range>, more: seq<Range>)
    requires rest != [] && more == rest[1..]
    ensures MergeFrom(r1, rest) ==
            if IsEmpty(rest[0]) then MergeFrom(r1, more)
            else match Join(r1, rest[0]) case Some(r) => MergeFrom(r, more) case None => [r1] + MergeFrom(rest[0], more)
  {
  }

  lemma MergeEnd(r1: Range)
    ensures MergeFrom(r1, []) == [r1]
  {
  }

  method TidyRanges(a: array<Range>) returns (lo: nat, hi: nat)
    modifies a
    ensures lo <= hi <= a.Length && a[lo..hi] == Tidy(old(a[..]))
  {
    SortRanges(a);
    assert a[..] == a[0..a.Length];
    lo, hi := MergeRanges(a, 0, a.Length);
  }
}
