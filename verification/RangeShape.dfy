/** The shape of merged range lists: tidied lists are separated and tidy, their lengths add up, and what
    merging without sorting puts together are runs of the request. */
module RangeShape {
  import opened Strconv
  import opened StableSort
  import opened Ranges
  import opened RangeCoverage

  // ---------------------------------------------------------------- tidying twice

  /** Neighbours the loop leaves alone. */
  predicate Apart(r1: Range, r2: Range) {
    Join(r1, r2) == None && !IsEmpty(r2)
  }

  ghost predicate AllApart(rs: seq<Range>) {
    forall i | 0 <= i < |rs| - 1 :: Apart(rs[i], rs[i + 1])
  }

  /** The list starts where r1 does, with r1 or with r1 made longer, and is in order and apart. */
  ghost predicate TidyFrom(r1: Range, out: seq<Range>) {
    && out != [] && out[0].start == r1.start && (out[0] == r1 || (r1.start >= 0 && 0 <= r1.end < out[0].end))
    && Sorted(out, Start) && AllApart(out)
  }

  lemma SortedUncons(r: Range, s: seq<Range>)
    requires Sorted([r] + s, Start)
    ensures Sorted(s, Start) && forall i | 0 <= i < |s| :: r.start <= s[i].start
  {
    var all := [r] + s;
    forall i, j | 0 <= i < j < |s|
      ensures Start(s[i]) <= Start(s[j])
    {
      assert Start(all[i + 1]) <= Start(all[j + 1]);
    }
    forall i | 0 <= i < |s|
      ensures r.start <= s[i].start
    {
      assert Start(all[0]) <= Start(all[i + 1]);
    }
  }

  lemma SortedCons(r: Range, s: seq<Range>)
    requires Sorted(s, Start) && forall i | 0 <= i < |s| :: r.start <= s[i].start
    ensures Sorted([r] + s, Start)
  {
    var all := [r] + s;
    forall i, j | 0 <= i < j < |all|
      ensures Start(all[i]) <= Start(all[j])
    {
      assert all[j] == s[j - 1];
      if i > 0 {
        assert all[i] == s[i - 1] && Start(s[i - 1]) <= Start(s[j - 1]);
      }
    }
  }

  lemma SortedHeads(r1: Range, rest: seq<Range>, r: Range)
    requires Sorted([r1] + rest, Start) && rest != [] && r.start == r1.start
    ensures r1.start <= rest[0].start && Sorted(rest, Start) && Sorted([r] + rest[1..], Start)
  {
    hide Sorted;
    SortedUncons(r1, rest);
    assert rest == [rest[0]] + rest[1..];
    SortedUncons(rest[0], rest[1..]);
    assert forall i | 0 <= i < |rest| - 1 :: rest[1..][i] == rest[i + 1];
    SortedCons(r, rest[1..]);
  }

  lemma {:induction false} MergeFromTidy(r1: Range, rest: seq<Range>)
    requires Sorted([r1] + rest, Start)
    ensures TidyFrom(r1, MergeFrom(r1, rest))
    decreases |rest|
  {
    hide Sorted, AllApart, Join;
    if rest == [] {
      OneIsTidy(r1);
    } else {
      var r2 := rest[0];
      SortedHeads(r1, rest, r1);
      if IsEmpty(r2) {
        MergeFromTidy(r1, rest[1..]);
      } else if Join(r1, r2).Some? {
        var r := Join(r1, r2).value;
        JoinSorted(r1, r2);
        SortedHeads(r1, rest, r);
        MergeFromTidy(r, rest[1..]);
      } else {
        assert [r2] + rest[1..] == rest;
        MergeFromTidy(r2, rest[1..]);
        ConsTidy(r1, r2, MergeFrom(r2, rest[1..]));
      }
    }
  }

  lemma OneIsTidy(r: Range)
    ensures TidyFrom(r, [r])
  {
  }

  lemma JoinSorted(r1: Range, r2: Range)
    requires r1.start <= r2.start && Join(r1, r2).Some?
    ensures var r := Join(r1, r2).value;
            r.start == r1.start >= 0 && r1.end >= 0 && (r == r1 || r1.end < r.end)
  {
  }

  lemma ConsTidy(r1: Range, r2: Range, out: seq<Range>)
    requires Apart(r1, r2) && r1.start <= r2.start
    requires TidyFrom(r2, out)
    ensures TidyFrom(r1, [r1] + out)
  {
    var all := [r1] + out;
    assert forall i | 1 <= i < |all| :: all[i] == out[i - 1];
    assert forall i | 0 <= i < |out| :: Start(out[0]) <= Start(out[i]);
    assert Apart(r1, out[0]);
  }

  lemma SortedRemove<T>(s: seq<T>, i: nat, key: T -> int)
    requires i < |s| && Sorted(s, key)
    ensures Sorted(s[..i] + s[i + 1..], key)
  {
    var next := s[..i] + s[i + 1..];
    forall j, k | 0 <= j < k < |next|
      ensures key(next[j]) <= key(next[k])
    {
      assert next[j] == s[if j < i then j else j + 1] && next[k] == s[if k < i then k else k + 1];
    }
  }

  lemma {:induction false} DropSorted(rs: seq<Range>)
    requires Sorted(rs, Start)
    ensures Sorted(DropLeading(rs), Start)
  {
    if rs != [] && rs[0].IsNoLength() {
      SortedRemove(rs, 0, Start);
      assert rs[..0] + rs[1..] == rs[1..];
      DropSorted(rs[1..]);
    }
  }

  /** What TidyRanges returns: sorted, apart, and not starting with a range to drop. */
  lemma TidyIsTidy(rs: seq<Range>)
    requires AllInt64(rs)
    ensures Sorted(Tidy(rs), Start) && AllApart(Tidy(rs))
    ensures Tidy(rs) != [] ==> !Tidy(rs)[0].IsNoLength()
  {
    SortIsStable(rs, Start);
    DropSorted(Sort(rs, Start));
    DropAll(Sort(rs, Start));
    SameElements(Sort(rs, Start), rs, 0, 0);
    var kept := DropLeading(Sort(rs, Start));
    if kept != [] {
      assert kept == [kept[0]] + kept[1..];
      MergeFromTidy(kept[0], kept[1..]);
      var out := MergeFrom(kept[0], kept[1..]);
      MergeFromInt64(kept[0], kept[1..]);
      assert kept[0] in kept && out[0] in out;
    }
  }

  lemma {:induction false} MergeFromInt64(r1: Range, rest: seq<Range>)
    requires r1.Int64() && AllInt64(rest)
    ensures AllInt64(MergeFrom(r1, rest))
    decreases |rest|
  {
    if rest != [] {
      assert rest[0] in rest && forall r | r in rest[1..] :: r in rest;
      if IsEmpty(rest[0]) {
        MergeFromInt64(r1, rest[1..]);
      } else if Join(r1, rest[0]).Some? {
        MergeFromInt64(Join(r1, rest[0]).value, rest[1..]);
      } else {
        MergeFromInt64(rest[0], rest[1..]);
      }
    }
  }

  lemma {:induction false} MergeOfApart(r1: Range, rest: seq<Range>)
    requires AllApart([r1] + rest)
    ensures MergeFrom(r1, rest) == [r1] + rest
    decreases |rest|
  {
    if rest != [] {
      var rs := [r1] + rest;
      assert Apart(rs[0], rs[1]);
      forall i | 0 <= i < |rest| - 1
        ensures Apart(rest[i], rest[i + 1])
      {
        assert rest[i] == rs[i + 1] && rest[i + 1] == rs[i + 1 + 1];
      }
      assert [rest[0]] + rest[1..] == rest;
      MergeOfApart(rest[0], rest[1..]);
    }
  }

  /** Tidying is idempotent, on all lists. */
  lemma TidyTwice(rs: seq<Range>)
    requires AllInt64(rs)
    ensures Tidy(Tidy(rs)) == Tidy(rs)
  {
    var out := Tidy(rs);
    TidyIsTidy(rs);
    SortOfSorted(out, Start);
    if out != [] {
      assert out == [out[0]] + out[1..];
      MergeOfApart(out[0], out[1..]);
    }
  }

  // ---------------------------------------------------------------- merging twice

  predicate ApartFrom(prev: Option<Range>, r: Range) {
    prev == None || Apart(prev.value, r)
  }

  /** Along the loop, no join makes a range that reaches the one kept before it. */
  predicate Calm(prev: Option<Range>, r1: Range, rest: seq<Range>)
    decreases |rest|
  {
    if rest == [] then true
    else if IsEmpty(rest[0]) then Calm(prev, r1, rest[1..])
    else
      match Join(r1, rest[0])
      case Some(r) => ApartFrom(prev, r) && Calm(prev, r, rest[1..])
      case None => Calm(Some(r1), rest[0], rest[1..])
  }

  lemma JoinIsNotEmpty(r1: Range, r2: Range)
    requires Join(r1, r2).Some?
    ensures var r := Join(r1, r2).value;
            0 <= r.start <= r.end && r.start <= r2.start && r2.end <= r.end
    ensures r1.end >= 0 ==> Join(r1, r2).value.start <= r1.start && r1.end <= Join(r1, r2).value.end
  {
  }

  /** What a joined range ends up as is no shorter. */
  lemma {:induction false} JoinedGrows(r1: Range, rest: seq<Range>)
    requires 0 <= r1.start <= r1.end
    ensures MergeFrom(r1, rest) != []
    ensures var r := MergeFrom(r1, rest)[0];
            0 <= r.start <= r1.start && r1.end <= r.end
    decreases |rest|
  {
    if rest != [] {
      if IsEmpty(rest[0]) {
        JoinedGrows(r1, rest[1..]);
      } else if Join(r1, rest[0]).Some? {
        JoinIsNotEmpty(r1, rest[0]);
        JoinedGrows(Join(r1, rest[0]).value, rest[1..]);
      }
    }
  }

  /** What reaches a range reaches a longer one. */
  lemma ReachesLonger(prev: Range, r: Range, longer: Range)
    requires 0 <= longer.start <= r.start <= r.end <= longer.end
    ensures Apart(prev, longer) ==> Apart(prev, r)
  {
  }

  lemma AllApartCons(r: Range, out: seq<Range>)
    requires out != []
    ensures AllApart([r] + out) <==> Apart(r, out[0]) && AllApart(out)
  {
    var all := [r] + out;
    assert all[0] == r && all[1] == out[0];
    assert forall i | 0 <= i < |out| :: all[i + 1] == out[i];
    if AllApart(all) {
      forall i | 0 <= i < |out| - 1
        ensures Apart(out[i], out[i + 1])
      {
        assert Apart(all[i + 1], all[i + 1 + 1]);
      }
    }
    if Apart(r, out[0]) && AllApart(out) {
      forall i | 0 <= i < |all| - 1
        ensures Apart(all[i], all[i + 1])
      {
        assert i > 0 ==> Apart(out[i - 1], out[i - 1 + 1]);
      }
    }
  }

  /** Calm loops are the ones that leave all ranges apart. */
  lemma {:induction false} CalmIff(prev: Option<Range>, r1: Range, rest: seq<Range>)
    requires ApartFrom(prev, r1)
    ensures MergeFrom(r1, rest) != []
    ensures Calm(prev, r1, rest) <==> ApartFrom(prev, MergeFrom(r1, rest)[0]) && AllApart(MergeFrom(r1, rest))
    decreases |rest|
  {
    hide Join, AllApart, IsEmpty;
    if rest == [] {
      OneApart(r1);
    } else if IsEmpty(rest[0]) {
      CalmIff(prev, r1, rest[1..]);
    } else if Join(r1, rest[0]).Some? {
      var r := Join(r1, rest[0]).value;
      JoinIsNotEmpty(r1, rest[0]);
      if ApartFrom(prev, r) {
        CalmIff(prev, r, rest[1..]);
      } else {
        JoinedGrows(r, rest[1..]);
        ReachesLonger(prev.value, r, MergeFrom(r, rest[1..])[0]);
      }
    } else {
      CalmIff(Some(r1), rest[0], rest[1..]);
      AllApartCons(r1, MergeFrom(rest[0], rest[1..]));
    }
  }

  lemma OneApart(r: Range)
    ensures AllApart([r])
  {
  }

  lemma {:induction false} MergeFromFewer(r1: Range, rest: seq<Range>)
    ensures |MergeFrom(r1, rest)| <= 1 + |rest|
    ensures !AllApart([r1] + rest) ==> |MergeFrom(r1, rest)| < 1 + |rest|
    decreases |rest|
  {
    hide Join, AllApart, IsEmpty;
    if rest == [] {
      OneApart(r1);
      assert [r1] + rest == [r1];
    } else {
      AllApartCons(r1, rest);
      if IsEmpty(rest[0]) {
        MergeFromFewer(r1, rest[1..]);
      } else if Join(r1, rest[0]).Some? {
        MergeFromFewer(Join(r1, rest[0]).value, rest[1..]);
      } else {
        MergeFromFewer(rest[0], rest[1..]);
        assert rest == [rest[0]] + rest[1..];
      }
    }
  }

  /** A merged list does not start with a range to drop. */
  lemma {:induction false} MergedHead(r1: Range, rest: seq<Range>)
    requires r1.Int64() && AllInt64(rest) && !r1.IsNoLength()
    ensures MergeFrom(r1, rest) != [] && !MergeFrom(r1, rest)[0].IsNoLength()
    decreases |rest|
  {
    if rest != [] {
      assert rest[0] in rest && forall r | r in rest[1..] :: r in rest;
      if IsEmpty(rest[0]) {
        MergedHead(r1, rest[1..]);
      } else if Join(r1, rest[0]).Some? {
        JoinIsNotEmpty(r1, rest[0]);
        MergedHead(Join(r1, rest[0]).value, rest[1..]);
      }
    }
  }

  /** Merging again changes nothing exactly if the first merge was calm. */
  lemma MergeTwiceIff(rs: seq<Range>)
    requires AllInt64(rs)
    ensures Merge(Merge(rs)) == Merge(rs) <==>
            DropLeading(rs) != [] ==> Calm(None, DropLeading(rs)[0], DropLeading(rs)[1..])
  {
    hide MergeFrom, Calm, AllApart;
    var kept := DropLeading(rs);
    if kept != [] {
      DropAll(rs);
      assert kept[0] in kept && forall r | r in kept[1..] :: r in kept;
      var out := MergeFrom(kept[0], kept[1..]);
      MergedHead(kept[0], kept[1..]);
      CalmIff(None, kept[0], kept[1..]);
      assert out == [out[0]] + out[1..];
      MergeFromFewer(out[0], out[1..]);
      if AllApart(out) {
        MergeOfApart(out[0], out[1..]);
      }
    }
  }

  /** A list whose last range joins the one before and so reaches the first. */
  lemma MergeNotIdempotent()
    ensures var rs := [Range(10, 20), Range(30, 40), Range(15, 35)];
            Merge(rs) == [Range(10, 20), Range(15, 40)] && Merge(Merge(rs)) == [Range(10, 40)]
  {
    var a, b, c := Range(10, 20), Range(30, 40), Range(15, 35);
    assert [a, b, c][1..] == [b, c] && [b, c][1..] == [c] && [c][1..] == [];
    assert MergeFrom(Range(15, 40), []) == [Range(15, 40)];
    assert MergeFrom(b, [c]) == [Range(15, 40)];
    assert [a, Range(15, 40)][1..] == [Range(15, 40)] && [Range(15, 40)][1..] == [];
    assert MergeFrom(Range(10, 40), []) == [Range(10, 40)];
  }

  // ---------------------------------------------------------------- absolute ranges

  ghost predicate AllAbsolute(rs: seq<Range>) {
    forall r | r in rs :: r.IsAbsolute()
  }

  lemma {:induction false} MergeFromAbsolute(r1: Range, rest: seq<Range>)
    requires AllAbsolute([r1] + rest) && r1.start <= r1.end
    ensures forall r | r in MergeFrom(r1, rest) :: 0 <= r.start <= r.end
    decreases |rest|
  {
    assert r1 in [r1] + rest;
    if rest != [] {
      var rs := [r1] + rest;
      assert forall i | 0 <= i < |rest| :: rest[i] == rs[i + 1];
      assert forall r | r in rest :: r in rs;
      if IsEmpty(rest[0]) {
        MergeFromAbsolute(r1, rest[1..]);
      } else if Join(r1, rest[0]).Some? {
        MergeFromAbsolute(Join(r1, rest[0]).value, rest[1..]);
      } else {
        MergeFromAbsolute(rest[0], rest[1..]);
      }
    }
  }

  lemma TidyNotEmpty(rs: seq<Range>)
    requires AllInt64(rs) && AllAbsolute(rs)
    ensures forall r | r in Tidy(rs) :: 0 <= r.start <= r.end
  {
    hide DropLeading, MergeFrom;
    SortIsStable(rs, Start);
    var sorted := Sort(rs, Start);
    SameElements(sorted, rs, 0, 0);
    DropAll(sorted);
    var kept := DropLeading(sorted);
    if kept != [] {
      assert kept[0] in kept && kept == [kept[0]] + kept[1..];
      assert kept[0].start <= kept[0].end;
      MergeFromAbsolute(kept[0], kept[1..]);
    }
  }

  /** On absolute ranges TidyRanges returns ranges that each hold a byte and end before the next starts. */
  lemma TidySeparates(rs: seq<Range>)
    requires AllInt64(rs) && AllAbsolute(rs)
    ensures forall r | r in Tidy(rs) :: 0 <= r.start <= r.end
    ensures forall i | 0 <= i < |Tidy(rs)| - 1 :: Tidy(rs)[i].end < Tidy(rs)[i + 1].start
  {
    hide Tidy, Sort, DropLeading, MergeFrom;
    var out := Tidy(rs);
    TidyIsTidy(rs);
    TidyNotEmpty(rs);
    forall i | 0 <= i < |out| - 1
      ensures out[i].end < out[i + 1].start
    {
      assert out[i] in out && out[i + 1] in out && Apart(out[i], out[i + 1]);
      assert Start(out[i]) <= Start(out[i + 1]);
    }
  }

  function Interval(a: int, b: int): (s: set<int>)
    ensures forall x :: x in s <==> a <= x <= b
    decreases b - a + 1
  {
    if a > b then {} else Interval(a, b - 1) + {b}
  }

  lemma {:induction false} IntervalSize(a: int, b: int)
    requires a <= b + 1
    ensures |Interval(a, b)| == b - a + 1
    decreases b - a + 1
  {
    if a <= b {
      IntervalSize(a, b - 1);
    }
  }

  /** The distinct bytes absolute ranges ask for. */
  function Bytes(rs: seq<Range>): set<int> {
    if rs == [] then {} else Interval(rs[0].start, rs[0].end) + Bytes(rs[1..])
  }

  lemma {:induction false} BytesCovered(rs: seq<Range>, b: int)
    requires AllAbsolute(rs)
    ensures b in Bytes(rs) <==> CoveredBy(rs, b + 1, b)
  {
    if rs != [] {
      assert rs[0] in rs && forall r | r in rs[1..] :: r in rs;
      CoveredByTail(rs, b + 1, b);
      BytesCovered(rs[1..], b);
    }
  }

  function TotalLength(rs: seq<Range>, size: int): int {
    if rs == [] then 0 else rs[0].AbsLength(size) + TotalLength(rs[1..], size)
  }

  /** The length of an absolute range is its number of bytes, but for the one that wraps. */
  lemma AbsLengthIff(r: Range, size: int)
    requires r.Int64() && 0 <= r.start <= r.end
    ensures r.AbsLength(size) == |Interval(r.start, r.end)| <==> r != Range(0, MAX_INT64)
    ensures r.AbsLength(size) <= |Interval(r.start, r.end)|
  {
    IntervalSize(r.start, r.end);
    assert r.Length().1 * size == 0;
  }

  const WORD: int := 0x1_0000_0000_0000_0000

  lemma WrapBy(x: int) returns (k: int)
    ensures Wrap64(x) == x - k * WORD
  {
    k := (x - MIN_INT64) / WORD;
    assert x - MIN_INT64 == k * WORD + (x - MIN_INT64) % WORD;
  }

  /** Wrapping on the way makes no difference. */
  lemma WrapAdd(a: int, b: int)
    ensures Wrap64(Wrap64(a) + Wrap64(b)) == Wrap64(a + b)
  {
    hide Wrap64;
    var i := WrapBy(a);
    var j := WrapBy(b);
    var k := WrapBy(a + b);
    var l := WrapBy(Wrap64(a) + Wrap64(b));
    assert Wrap64(Wrap64(a) + Wrap64(b)) - Wrap64(a + b) == (k - i - j - l) * WORD;
  }

  /** AbsLength of any range is the length it has on data of that size, unless that is no int64 or the range
      goes from a suffix to byte 0 of data that is not empty. */
  lemma AbsLengthExactIff(r: Range, size: int)
    requires r.Int64() && 0 <= size <= MAX_INT64
    ensures var length := r.Abs(size).end - r.Abs(size).start + 1;
            r.AbsLength(size) == length <==> IsInt64(length) && (r.start < 0 && r.end == 0 ==> size == 0)
  {
    hide Wrap64;
    var multiple := r.Length().1;
    var whole := if multiple == 0 then 0 else if multiple == 1 then size else -size;
    assert multiple * size == whole;
    WrapAdd(r.end - r.start, 1);
    WrapAdd(r.end - r.start + 1, whole);
    assert r.AbsLength(size) == Wrap64(r.end - r.start + 1 + whole);
    var k := WrapBy(r.end - r.start + 1 + whole);
  }

  ghost predicate Separate(rs: seq<Range>) {
    && (forall r | r in rs :: 0 <= r.start <= r.end)
    && (forall i | 0 <= i < |rs| - 1 :: rs[i].end < rs[i + 1].start)
  }

  lemma SeparateTail(rs: seq<Range>)
    requires rs != [] && Separate(rs)
    ensures Separate(rs[1..]) && 0 <= rs[0].start <= rs[0].end
    ensures |rs| > 1 ==> rs[0].end < rs[1].start
  {
    assert rs[0] in rs && forall r | r in rs[1..] :: r in rs;
  }

  lemma {:induction false} SeparateAbove(rs: seq<Range>, b: int)
    requires Separate(rs) && b in Bytes(rs)
    ensures b >= rs[0].start
  {
    SeparateTail(rs);
    if b !in Interval(rs[0].start, rs[0].end) {
      SeparateAbove(rs[1..], b);
    }
  }

  lemma SeparateBytes(rs: seq<Range>)
    requires rs != [] && Separate(rs)
    ensures |Bytes(rs)| == |Interval(rs[0].start, rs[0].end)| + |Bytes(rs[1..])|
  {
    SeparateTail(rs);
    var first, more := Interval(rs[0].start, rs[0].end), Bytes(rs[1..]);
    forall b | b in more
      ensures b !in first
    {
      SeparateAbove(rs[1..], b);
    }
    assert first !! more;
  }

  lemma {:induction false} SeparateSum(rs: seq<Range>, size: int)
    requires AllInt64(rs) && Separate(rs)
    ensures TotalLength(rs, size) <= |Bytes(rs)|
    ensures TotalLength(rs, size) == |Bytes(rs)| <==> Range(0, MAX_INT64) !in rs
  {
    if rs != [] {
      assert rs[0] in rs && forall r | r in rs :: r == rs[0] || r in rs[1..];
      assert forall r | r in rs[1..] :: r in rs;
      SeparateTail(rs);
      SeparateBytes(rs);
      hide Separate, Bytes;
      SeparateSum(rs[1..], size);
      AbsLengthIff(rs[0], size);
    }
  }

  /** Some range holds both byte b - 1 and byte b. */
  predicate Bridged(rs: seq<Range>, b: int) {
    exists r | r in rs :: r.start < b <= r.end
  }

  lemma BridgedCons(r: Range, rs: seq<Range>, b: int)
    ensures Bridged([r] + rs, b) <==> r.start < b <= r.end || Bridged(rs, b)
  {
    assert r in [r] + rs && forall x | x in rs :: x in [r] + rs;
  }

  lemma JoinBridges(r1: Range, r2: Range, b: int)
    requires Join(r1, r2).Some? && r1.start <= r2.start
    ensures var r := Join(r1, r2).value;
            r.start < b <= r.end <==> r1.start < b <= r1.end || r2.start < b <= r2.end
  {
  }

  /** Merging ascending ranges makes no bridge and loses none. */
  lemma {:induction false} MergeFromBridges(r1: Range, rest: seq<Range>, b: int)
    requires Sorted([r1] + rest, Start) && forall r | r in rest :: r.IsAbsolute()
    ensures Bridged(MergeFrom(r1, rest), b) <==> Bridged([r1] + rest, b)
    decreases |rest|
  {
    hide Bridged, Sorted, Join, IsEmpty;
    if rest == [] {
      assert [r1] + rest == [r1];
    } else {
      var r2, tail := rest[0], rest[1..];
      assert rest == [r2] + tail && r2 in rest && forall r | r in tail :: r in rest;
      SortedHeads(r1, rest, r1);
      BridgedCons(r1, rest, b);
      BridgedCons(r2, tail, b);
      BridgedCons(r1, tail, b);
      if IsEmpty(r2) {
        MergeFromBridges(r1, tail, b);
        EmptyBridgesNothing(r2, b);
      } else if Join(r1, r2).Some? {
        var r := Join(r1, r2).value;
        JoinSorted(r1, r2);
        SortedHeads(r1, rest, r);
        MergeFromBridges(r, tail, b);
        BridgedCons(r, tail, b);
        JoinBridges(r1, r2, b);
      } else {
        MergeFromBridges(r2, tail, b);
        BridgedCons(r1, MergeFrom(r2, tail), b);
      }
    }
  }

  lemma EmptyBridgesNothing(r: Range, b: int)
    requires IsEmpty(r)
    ensures !(r.start < b <= r.end)
  {
  }

  lemma {:induction false} DropBridges(rs: seq<Range>, b: int)
    requires AllInt64(rs) && AllAbsolute(rs)
    ensures Bridged(DropLeading(rs), b) <==> Bridged(rs, b)
  {
    if rs != [] && rs[0].IsNoLength() {
      assert rs[0] in rs && forall r | r in rs[1..] :: r in rs;
      assert rs == [rs[0]] + rs[1..];
      BridgedCons(rs[0], rs[1..], b);
      DropBridges(rs[1..], b);
      assert IsEmpty(rs[0]);
      EmptyBridgesNothing(rs[0], b);
    }
  }

  lemma TidyBridges(rs: seq<Range>, b: int)
    requires AllInt64(rs) && AllAbsolute(rs)
    ensures Bridged(Tidy(rs), b) <==> Bridged(rs, b)
  {
    hide MergeFrom, DropLeading;
    SortIsStable(rs, Start);
    var sorted := Sort(rs, Start);
    SameElements(sorted, rs, 0, 0);
    DropBridges(sorted, b);
    DropSorted(sorted);
    DropAll(sorted);
    var kept := DropLeading(sorted);
    if kept != [] {
      assert kept == [kept[0]] + kept[1..] && forall r | r in kept[1..] :: r in kept;
      MergeFromBridges(kept[0], kept[1..], b);
    }
  }

  lemma {:induction false} SeparateOrder(rs: seq<Range>, i: nat, j: nat)
    requires Separate(rs) && i < j < |rs|
    ensures rs[i].end < rs[j].start
    decreases j - i
  {
    if i + 1 < j {
      SeparateOrder(rs, i + 1, j);
      assert rs[i + 1] in rs;
    }
  }

  /** The request asks for every position int64 has, by ranges of which each next one overlaps those before. */
  ghost predicate AsksForAll(rs: seq<Range>) {
    (exists r | r in rs :: r.start == 0) && forall b | 0 < b <= MAX_INT64 :: Bridged(rs, b)
  }

  /** Tidying comes to the one range whose length wraps exactly for such requests. */
  lemma WholeIff(rs: seq<Range>)
    requires AllInt64(rs) && AllAbsolute(rs)
    ensures Range(0, MAX_INT64) in Tidy(rs) <==> AsksForAll(rs)
  {
    hide Tidy, Bridged, CoveredBy;
    var out, whole := Tidy(rs), Range(0, MAX_INT64);
    TidySeparates(rs);
    TidyInt64(rs);
    TidyCovers(rs, 1, 0);
    StartAtZero(rs);
    forall b
      ensures Bridged(out, b) <==> Bridged(rs, b)
    {
      TidyBridges(rs, b);
    }
    if whole in out {
      WholeSpans(out);
    }
    if AsksForAll(rs) {
      BridgedThrough(out);
    }
  }

  lemma WholeSpans(out: seq<Range>)
    requires Range(0, MAX_INT64) in out
    ensures CoveredBy(out, 1, 0) && forall b | 0 < b <= MAX_INT64 :: Bridged(out, b)
  {
    assert Covers(Range(0, MAX_INT64), 1, 0);
  }

  /** Byte 0 is asked for by what starts there. */
  lemma StartAtZero(rs: seq<Range>)
    requires AllAbsolute(rs)
    ensures CoveredBy(rs, 1, 0) <==> exists r | r in rs :: r.start == 0
  {
    if r :| r in rs && r.start == 0 {
      assert Covers(r, 1, 0);
    }
  }

  lemma BridgedThrough(out: seq<Range>)
    requires AllInt64(out) && Separate(out) && CoveredBy(out, 1, 0)
    requires forall b | 0 < b <= MAX_INT64 :: Bridged(out, b)
    ensures Range(0, MAX_INT64) in out
  {
    var o :| o in out && Covers(o, 1, 0);
    if o.end < MAX_INT64 {
      assert Bridged(out, o.end + 1);
      var o' :| o' in out && o'.start < o.end + 1 <= o'.end;
      var i :| 0 <= i < |out| && out[i] == o;
      var j :| 0 <= j < |out| && out[j] == o';
      if i < j {
        SeparateOrder(out, i, j);
      } else if j < i {
        SeparateOrder(out, j, i);
      }
    }
  }

  /** Tidied absolute ranges ask for the same distinct bytes, and their lengths add up to how many there
      are, unless the request asks for every position, whose number wraps. */
  lemma TidyLengths(rs: seq<Range>, size: int)
    requires AllInt64(rs) && AllAbsolute(rs)
    ensures Bytes(Tidy(rs)) == Bytes(rs)
    ensures TotalLength(Tidy(rs), size) == |Bytes(rs)| <==> !AsksForAll(rs)
  {
    hide Tidy, Bytes, AsksForAll;
    TidySeparates(rs);
    forall b
      ensures b in Bytes(Tidy(rs)) <==> b in Bytes(rs)
    {
      TidyCovers(rs, b + 1, b);
      BytesCovered(rs, b);
      BytesCovered(Tidy(rs), b);
    }
    TidyInt64(rs);
    SeparateSum(Tidy(rs), size);
    WholeIff(rs);
  }

  lemma TidyInt64(rs: seq<Range>)
    requires AllInt64(rs)
    ensures AllInt64(Tidy(rs))
  {
    SortIsStable(rs, Start);
    var sorted := Sort(rs, Start);
    SameElements(sorted, rs, 0, 0);
    DropAll(sorted);
    var kept := DropLeading(sorted);
    if kept != [] {
      assert kept[0] in kept && forall r | r in kept[1..] :: r in kept;
      MergeFromInt64(kept[0], kept[1..]);
    }
  }

  // ---------------------------------------------------------------- merging in request order

  /** The runs of the request that end up in each range: `block` is what r1 is made of so far. */
  function Blocks(block: seq<Range>, r1: Range, rest: seq<Range>): seq<seq<Range>>
    decreases |rest|
  {
    if rest == [] then [block]
    else if IsEmpty(rest[0]) then Blocks(block, r1, rest[1..])
    else
      match Join(r1, rest[0])
      case Some(r) => Blocks(block + [rest[0]], r, rest[1..])
      case None => [block] + Blocks([rest[0]], rest[0], rest[1..])
  }

  function Flatten(bs: seq<seq<Range>>): seq<Range> {
    if bs == [] then [] else bs[0] + Flatten(bs[1..])
  }

  /** r reaches from the first start to the last end in the block; a block of more than one range has
      absolute ones only. */
  ghost predicate IsHull(r: Range, block: seq<Range>) {
    && block != [] && (|block| > 1 ==> AllAbsolute(block)) && (|block| == 1 ==> r == block[0])
    && (forall x | x in block :: r.start <= x.start && x.end <= r.end)
    && (exists x | x in block :: x.start == r.start) && (exists x | x in block :: x.end == r.end)
  }

  lemma HullGrows(r1: Range, r2: Range, block: seq<Range>)
    requires IsHull(r1, block) && Join(r1, r2).Some? && !r1.OpenEnded()
    ensures IsHull(Join(r1, r2).value, block + [r2])
  {
    var r, more := Join(r1, r2).value, block + [r2];
    assert more[|block|] == r2;
    assert forall x :: x in more <==> x in block || x == r2;
    assert |block| == 1 ==> block[0] in block && forall x | x in block :: x == block[0];
  }

  /** Every range MergeRanges keeps is the hull of one contiguous run of the non-empty ranges asked for,
      and the runs, in order, are all of them: data asked for first comes first. */
  lemma {:induction false} MergeFromBlocks(block: seq<Range>, r1: Range, rest: seq<Range>)
    requires IsHull(r1, block) && !r1.OpenEnded() && forall r | r in rest :: !r.OpenEnded()
    ensures var out, bs := MergeFrom(r1, rest), Blocks(block, r1, rest);
            && Flatten(bs) == block + NonEmpty(rest)
            && |bs| == |out| && forall i | 0 <= i < |out| :: IsHull(out[i], bs[i])
    decreases |rest|
  {
    hide IsHull, Join, IsEmpty, Flatten;
    if rest == [] {
      FlattenCons(block, []);
      assert [block] + [] == [block];
    } else {
      var r2, s := rest[0], NonEmpty(rest[1..]);
      assert r2 in rest && forall r | r in rest[1..] :: r in rest;
      if IsEmpty(r2) {
        MergeFromBlocks(block, r1, rest[1..]);
        assert [] + s == s;
      } else if Join(r1, r2).Some? {
        HullGrows(r1, r2, block);
        JoinOpen(r1, r2);
        MergeFromBlocks(block + [r2], Join(r1, r2).value, rest[1..]);
        Regroup(block, [r2], s);
      } else {
        SingleHull(r2);
        MergeFromBlocks([r2], r2, rest[1..]);
        FlattenCons(block, Blocks([r2], r2, rest[1..]));
      }
    }
  }

  lemma FlattenCons(block: seq<Range>, more: seq<seq<Range>>)
    ensures Flatten([]) == [] && Flatten([block] + more) == block + Flatten(more)
  {
    assert ([block] + more)[1..] == more;
  }

  lemma JoinOpen(r1: Range, r2: Range)
    requires Join(r1, r2).Some? && !r1.OpenEnded()
    ensures !Join(r1, r2).value.OpenEnded()
  {
  }

  lemma SingleHull(r: Range)
    ensures IsHull(r, [r])
  {
    assert r in [r];
  }

  /** The whole of MergeRanges, on lists without open-ended ranges. */
  lemma MergeBlocks(rs: seq<Range>) returns (bs: seq<seq<Range>>)
    requires AllInt64(rs) && forall r | r in rs :: !r.OpenEnded()
    ensures Flatten(bs) == NonEmpty(DropLeading(rs))
    ensures |bs| == |Merge(rs)| && forall i | 0 <= i < |bs| :: IsHull(Merge(rs)[i], bs[i])
  {
    var kept := DropLeading(rs);
    if kept == [] {
      bs := [];
    } else {
      DropAll(rs);
      assert kept[0] in kept && forall r | r in kept[1..] :: r in kept;
      SingleHull(kept[0]);
      MergeFromBlocks([kept[0]], kept[0], kept[1..]);
      bs := Blocks([kept[0]], kept[0], kept[1..]);
      NotEmpty(kept[0]);
      assert kept == [kept[0]] + kept[1..];
    }
  }

  lemma NotEmpty(r: Range)
    requires !r.IsNoLength()
    ensures r.Int64() ==> !IsEmpty(r)
  {
  }
}
