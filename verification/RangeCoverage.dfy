/** What sorting and merging ranges does to the bytes they stand for. */
module RangeCoverage {
  import opened Strconv
  import opened StableSort
  import opened Ranges

  /** Byte b of n bytes of data is asked for by r. */
  predicate Covers(r: Range, n: int, b: int) {
    0 <= b < n && r.Abs(n).start <= b <= r.Abs(n).end
  }

  /** Which bytes those are: from the start on or the last so many, and up to the end or but for the last so
      many but one. */
  lemma CoversMeans(first: nat, last: nat, k: nat, j: nat, n: int, b: int)
    requires k > 0 && j > 0
    ensures Covers(Range(first, last), n, b) <==> b < n && first <= b <= last
    ensures Covers(Range(first, 0 - j), n, b) <==> first <= b && j <= n - b
    ensures Covers(Range(0 - k, last), n, b) <==> 0 <= b <= last && 0 < n - b <= k
    ensures Covers(Range(0 - k, 0 - j), n, b) <==> 0 <= b && j <= n - b <= k
  {
  }

  predicate CoveredBy(rs: seq<Range>, n: int, b: int) {
    exists r | r in rs :: Covers(r, n, b)
  }

  ghost predicate AllInt64(rs: seq<Range>) {
    forall r | r in rs :: r.Int64()
  }

  /** The start of the smallest int64 and the end 0: the one range whose length wraps to nothing. */
  const WRAPPED: Range := Range(MIN_INT64, 0)

  lemma EmptyCoversNothing(r: Range, n: int, b: int)
    requires r.Int64() && r.IsNoLength() && r != WRAPPED
    ensures !Covers(r, n, b)
  {
  }

  /** The ranges without a length are those that end before they start, and one whose length wraps. */
  lemma NoLengthIff(r: Range)
    requires r.Int64()
    ensures r.IsNoLength() <==> 0 <= r.end < r.start || r == WRAPPED
  {
  }

  /** A leading range is dropped as having no length: it asks for no byte of any data, unless it is the
      one range whose length wraps, which asks for the first byte. */
  lemma DropSafeIff(r: Range)
    requires r.Int64() && r.IsNoLength()
    ensures (forall n, b | 0 <= n <= MAX_INT64 :: !Covers(r, n, b)) <==> r != WRAPPED
  {
    if r == WRAPPED {
      assert Covers(r, 1, 0);
    } else {
      forall n, b | 0 <= n <= MAX_INT64
        ensures !Covers(r, n, b)
      {
        EmptyCoversNothing(r, n, b);
      }
    }
  }

  lemma JoinCovers(r1: Range, r2: Range, n: int, b: int)
    requires Join(r1, r2).Some? && r1.end >= 0
    ensures Covers(Join(r1, r2).value, n, b) <==> Covers(r1, n, b) || Covers(r2, n, b)
  {
  }

  /** Merging two ranges keeps their bytes for all sizes of data exactly if the first is not open-ended,
      or the second reaches as far on the largest data. */
  lemma JoinSafeIff(r1: Range, r2: Range)
    requires r1.Int64() && r2.Int64() && Join(r1, r2).Some?
    ensures (forall n, b | 0 <= n <= MAX_INT64 ::
               Covers(Join(r1, r2).value, n, b) <==> Covers(r1, n, b) || Covers(r2, n, b))
            <==> r1.end >= 0 || MAX_INT64 + r1.end <= r2.end
  {
    var r := Join(r1, r2).value;
    if r1.end < 0 && MAX_INT64 + r1.end > r2.end {
      assert Covers(r1, MAX_INT64, r2.end + 1) && !Covers(r, MAX_INT64, r2.end + 1);
    }
  }

  // ---------------------------------------------------------------- coverage is kept

  lemma CoveredByCons(r: Range, rs: seq<Range>, n: int, b: int)
    ensures CoveredBy([r] + rs, n, b) <==> Covers(r, n, b) || CoveredBy(rs, n, b)
  {
    assert r in [r] + rs;
    assert forall x | x in rs :: x in [r] + rs;
  }

  lemma CoveredByTail(rs: seq<Range>, n: int, b: int)
    requires rs != []
    ensures CoveredBy(rs, n, b) <==> Covers(rs[0], n, b) || CoveredBy(rs[1..], n, b)
  {
    CoveredByCons(rs[0], rs[1..], n, b);
    assert rs == [rs[0]] + rs[1..];
  }

  /** Merging never meets an open-ended range to shorten: there is none, or the starts ascend. */
  ghost predicate Mergeable(rs: seq<Range>) {
    Sorted(rs, Start) || forall r | r in rs :: !r.OpenEnded()
  }

  /** Replacing the first two ranges by their join keeps a list mergeable. */
  lemma JoinMergeable(r1: Range, rest: seq<Range>)
    requires rest != [] && Mergeable([r1] + rest) && Join(r1, rest[0]).Some?
    ensures r1.end >= 0
    ensures Mergeable([Join(r1, rest[0]).value] + rest[1..])
  {
    var rs, next := [r1] + rest, [Join(r1, rest[0]).value] + rest[1..];
    assert rs[0] == r1 && rs[1] == rest[0];
    assert Sorted(rs, Start) ==> Start(rs[0]) <= Start(rs[1]);
    assert forall i | 1 <= i < |next| :: next[i] == rs[i + 1];
    assert r1 in rs && rest[0] in rs && forall r | r in rest[1..] :: r in rs;
  }

  lemma RemoveMergeable(rs: seq<Range>, i: nat)
    requires i < |rs| && Mergeable(rs)
    ensures Mergeable(rs[..i] + rs[i + 1..])
  {
    var next := rs[..i] + rs[i + 1..];
    if Sorted(rs, Start) {
      forall j, k | 0 <= j < k < |next|
        ensures Start(next[j]) <= Start(next[k])
      {
        assert next[j] == rs[if j < i then j else j + 1] && next[k] == rs[if k < i then k else k + 1];
      }
    }
  }

  lemma SkipMergeable(r1: Range, rest: seq<Range>)
    requires rest != [] && Mergeable([r1] + rest)
    ensures Mergeable([r1] + rest[1..]) && Mergeable(rest)
  {
    hide Mergeable;
    var rs := [r1] + rest;
    RemoveMergeable(rs, 0);
    RemoveMergeable(rs, 1);
    assert rs[..0] + rs[1..] == rest;
    assert rs[..1] + rs[2..] == [r1] + rest[1..];
  }

  lemma {:induction false} MergeFromCovers(r1: Range, rest: seq<Range>, n: int, b: int)
    requires Mergeable([r1] + rest)
    ensures CoveredBy(MergeFrom(r1, rest), n, b) <==> Covers(r1, n, b) || CoveredBy(rest, n, b)
    decreases |rest|
  {
    hide CoveredBy, Mergeable, Covers;
    if rest == [] {
      CoveredByCons(r1, [], n, b);
      assert [r1] + [] == [r1];
    } else {
      var r2 := rest[0];
      CoveredByTail(rest, n, b);
      SkipMergeable(r1, rest);
      if IsEmpty(r2) {
        EmptyCovers(r2, n, b);
        MergeFromCovers(r1, rest[1..], n, b);
      } else if Join(r1, r2).Some? {
        JoinMergeable(r1, rest);
        JoinCovers(r1, r2, n, b);
        MergeFromCovers(Join(r1, r2).value, rest[1..], n, b);
      } else {
        assert rest == [r2] + rest[1..];
        MergeFromCovers(r2, rest[1..], n, b);
        CoveredByCons(r1, MergeFrom(r2, rest[1..]), n, b);
      }
    }
  }

  lemma EmptyCovers(r: Range, n: int, b: int)
    requires IsEmpty(r)
    ensures !Covers(r, n, b)
  {
  }

  lemma TailMergeable(rs: seq<Range>)
    requires rs != [] && Mergeable(rs)
    ensures Mergeable(rs[1..])
  {
    assert rs == [rs[0]] + rs[1..];
    if |rs| > 1 {
      SkipMergeable(rs[0], rs[1..]);
    }
  }

  /** MergeRanges asks for the bytes its argument asks for once leading ranges are dropped. */
  lemma {:induction false} MergeCoversKept(rs: seq<Range>, n: int, b: int)
    requires Mergeable(rs)
    ensures CoveredBy(Merge(rs), n, b) <==> CoveredBy(DropLeading(rs), n, b)
  {
    if rs != [] && rs[0].IsNoLength() {
      TailMergeable(rs);
      MergeCoversKept(rs[1..], n, b);
    } else if rs != [] {
      assert rs == [rs[0]] + rs[1..];
      MergeFromCovers(rs[0], rs[1..], n, b);
      CoveredByTail(rs, n, b);
    }
  }

  /** Dropping loses no byte but the first, and that one only with the wrapped range. */
  lemma {:induction false} DropCovers(rs: seq<Range>, n: int, b: int)
    requires AllInt64(rs)
    ensures CoveredBy(DropLeading(rs), n, b) ==> CoveredBy(rs, n, b)
    ensures b != 0 || WRAPPED !in rs ==> (CoveredBy(DropLeading(rs), n, b) <==> CoveredBy(rs, n, b))
  {
    if rs != [] && rs[0].IsNoLength() {
      assert forall r | r in rs[1..] :: r in rs;
      DropCovers(rs[1..], n, b);
      CoveredByTail(rs, n, b);
      assert rs[0] in rs;
      if rs[0] != WRAPPED {
        EmptyCoversNothing(rs[0], n, b);
      }
    }
  }

  lemma SameElements(a: seq<Range>, b: seq<Range>, n: int, x: int)
    requires multiset(a) == multiset(b)
    ensures CoveredBy(a, n, x) <==> CoveredBy(b, n, x)
    ensures forall r :: r in a <==> r in b
  {
    assert forall r :: r in a <==> r in multiset(a);
    assert forall r :: r in b <==> r in multiset(b);
  }

  /** MergeRanges without sorting keeps the bytes of every size of data, on lists with no open-ended
      range. */
  lemma MergeCovers(rs: seq<Range>, n: int, b: int)
    requires AllInt64(rs) && WRAPPED !in rs && (forall r | r in rs :: !r.OpenEnded())
    ensures CoveredBy(Merge(rs), n, b) <==> CoveredBy(rs, n, b)
  {
    MergeCoversKept(rs, n, b);
    DropCovers(rs, n, b);
  }

  function NonEmpty(rs: seq<Range>): seq<Range> {
    if rs == [] then [] else (if IsEmpty(rs[0]) then [] else [rs[0]]) + NonEmpty(rs[1..])
  }

  /** An open-ended range directly before an absolute one that starts earlier and reaches it. */
  predicate Swallowed(r: Range, next: Range) {
    r.OpenEnded() && next.IsAbsolute() && next.start < r.start <= next.end
  }

  predicate HeadSwallowed(s: seq<Range>) {
    |s| > 1 && Swallowed(s[0], s[1])
  }

  /** The ranges of a request whose bytes merging keeps, and those it loses, by their neighbours. */
  function Survivors(s: seq<Range>): seq<Range> {
    if s == [] then [] else (if HeadSwallowed(s) then [] else [s[0]]) + Survivors(s[1..])
  }

  function Lost(s: seq<Range>): seq<Range> {
    if s == [] then [] else (if HeadSwallowed(s) then [s[0]] else []) + Lost(s[1..])
  }

  lemma CoveredByFirst(c: bool, r: Range, rs: seq<Range>, n: int, b: int)
    ensures CoveredBy((if c then [r] else []) + rs, n, b) <==> (c && Covers(r, n, b)) || CoveredBy(rs, n, b)
    ensures (if !c then [] else [r]) == if c then [r] else []
  {
    if c {
      CoveredByCons(r, rs, n, b);
    } else {
      assert [] + rs == rs;
    }
  }

  lemma SurvivorsCons(r: Range, s: seq<Range>, n: int, b: int)
    ensures CoveredBy(Survivors([r] + s), n, b) <==>
            (!(s != [] && Swallowed(r, s[0])) && Covers(r, n, b)) || CoveredBy(Survivors(s), n, b)
    ensures CoveredBy(Lost([r] + s), n, b) <==>
            (s != [] && Swallowed(r, s[0]) && Covers(r, n, b)) || CoveredBy(Lost(s), n, b)
  {
    hide Covers, CoveredBy, Swallowed;
    var all := [r] + s;
    assert all[1..] == s && all[0] == r && (s != [] ==> all[1] == s[0]);
    CoveredByFirst(!HeadSwallowed(all), r, Survivors(s), n, b);
    CoveredByFirst(HeadSwallowed(all), r, Lost(s), n, b);
  }

  lemma {:induction false} SurvivorsAndLost(s: seq<Range>, n: int, b: int)
    ensures CoveredBy(s, n, b) <==> CoveredBy(Survivors(s), n, b) || CoveredBy(Lost(s), n, b)
  {
    if s != [] {
      hide Covers, CoveredBy, Swallowed;
      SurvivorsAndLost(s[1..], n, b);
      SurvivorsCons(s[0], s[1..], n, b);
      CoveredByTail(s, n, b);
      assert s == [s[0]] + s[1..];
    }
  }

  lemma {:induction false} NonEmptyCovers(rs: seq<Range>, n: int, b: int)
    ensures CoveredBy(NonEmpty(rs), n, b) <==> CoveredBy(rs, n, b)
  {
    if rs != [] {
      hide Covers, CoveredBy;
      NonEmptyCovers(rs[1..], n, b);
      CoveredByTail(rs, n, b);
      CoveredByFirst(!IsEmpty(rs[0]), rs[0], NonEmpty(rs[1..]), n, b);
      if IsEmpty(rs[0]) {
        EmptyCovers(rs[0], n, b);
      }
    }
  }

  /** A join of an open-ended range is just the second range. */
  lemma JoinCases(r1: Range, r2: Range)
    requires !IsEmpty(r1) && !IsEmpty(r2)
    ensures Join(r1, r2).Some? ==> r2.IsAbsolute() && !r2.OpenEnded() && !IsEmpty(Join(r1, r2).value)
    ensures Join(r1, r2).Some? && r1.end < 0 ==> Join(r1, r2) == Some(r2) && Swallowed(r1, r2)
    ensures Join(r1, r2).Some? && r1.end >= 0 ==> !r1.OpenEnded() && !Join(r1, r2).value.OpenEnded()
    ensures Join(r1, r2) == None ==> !Swallowed(r1, r2)
  {
  }

  lemma NotOpenNotSwallowed(r: Range, next: Range)
    requires !r.OpenEnded()
    ensures !Swallowed(r, next)
  {
  }

  /** Merging keeps the bytes of the survivors. */
  lemma {:induction false} MergeFromSurvivors(r1: Range, rest: seq<Range>, n: int, b: int)
    requires !IsEmpty(r1)
    ensures CoveredBy(MergeFrom(r1, rest), n, b) <==> CoveredBy(Survivors([r1] + NonEmpty(rest)), n, b)
    decreases |rest|
  {
    hide CoveredBy, Covers, Join, IsEmpty, Swallowed, Survivors;
    if rest == [] {
      OneSurvives(r1);
    } else {
      var r2, s := rest[0], NonEmpty(rest[1..]);
      if IsEmpty(r2) {
        MergeFromSurvivors(r1, rest[1..], n, b);
        assert NonEmpty(rest) == s;
      } else {
        assert NonEmpty(rest) == [r2] + s;
        JoinCases(r1, r2);
        SurvivorsCons(r1, [r2] + s, n, b);
        if Join(r1, r2) == None {
          MergeFromSurvivors(r2, rest[1..], n, b);
          CoveredByCons(r1, MergeFrom(r2, rest[1..]), n, b);
        } else {
          var r := Join(r1, r2).value;
          MergeFromSurvivors(r, rest[1..], n, b);
          SurvivorsCons(r2, s, n, b);
          SurvivorsCons(r, s, n, b);
          if r1.end >= 0 {
            JoinCovers(r1, r2, n, b);
            NotOpenNotSwallowed(r1, r2);
            if s != [] {
              NotOpenNotSwallowed(r2, s[0]);
              NotOpenNotSwallowed(r, s[0]);
            }
          }
        }
      }
    }
  }

  lemma OneSurvives(r: Range)
    ensures MergeFrom(r, []) == [r] && Survivors([r] + NonEmpty([])) == [r]
  {
    assert [r] + NonEmpty([]) == [r] && [r][1..] == [];
  }

  /** The request as MergeRanges goes through it: without the leading ranges it drops and the empty ones. */
  function Considered(rs: seq<Range>): seq<Range> {
    NonEmpty(DropLeading(rs))
  }

  lemma MergeIsSurvivors(rs: seq<Range>, n: int, b: int)
    requires AllInt64(rs)
    ensures CoveredBy(Merge(rs), n, b) <==> CoveredBy(Survivors(Considered(rs)), n, b)
  {
    hide CoveredBy, MergeFrom, Survivors;
    var kept := DropLeading(rs);
    if kept == [] {
      NoSurvivors();
    } else {
      DropAll(rs);
      assert kept[0] in kept && !IsEmpty(kept[0]);
      assert NonEmpty(kept) == [kept[0]] + NonEmpty(kept[1..]);
      MergeFromSurvivors(kept[0], kept[1..], n, b);
    }
  }

  lemma NoSurvivors()
    ensures Survivors([]) == []
  {
  }

  lemma {:induction false} DropAll(rs: seq<Range>)
    ensures forall r | r in DropLeading(rs) :: r in rs
  {
    if rs != [] && rs[0].IsNoLength() {
      DropAll(rs[1..]);
    }
  }

  /** The leading ranges of a request that have no length. */
  function Leading(rs: seq<Range>): seq<Range> {
    if rs != [] && rs[0].IsNoLength() then [rs[0]] + Leading(rs[1..]) else []
  }

  /** What a request loses: ranges swallowed by their neighbour, and the wrapped range if it leads. */
  function LostIn(rs: seq<Range>): seq<Range> {
    (if WRAPPED in Leading(rs) then [WRAPPED] else []) + Lost(Considered(rs))
  }

  lemma {:induction false} LeadingCovers(rs: seq<Range>, n: int, b: int)
    requires AllInt64(rs)
    ensures CoveredBy(rs, n, b) <==>
            (WRAPPED in Leading(rs) && Covers(WRAPPED, n, b)) || CoveredBy(DropLeading(rs), n, b)
  {
    if rs != [] && rs[0].IsNoLength() {
      hide Covers, CoveredBy;
      assert rs[0] in rs && forall r | r in rs[1..] :: r in rs;
      LeadingCovers(rs[1..], n, b);
      CoveredByTail(rs, n, b);
      if rs[0] != WRAPPED {
        EmptyCoversNothing(rs[0], n, b);
      }
    }
  }

  lemma LostOrKept(rs: seq<Range>, n: int, b: int)
    requires AllInt64(rs)
    ensures CoveredBy(rs, n, b) <==> CoveredBy(Survivors(Considered(rs)), n, b) || CoveredBy(LostIn(rs), n, b)
  {
    hide Covers, CoveredBy, Survivors, Lost, Leading, NonEmpty, DropLeading;
    LeadingCovers(rs, n, b);
    NonEmptyCovers(DropLeading(rs), n, b);
    SurvivorsAndLost(Considered(rs), n, b);
    CoveredByFirst(WRAPPED in Leading(rs), WRAPPED, Lost(Considered(rs)), n, b);
  }

  /** MergeRanges without sorting keeps the bytes asked for of data of size n exactly if each byte of a range
      the request loses is also asked for by one that survives: both told from the request's own neighbours. */
  lemma MergeCoversIff(rs: seq<Range>, n: int)
    requires AllInt64(rs)
    ensures (forall b :: CoveredBy(Merge(rs), n, b) <==> CoveredBy(rs, n, b)) <==>
            (forall b :: CoveredBy(LostIn(rs), n, b) ==> CoveredBy(Survivors(Considered(rs)), n, b))
  {
    hide CoveredBy, Merge, LostIn, Survivors, Considered;
    forall b
      ensures CoveredBy(Merge(rs), n, b) <==> CoveredBy(Survivors(Considered(rs)), n, b)
      ensures CoveredBy(rs, n, b) <==> CoveredBy(Merge(rs), n, b) || CoveredBy(LostIn(rs), n, b)
    {
      MergeIsSurvivors(rs, n, b);
      LostOrKept(rs, n, b);
    }
  }

  /** An open-ended range followed by an earlier one it overlaps is shortened. */
  lemma MergeShortens()
    ensures var rs := [Range(5, -1), Range(2, 7)];
            Merge(rs) == [Range(2, 7)] && CoveredBy(rs, 100, 50) && !CoveredBy(Merge(rs), 100, 50)
  {
    var rs := [Range(5, -1), Range(2, 7)];
    assert DropLeading(rs) == rs;
    assert MergeFrom(Range(2, 7), []) == [Range(2, 7)];
    assert rs[1..][1..] == [];
    assert Covers(rs[0], 100, 50);
  }

  /** TidyRanges keeps exactly the bytes asked for, of data of every size and end-relative ranges
      included, for all lists without the wrapped range. */
  lemma TidyCovers(rs: seq<Range>, n: int, b: int)
    requires AllInt64(rs) && WRAPPED !in rs
    ensures CoveredBy(Tidy(rs), n, b) <==> CoveredBy(rs, n, b)
  {
    SortIsStable(rs, Start);
    var sorted := Sort(rs, Start);
    SameElements(sorted, rs, n, b);
    MergeCoversKept(sorted, n, b);
    DropCovers(sorted, n, b);
  }

  /** Every wrapped range comes before the other ranges that start with the smallest int64. */
  predicate WrappedFirst(rs: seq<Range>) {
    forall i, j | 0 <= i < j < |rs| && rs[j] == WRAPPED && rs[i].start == MIN_INT64 :: rs[i] == WRAPPED
  }

  predicate OthersCover(rs: seq<Range>, n: int, b: int) {
    exists r | r in rs :: r != WRAPPED && Covers(r, n, b)
  }

  lemma WrappedFirstLast(init: seq<Range>, r: Range)
    ensures WrappedFirst(init + [r]) <==>
            WrappedFirst(init) &&
            (r == WRAPPED ==> forall i | 0 <= i < |init| && init[i].start == MIN_INT64 :: init[i] == WRAPPED)
  {
    var rs := init + [r];
    assert forall i | 0 <= i < |init| :: rs[i] == init[i];
    assert rs[|init|] == r;
  }

  lemma {:induction false} BucketMembers(rs: seq<Range>, k: int)
    ensures forall r :: r in Bucket(rs, k, Start) <==> r in rs && r.start == k
  {
    if rs != [] {
      BucketMembers(rs[..|rs| - 1], k);
      assert rs == rs[..|rs| - 1] + [rs[|rs| - 1]];
    }
  }

  /** That is seen in the ranges with the smallest start alone, so sorting does not change it. */
  lemma {:induction false} WrappedFirstInBucket(rs: seq<Range>)
    ensures WrappedFirst(rs) <==> WrappedFirst(Bucket(rs, MIN_INT64, Start))
  {
    if rs != [] {
      var init, r := rs[..|rs| - 1], rs[|rs| - 1];
      assert rs == init + [r];
      hide WrappedFirst;
      WrappedFirstInBucket(init);
      WrappedFirstLast(init, r);
      BucketMembers(init, MIN_INT64);
      var bucket := Bucket(init, MIN_INT64, Start);
      if r.start == MIN_INT64 {
        WrappedFirstLast(bucket, r);
        SameMembers(init, bucket);
      } else {
        assert bucket + [] == bucket;
      }
    }
  }

  lemma SameMembers(rs: seq<Range>, bucket: seq<Range>)
    requires forall r :: r in bucket <==> r in rs && r.start == MIN_INT64
    ensures (forall i | 0 <= i < |rs| && rs[i].start == MIN_INT64 :: rs[i] == WRAPPED) <==>
            (forall i | 0 <= i < |bucket| && bucket[i].start == MIN_INT64 :: bucket[i] == WRAPPED)
  {
    if forall i | 0 <= i < |rs| && rs[i].start == MIN_INT64 :: rs[i] == WRAPPED {
      forall i | 0 <= i < |bucket|
        ensures bucket[i] == WRAPPED
      {
        assert bucket[i] in bucket;
      }
    }
    if forall i | 0 <= i < |bucket| && bucket[i].start == MIN_INT64 :: bucket[i] == WRAPPED {
      forall i | 0 <= i < |rs| && rs[i].start == MIN_INT64
        ensures rs[i] == WRAPPED
      {
        assert rs[i] in bucket;
      }
    }
  }

  lemma KeptList0(s: seq<Range>, n: int)
    requires AllInt64(s) && s != [] && s[0] != WRAPPED && 0 < n <= MAX_INT64
    requires forall r | r in s :: s[0].start <= r.start
    ensures CoveredBy(s, n, 0) <==> OthersCover(s, n, 0) || !WrappedFirst(s)
  {
    assert s[0] in s && Covers(WRAPPED, n, 0);
    if WRAPPED in s {
      var j :| 0 <= j < |s| && s[j] == WRAPPED;
      assert s[0].start == MIN_INT64 && !WrappedFirst(s);
    } else {
      assert forall j | 0 <= j < |s| :: s[j] in s;
    }
  }

  lemma OthersCoverTail(s: seq<Range>, n: int, b: int)
    requires s != []
    ensures OthersCover(s, n, b) <==> (s[0] != WRAPPED && Covers(s[0], n, b)) || OthersCover(s[1..], n, b)
  {
    assert s == [s[0]] + s[1..];
    assert s[0] in s && forall r | r in s[1..] :: r in s;
  }

  lemma SortedStarts(s: seq<Range>)
    requires Sorted(s, Start) && s != []
    ensures forall r | r in s :: s[0].start <= r.start
    ensures Sorted(s[1..], Start)
  {
    forall i | 0 <= i < |s|
      ensures s[0].start <= s[i].start
    {
      assert i > 0 ==> Start(s[0]) <= Start(s[i]);
    }
  }

  /** In a sorted list, byte 0 survives the dropping exactly if another range asks for it, or a wrapped range
      stands behind another one. */
  lemma {:induction false} DropSorted0(s: seq<Range>, n: int)
    requires AllInt64(s) && Sorted(s, Start) && 0 < n <= MAX_INT64
    ensures CoveredBy(DropLeading(s), n, 0) <==> OthersCover(s, n, 0) || !WrappedFirst(s)
  {
    hide Sorted, Covers, OthersCover, WrappedFirst, CoveredBy;
    if s == [] {
      Nothing0(n);
    } else {
      SortedStarts(s);
      assert s[0] in s && forall r | r in s[1..] :: r in s;
      if s[0].IsNoLength() {
        DropSorted0(s[1..], n);
        WrappedFirstTail(s);
        OthersCoverTail(s, n, 0);
        if s[0] != WRAPPED {
          EmptyCoversNothing(s[0], n, 0);
        }
      } else {
        KeptList0(s, n);
      }
    }
  }

  lemma Nothing0(n: int)
    ensures !CoveredBy([], n, 0) && !OthersCover([], n, 0) && WrappedFirst([])
  {
  }

  lemma WrappedFirstTail(s: seq<Range>)
    requires s != [] && AllInt64(s) && s[0].IsNoLength()
    requires forall r | r in s :: s[0].start <= r.start
    ensures WrappedFirst(s) <==> WrappedFirst(s[1..])
  {
    assert forall i | 0 <= i < |s| - 1 :: s[1..][i] == s[i + 1];
    assert s[0] in s;
    if s[0] != WRAPPED {
      assert s[0].start > MIN_INT64;
      assert forall i | 0 <= i < |s| :: s[i] in s && s[i] != WRAPPED;
    }
    if WrappedFirst(s[1..]) {
      forall i, j | 0 <= i < j < |s| && s[j] == WRAPPED && s[i].start == MIN_INT64
        ensures s[i] == WRAPPED
      {
        if i > 0 {
          assert s[1..][i - 1] == s[i] && s[1..][j - 1] == s[j];
        }
      }
    }
    if WrappedFirst(s) {
      forall i, j | 0 <= i < j < |s| - 1 && s[1..][j] == WRAPPED && s[1..][i].start == MIN_INT64
        ensures s[1..][i] == WRAPPED
      {
        assert s[i + 1] == s[1..][i] && s[j + 1] == s[1..][j];
      }
    }
  }

  /** Tidying loses a byte only to the wrapped range: byte 0, exactly if every wrapped range of the request
      comes before the others with its start and none of the others asks for that byte. */
  lemma TidyCoversIff(rs: seq<Range>, n: int, b: int)
    requires AllInt64(rs) && 0 <= n <= MAX_INT64
    ensures (CoveredBy(Tidy(rs), n, b) <==> CoveredBy(rs, n, b)) <==>
            !(b == 0 && n > 0 && WRAPPED in rs && WrappedFirst(rs) && !OthersCover(rs, n, 0))
  {
    hide Merge, DropLeading, Sort, WrappedFirst, MergeFrom;
    SortIsStable(rs, Start);
    var sorted := Sort(rs, Start);
    SameElements(sorted, rs, n, b);
    MergeCoversKept(sorted, n, b);
    DropCovers(sorted, n, b);
    if b == 0 && n > 0 && WRAPPED in rs {
      DropSorted0(sorted, n);
      WrappedFirstInBucket(rs);
      WrappedFirstInBucket(sorted);
      assert Covers(WRAPPED, n, 0);
    } else if b == 0 && n <= 0 {
      assert !CoveredBy(rs, n, b) && !CoveredBy(DropLeading(sorted), n, b);
    }
  }
}
