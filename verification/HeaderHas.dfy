/** Header.Has: whether a header holds all the values asked for, each as often as it is asked for. */
module HeaderHas {
  /** The wanted values marked as found. */
  ghost function Found(values: seq<string>, wants: seq<bool>): (m: multiset<string>)
    requires |wants| == |values|
  {
    if values == [] then multiset{}
    else
      var n := |values| - 1;
      Found(values[..n], wants[..n]) + (if wants[n] then multiset{values[n]} else multiset{})
  }

  lemma {:induction false} FoundNone(values: seq<string>, wants: seq<bool>)
    requires |wants| == |values| && forall j | 0 <= j < |wants| :: !wants[j]
    ensures Found(values, wants) == multiset{}
  {
    if values != [] {
      FoundNone(values[..|values| - 1], wants[..|values| - 1]);
    }
  }

  /** Found values are wanted ones; a value whose wanted places are all marked is found as often as wanted. */
  lemma {:induction false} FoundWithin(values: seq<string>, wants: seq<bool>, x: string)
    requires |wants| == |values|
    ensures Found(values, wants) <= multiset(values)
    ensures (forall j | 0 <= j < |values| && values[j] == x :: wants[j]) ==>
              Found(values, wants)[x] == multiset(values)[x]
  {
    if values != [] {
      var n := |values| - 1;
      FoundWithin(values[..n], wants[..n], x);
      assert values == values[..n] + [values[n]];
    }
  }

  lemma {:induction false} FoundMore(values: seq<string>, wants: seq<bool>, j: nat)
    requires |wants| == |values| && j < |values| && !wants[j]
    ensures Found(values, wants[j := true]) == Found(values, wants) + multiset{values[j]}
  {
    var n := |values| - 1;
    if j < n {
      FoundMore(values[..n], wants[..n], j);
      assert wants[j := true][..n] == wants[..n][j := true];
    } else {
      assert wants[j := true][..n] == wants[..n];
    }
  }

  lemma SameSize(a: multiset<string>, b: multiset<string>)
    requires a <= b && |a| == |b|
    ensures a == b
  {
    assert b == a + (b - a);
  }

  /** The next value of the header is wanted nowhere any more. */
  lemma Superfluous(have: multiset<string>, want: multiset<string>, x: string)
    requires (have * want)[x] == want[x]
    ensures (have + multiset{x}) * want == have * want
  {
  }

  lemma OneMore(have: multiset<string>, want: multiset<string>, x: string)
    requires have * want + multiset{x} <= want
    ensures (have + multiset{x}) * want == have * want + multiset{x}
  {
    forall v
      ensures ((have + multiset{x}) * want)[v] == (have * want + multiset{x})[v]
    {
      assert (have * want + multiset{x})[v] <= want[v];
    }
  }

  /** All wanted values are found once as many are as are wanted; before that one is missing. */
  lemma AllFound(have: multiset<string>, want: multiset<string>)
    ensures |have * want| <= |want|
    ensures |have * want| == |want| <==> want <= have
  {
    assert want == have * want + (want - have * want);
    if |have * want| == |want| {
      SameSize(have * want, want);
      assert forall v :: want[v] == (have * want)[v] <= have[v];
    }
    if want <= have {
      assert have * want == want;
    }
  }

  /** The marks say which values were found among those seen, and `left` how many are missing. */
  ghost predicate Counted(values: seq<string>, wants: seq<bool>, seen: multiset<string>, left: int) {
    && |wants| == |values|
    && Found(values, wants) == seen * multiset(values)
    && left == |multiset(values)| - |Found(values, wants)|
  }

  lemma Hit(values: seq<string>, wants: seq<bool>, seen: multiset<string>, left: int, j: nat)
    requires Counted(values, wants, seen, left) && j < |values| && !wants[j]
    ensures Counted(values, wants[j := true], seen + multiset{values[j]}, left - 1)
  {
    hide Found;
    FoundMore(values, wants, j);
    FoundWithin(values, wants[j := true], values[j]);
    OneMore(seen, multiset(values), values[j]);
  }

  lemma Miss(values: seq<string>, wants: seq<bool>, seen: multiset<string>, left: int, x: string)
    requires Counted(values, wants, seen, left)
    requires forall j | 0 <= j < |values| && values[j] == x :: wants[j]
    ensures Counted(values, wants, seen + multiset{x}, left)
  {
    hide Found;
    FoundWithin(values, wants, x);
    Superfluous(seen, multiset(values), x);
  }

  lemma Done(values: seq<string>, wants: seq<bool>, seen: multiset<string>, left: int)
    requires Counted(values, wants, seen, left)
    ensures left >= 0 && (left == 0 <==> multiset(values) <= seen)
  {
    hide Found;
    AllFound(seen, multiset(values));
  }

  ghost function Seen(have: seq<string>, i: nat): multiset<string>
    requires i <= |have|
  {
    multiset(have[..i])
  }

  lemma SeenNext(have: seq<string>, i: nat)
    requires i < |have|
    ensures Seen(have, i + 1) == Seen(have, i) + multiset{have[i]}
    ensures Seen(have, i + 1) <= multiset(have)
  {
    assert have[..i + 1] == have[..i] + [have[i]];
    assert have == have[..i + 1] + have[i + 1..];
  }

  lemma Start(have: seq<string>, values: seq<string>, wants: seq<bool>)
    requires |wants| == |values| && forall j | 0 <= j < |wants| :: !wants[j]
    ensures Counted(values, wants, Seen(have, 0), |values|)
    ensures Seen(have, |have|) == multiset(have)
  {
    FoundNone(values, wants);
    assert have[..|have|] == have;
  }

  /** With no values wanted the source answers true, keeping a lock. */
  method Has(have: seq<string>, values: seq<string>) returns (r: bool)
    ensures r <==> multiset(values) <= multiset(have)
  {
    if |values| == 0 {
      return true;
    }
    hide Counted, Seen;
    var left := |values|;
    var wants := new bool[left](_ => false);
    Start(have, values, wants[..]);
    for i := 0 to |have|
      invariant Counted(values, wants[..], Seen(have, i), left) && left > 0
    {
      ghost var w := wants[..];
      ghost var seen := Seen(have, i);
      SeenNext(have, i);
      ghost var hit := false;
      for j := 0 to |values|
        invariant wants[..] == w && Counted(values, w, seen, left) && left > 0 && !hit
        invariant forall k | 0 <= k < j && values[k] == have[i] :: w[k]
      {
        if wants[j] == false && have[i] == values[j] {
          Hit(values, w, seen, left, j);
          left := left - 1;
          Done(values, w[j := true], seen + multiset{have[i]}, left);
          if left == 0 {
            return true;
          }
          wants[j] := true;
          assert wants[..] == w[j := true];
          hit := true;
          break;
        }
      }
      if !hit {
        Miss(values, w, seen, left, have[i]);
      }
    }
    Done(values, wants[..], multiset(have), left);
    return false;
  }
}
