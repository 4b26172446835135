/** Byte-wise string comparison, and the list of encodings kept sorted by it. */
module StringOrder {
  datatype Comparison = Equal | LessThan | GreaterThan {
    function Flip(): Comparison {
      match this
      case Equal => Equal
      case LessThan => GreaterThan
      case GreaterThan => LessThan
    }
  }

  function Compare(a: string, b: string): Comparison {
    if a == "" then (if b == "" then Equal else LessThan)
    else if b == "" then GreaterThan
    else if a[0] < b[0] then LessThan
    else if a[0] > b[0] then GreaterThan
    else Compare(a[1..], b[1..])
  }

  method CompareStrings(a: string, b: string) returns (r: Comparison)
    ensures r == Compare(a, b)
  {
    var l := if |a| < |b| then |a| else |b|;
    assert a[0..] == a && b[0..] == b;
    for i := 0 to l
      invariant Compare(a, b) == Compare(a[i..], b[i..])
    {
      if a[i] < b[i] {
        return LessThan;
      } else if a[i] > b[i] {
        return GreaterThan;
      }
      assert a[i..][1..] == a[i + 1..] && b[i..][1..] == b[i + 1..];
    }
    if |a| < |b| {
      return LessThan;
    } else if |a| > |b| {
      return GreaterThan;
    }
    return Equal;
  }

  /** Equal only on equal strings, and swapping the strings flips the answer. */
  lemma {:induction false} CompareTotal(a: string, b: string)
    ensures Compare(a, b) == Equal <==> a == b
    ensures Compare(b, a) == Compare(a, b).Flip()
  {
    if a != "" && b != "" && a[0] == b[0] {
      CompareTotal(a[1..], b[1..]);
      assert a == [a[0]] + a[1..] && b == [b[0]] + b[1..];
    }
  }

  /** b is a proper beginning of a, or where they first differ a has the greater byte. */
  ghost predicate IsAfter(a: string, b: string) {
    exists i :: 0 <= i < |a| && i <= |b| && a[..i] == b[..i] && (i == |b| || a[i] > b[i])
  }

  /** Greater is what comes after in the order of Go's strings. */
  lemma {:induction false} CompareIff(a: string, b: string)
    ensures Compare(a, b) == GreaterThan <==> IsAfter(a, b)
    ensures Compare(a, b) == LessThan <==> IsAfter(b, a)
  {
    if a != "" && b != "" {
      CompareIff(a[1..], b[1..]);
      AfterStep(a, b);
      AfterStep(b, a);
    } else if a != "" {
      assert a[..0] == b[..0];
    } else if b != "" {
      assert b[..0] == a[..0];
    }
  }

  lemma AfterStep(a: string, b: string)
    requires a != "" && b != ""
    ensures IsAfter(a, b) <==> a[0] > b[0] || (a[0] == b[0] && IsAfter(a[1..], b[1..]))
  {
    if a[0] > b[0] {
      assert a[..0] == b[..0];
    }
    if a[0] == b[0] && IsAfter(a[1..], b[1..]) {
      var i :| 0 <= i < |a[1..]| && i <= |b[1..]| && a[1..][..i] == b[1..][..i]
               && (i == |b[1..]| || a[1..][i] > b[1..][i]);
      assert a[..i + 1] == [a[0]] + a[1..][..i] && b[..i + 1] == [b[0]] + b[1..][..i];
      assert i + 1 == |b| || a[i + 1] > b[i + 1];
    }
    if IsAfter(a, b) {
      var i :| 0 <= i < |a| && i <= |b| && a[..i] == b[..i] && (i == |b| || a[i] > b[i]);
      if i > 0 {
        assert a[..i][0] == b[..i][0];
        assert a[1..][..i - 1] == a[..i][1..] && b[1..][..i - 1] == b[..i][1..];
        assert i - 1 == |b[1..]| || a[1..][i - 1] > b[1..][i - 1];
      }
    }
  }

  lemma {:induction false} CompareTransitive(a: string, b: string, c: string)
    requires Compare(a, b) == GreaterThan && Compare(b, c) == GreaterThan
    ensures Compare(a, c) == GreaterThan
  {
    if a != "" && b != "" && c != "" && a[0] == b[0] && b[0] == c[0] {
      CompareTransitive(a[1..], b[1..], c[1..]);
    }
  }
}

module EncodingLists {
  import opened Strconv
  import opened HttpChars
  import opened StringOrder
  import opened Pipes

  datatype Encoding = Encoding(name: string, reader: Generator<Reader>, writer: Generator<Writer>)

  /** Strictly descending names. */
  ghost predicate Descending(l: seq<Encoding>) {
    forall i, j | 0 <= i < j < |l| :: Compare(l[i].name, l[j].name) == GreaterThan
  }

  /** i is where the name goes: everything before is greater, everything from there on less. */
  ghost predicate GoesAt(l: seq<Encoding>, name: string, i: nat) {
    && i <= |l|
    && (forall k | 0 <= k < i :: Compare(l[k].name, name) == GreaterThan)
    && (forall k | i <= k < |l| :: Compare(l[k].name, name) == LessThan)
  }

  /** Inserting keeps the order at that one place, and nowhere else. */
  lemma GoesAtIff(l: seq<Encoding>, e: Encoding, i: nat)
    requires Descending(l) && i <= |l|
    ensures Descending(With(l, e, i)) <==> GoesAt(l, e.name, i)
  {
    var r := With(l, e, i);
    forall k | 0 <= k < |l|
      ensures r[if k < i then k else k + 1] == l[k]
      ensures Compare(e.name, l[k].name) == Compare(l[k].name, e.name).Flip()
    {
      CompareTotal(l[k].name, e.name);
    }
    assert r[i] == e;
    if Descending(r) {
      forall k | i <= k < |l|
        ensures Compare(l[k].name, e.name) == LessThan
      {
        assert Compare(r[i].name, r[k + 1].name) == GreaterThan;
      }
    }
  }

  /** m maps the names in the list to their encodings, and nothing else. */
  ghost predicate Means(l: seq<Encoding>, m: map<string, Encoding>) {
    && (forall i | 0 <= i < |l| :: l[i].name in m && m[l[i].name] == l[i])
    && (forall n | n in m :: exists i | 0 <= i < |l| :: l[i].name == n)
  }

  lemma MeansUnique(l: seq<Encoding>, m: map<string, Encoding>, m2: map<string, Encoding>)
    requires Means(l, m) && Means(l, m2)
    ensures m == m2
  {
    forall n
      ensures n in m <==> n in m2
      ensures n in m ==> m[n] == m2[n]
    {
      if n in m {
        var i :| 0 <= i < |l| && l[i].name == n;
      }
      if n in m2 {
        var i :| 0 <= i < |l| && l[i].name == n;
      }
    }
  }

  /** A name with an insertion point is not in the list. */
  lemma Absent(l: seq<Encoding>, m: map<string, Encoding>, name: string, i: nat)
    requires Means(l, m) && GoesAt(l, name, i)
    ensures name !in m
  {
    if name in m {
      var k :| 0 <= k < |l| && l[k].name == name;
      CompareTotal(l[k].name, name);
    }
  }

  lemma InsertedAt<T>(s: seq<T>, x: T, i: nat)
    requires i <= |s|
    ensures var r := s[..i] + [x] + s[i..];
            && |r| == |s| + 1 && r[i] == x
            && (forall k | 0 <= k < |r| && k != i :: r[k] == s[if k < i then k else k - 1])
            && (forall k | 0 <= k < |s| :: r[if k < i then k else k + 1] == s[k])
  {
  }

  lemma MeansInserted(l: seq<Encoding>, m: map<string, Encoding>, e: Encoding, i: nat)
    requires Means(l, m) && GoesAt(l, e.name, i)
    ensures Means(With(l, e, i), m[e.name := e])
  {
    Absent(l, m, e.name, i);
    InsertedAt(l, e, i);
    hide GoesAt, Compare;
    InsertedNamed(l, m, e, i, With(l, e, i));
    var m2 := m[e.name := e];
    forall n | n in m2
      ensures exists k | 0 <= k < |With(l, e, i)| :: With(l, e, i)[k].name == n
    {
      InsertedHeld(l, m, e, i, With(l, e, i), n);
    }
  }

  /** r is l with e at i, as its elements tell. */
  ghost predicate IsWith(l: seq<Encoding>, e: Encoding, i: nat, r: seq<Encoding>) {
    && i <= |l| && |r| == |l| + 1 && r[i] == e
    && (forall k | 0 <= k < |r| && k != i :: r[k] == l[if k < i then k else k - 1])
    && (forall k | 0 <= k < |l| :: r[if k < i then k else k + 1] == l[k])
  }

  lemma InsertedNamed(l: seq<Encoding>, m: map<string, Encoding>, e: Encoding, i: nat, r: seq<Encoding>)
    requires Means(l, m) && e.name !in m && IsWith(l, e, i, r)
    ensures forall k | 0 <= k < |r| :: r[k].name in m[e.name := e] && m[e.name := e][r[k].name] == r[k]
  {
    forall k | 0 <= k < |r| && k != i
      ensures r[k].name in m && m[r[k].name] == r[k]
    {
      var was := l[if k < i then k else k - 1];
      assert r[k] == was;
    }
  }

  lemma InsertedHeld(l: seq<Encoding>, m: map<string, Encoding>, e: Encoding, i: nat, r: seq<Encoding>, n: string)
    requires Means(l, m) && IsWith(l, e, i, r) && (n == e.name || n in m)
    ensures exists k | 0 <= k < |r| :: r[k].name == n
  {
    if n == e.name {
      assert r[i].name == n;
    } else {
      var k :| 0 <= k < |l| && l[k].name == n;
      assert r[if k < i then k else k + 1] == l[k];
    }
  }

  function Without(l: seq<Encoding>, i: nat): (r: seq<Encoding>)
    requires i < |l|
    ensures |r| == |l| - 1
    ensures forall k | 0 <= k < |r| :: r[k] == l[if k < i then k else k + 1]
    ensures forall k | 0 <= k < |l| && k != i :: r[if k < i then k else k - 1] == l[k]
  {
    l[..i] + l[i + 1..]
  }

  lemma MeansRemoved(l: seq<Encoding>, m: map<string, Encoding>, i: nat)
    requires Descending(l) && Means(l, m) && i < |l|
    ensures Means(Without(l, i), m - {l[i].name})
  {
    hide Without, Compare;
    var r, m2 := Without(l, i), m - {l[i].name};
    forall k | 0 <= k < |l|
      ensures k != i ==> l[k].name != l[i].name
    {
      CompareTotal(l[k].name, l[i].name);
    }
    forall n | n in m2
      ensures exists k | 0 <= k < |r| :: r[k].name == n
    {
      var k :| 0 <= k < |l| && l[k].name == n;
      assert r[if k < i then k else k - 1].name == n;
    }
  }

  lemma DescendingRemoved(l: seq<Encoding>, i: nat)
    requires Descending(l) && i < |l|
    ensures Descending(Without(l, i))
  {
    hide Without, Compare;
  }

  function With(l: seq<Encoding>, e: Encoding, i: nat): seq<Encoding>
    requires i <= |l|
  {
    l[..i] + [e] + l[i..]
  }

  /** Growing by one and copying up makes room for e. */
  lemma ShiftUp(l: seq<Encoding>, e: Encoding, i: nat)
    requires i < |l|
    ensures var n := |l|;
            var l1 := l + [l[n - 1]];
            (l1[..i + 1] + l1[i..n - 1] + l1[n..])[i := e] == With(l, e, i)
  {
  }

  /** The readers for the codes, last code first. */
  ghost function Readers(m: map<string, Encoding>, codes: seq<string>): seq<Generator<Reader>>
    requires forall k | 0 <= k < |codes| :: ToLower(codes[k]) in m
  {
    seq(|codes|, k requires 0 <= k < |codes| => m[ToLower(codes[|codes| - 1 - k])].reader)
  }

  /** The codes are small-letter names with some of their letters in capitals. */
  ghost predicate RecasedCodes(codes: seq<string>, names: seq<string>) {
    |codes| == |names| && forall k | 0 <= k < |codes| :: IsLower(names[k]) && Recased(codes[k], names[k])
  }

  /** The readers of the named encodings, the last name first, if all of them are there. */
  ghost predicate AreReaders(out: seq<Generator<Reader>>, ok: bool, m: map<string, Encoding>, names: seq<string>) {
    && (ok <==> forall k | 0 <= k < |names| :: names[k] in m)
    && (ok ==> |out| == |names| && forall k | 0 <= k < |names| :: out[k] == m[names[|names| - 1 - k]].reader)
  }

  lemma CodesLower(codes: seq<string>, names: seq<string>)
    requires RecasedCodes(codes, names)
    ensures |codes| == |names| && forall k | 0 <= k < |codes| :: ToLower(codes[k]) == names[k]
  {
    hide ToLower, IsLower, Recased;
    forall k | 0 <= k < |codes|
      ensures ToLower(codes[k]) == names[k]
    {
      RecasedLower(codes[k], names[k]);
    }
  }

  lemma ReadersOfNames(m: map<string, Encoding>, codes: seq<string>, names: seq<string>,
                       out: seq<Generator<Reader>>, ok: bool)
    requires RecasedCodes(codes, names)
    requires ok <==> forall k | 0 <= k < |codes| :: ToLower(codes[k]) in m
    requires ok ==> out == Readers(m, codes)
    ensures AreReaders(out, ok, m, names)
  {
    CodesLower(codes, names);
    hide ToLower, RecasedCodes;
  }

  class List {
    var l: seq<Encoding>
    ghost var contents: map<string, Encoding>

    ghost predicate Valid()
      reads this
    {
      Descending(l) && Means(l, contents)
    }

    constructor ()
      ensures Valid() && contents == map[]
    {
      l := [];
      contents := map[];
    }

    /** index: where the name is, or where it goes. */
    method Index(encoding: string) returns (found: bool, i: nat)
      requires Valid()
      ensures found <==> encoding in contents
      ensures found ==> i < |l| && l[i].name == encoding && contents[encoding] == l[i]
      ensures !found ==> GoesAt(l, encoding, i)
    {
      if |l| == 0 {
        return false, 0;
      }
      var a, b := 0, |l| - 1;
      var c := (a + b) / 2;
      while true
        invariant 0 <= a <= c <= b < |l| && c == (a + b) / 2
        invariant forall k | 0 <= k < a :: Compare(l[k].name, encoding) == GreaterThan
        invariant forall k | b < k < |l| :: Compare(l[k].name, encoding) == LessThan
        decreases b - a
      {
        var r := CompareStrings(l[c].name, encoding);
        CompareTotal(l[c].name, encoding);
        if r == Equal {
          return true, c;
        } else if r == GreaterThan {
          AllGreater(l, encoding, c);
          a := c + 1;
          if b < a {
            Absent(l, contents, encoding, c + 1);
            return false, c + 1;
          }
        } else {
          AllLess(l, encoding, c);
          b := c - 1;
          if b < a {
            Absent(l, contents, encoding, c);
            return false, c;
          }
        }
        c := (a + b) / 2;
      }
    }

    method Contains(encoding: string) returns (r: bool)
      requires Valid()
      ensures r <==> encoding in contents
    {
      var found, _ := Index(encoding);
      return found;
    }

    method Get(encoding: string) returns (e: Option<Encoding>)
      requires Valid()
      ensures e == if encoding in contents then Some(contents[encoding]) else None
    {
      var found, i := Index(encoding);
      if !found {
        return None;
      }
      return Some(l[i]);
    }

    method Remove(encoding: string) returns (r: bool)
      requires Valid()
      modifies this
      ensures Valid() && r == (encoding in old(contents)) && contents == old(contents) - {encoding}
    {
      var found, i := Index(encoding);
      if !found {
        assert contents == contents - {encoding};
        return false;
      }
      MeansRemoved(l, contents, i);
      DescendingRemoved(l, i);
      l := l[..i] + l[i + 1..];
      contents := contents - {encoding};
      return true;
    }

    method Add(e: Encoding) returns (r: bool)
      requires Valid()
      modifies this
      ensures Valid() && r == (e.name !in old(contents))
      ensures contents == if e.name in old(contents) then old(contents) else old(contents)[e.name := e]
    {
      hide Descending, Means, Compare;
      ghost var was := l;
      if |l| == 0 {
        assert GoesAt(l, e.name, 0);
        Inserted(was, e, 0);
        assert l + [e] == With(was, e, 0);
        l := l + [e];
        contents := contents[e.name := e];
        return true;
      }
      var found, i := Index(e.name);
      if found {
        return false;
      }
      Inserted(was, e, i);
      if i == |l| {
        assert l + [e] == With(was, e, i);
        l := l + [e];
      } else {
        var n := |l|;
        l := l + [l[n - 1]];
        l := l[..i + 1] + l[i..n - 1] + l[n..];
        l := l[i := e];
        ShiftUp(was, e, i);
      }
      contents := contents[e.name := e];
      return true;
    }

    lemma Inserted(was: seq<Encoding>, e: Encoding, i: nat)
      requires Valid() && was == l && GoesAt(was, e.name, i)
      ensures Descending(With(was, e, i)) && Means(With(was, e, i), contents[e.name := e])
      ensures e.name !in contents
    {
      GoesAtIff(was, e, i);
      MeansInserted(was, contents, e, i);
      Absent(was, contents, e.name, i);
    }

    /** Readers to undo the codes, the last code first; the names in the list are looked up whatever letters of
        them are in capitals. */
    method GetReaderPipeGenerators(codes: seq<string>) returns (out: seq<Generator<Reader>>, ok: bool)
      requires Valid()
      ensures ok <==> forall k | 0 <= k < |codes| :: ToLower(codes[k]) in contents
      ensures ok ==> out == Readers(contents, codes)
      ensures forall names | RecasedCodes(codes, names) :: AreReaders(out, ok, contents, names)
    {
      hide ToLower, RecasedCodes, AreReaders;
      out := [];
      var i := |codes| - 1;
      while i > -1
        invariant -1 <= i < |codes| && |out| == |codes| - 1 - i
        invariant forall k | i < k < |codes| :: ToLower(codes[k]) in contents
        invariant forall k | 0 <= k < |out| :: out[k] == contents[ToLower(codes[|codes| - 1 - k])].reader
      {
        var thisOk, code := Index(ToLower(codes[i]));
        if !thisOk {
          out, ok := [], false;
          forall names | RecasedCodes(codes, names)
            ensures AreReaders(out, ok, contents, names)
          {
            ReadersOfNames(contents, codes, names, out, ok);
          }
          return;
        }
        out := out + [l[code].reader];
        i := i - 1;
      }
      ok := true;
      forall names | RecasedCodes(codes, names)
        ensures AreReaders(out, ok, contents, names)
      {
        ReadersOfNames(contents, codes, names, out, ok);
      }
    }

    /** Writers for the codes as they are, in their order, with a nil entry where a code is not known. */
    method GetWriterPipeGenerators(codes: seq<string>) returns (out: seq<Generator<Writer>>, ok: bool)
      requires Valid()
      ensures ok <==> forall k | 0 <= k < |codes| :: codes[k] in contents
      ensures |out| == |codes|
      ensures forall k | 0 <= k < |codes| ::
                out[k] == if codes[k] in contents then contents[codes[k]].writer else Nil()
    {
      out := [];
      ok := true;
      for i := 0 to |codes|
        invariant |out| == i && (ok <==> forall k | 0 <= k < i :: codes[k] in contents)
        invariant forall k | 0 <= k < i ::
                    out[k] == if codes[k] in contents then contents[codes[k]].writer else Nil()
      {
        var thisOk, code := Index(codes[i]);
        if thisOk {
          out := out + [l[code].writer];
        } else {
          out := out + [Nil()];
          ok := false;
        }
      }
    }
  }

  lemma AllGreater(l: seq<Encoding>, name: string, c: nat)
    requires Descending(l) && c < |l| && Compare(l[c].name, name) == GreaterThan
    ensures forall k | 0 <= k <= c :: Compare(l[k].name, name) == GreaterThan
  {
    forall k | 0 <= k < c
      ensures Compare(l[k].name, name) == GreaterThan
    {
      CompareTransitive(l[k].name, l[c].name, name);
    }
  }

  lemma AllLess(l: seq<Encoding>, name: string, c: nat)
    requires Descending(l) && c < |l| && Compare(l[c].name, name) == LessThan
    ensures forall k | c <= k < |l| :: Compare(l[k].name, name) == LessThan
  {
    forall k | c < k < |l|
      ensures Compare(l[k].name, name) == LessThan
    {
      CompareTotal(l[c].name, name);
      CompareTransitive(name, l[c].name, l[k].name);
      CompareTotal(name, l[k].name);
    }
  }
}
