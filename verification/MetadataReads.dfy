/** What any headers whatever are read as: which texts give a size or a range, and which error each other gives. */
module MetadataReads {
  import opened Strconv
  import opened Ranges
  import opened Metadata
  import opened MetadataRuns

  /** The values stored under the key are these. */
  predicate Has(h: Header, key: string, values: seq<string>) {
    if key in h then h[key] == values else values == []
  }

  /** A Content-Range in bytes: what is before the first slash, and what behind it. */
  ghost predicate InBytes(h: Header, range: string, size: string) {
    '/' !in range && Has(h, "Content-Range", ["bytes " + range + "/" + size])
  }

  /** One Content-Range in bytes without a slash. */
  ghost predicate NoSlash(h: Header) {
    exists rest :: '/' !in rest && Has(h, "Content-Range", ["bytes " + rest])
  }

  ghost predicate OtherUnits(h: Header) {
    exists cr: string :: Has(h, "Content-Range", [cr]) && |cr| >= 6 && !("bytes " <= cr)
  }

  ghost predicate TooShort(h: Header) {
    exists cr: string :: Has(h, "Content-Range", [cr]) && |cr| < 6
  }

  lemma InBytesSplits(h: Header, range: string, size: string)
    requires InBytes(h, range, size)
    ensures SplitContentRange(h) == Answer(Parts(true, range, size), None)
  {
    SplitShown(range, size);
  }

  lemma NoSlashSplits(rest: string)
    requires '/' !in rest
    ensures SplitValue("bytes " + rest) == Answer(Parts(true, "", ""), Some(MalformedContentRange))
  {
    var cr := "bytes " + rest;
    assert cr[..6] == "bytes " && cr[6..] == rest;
  }

  /** Every Content-Range value is of one of these kinds. */
  lemma OneKind(h: Header, cr: string) returns (range: string, size: string)
    requires Has(h, "Content-Range", [cr])
    ensures TooShort(h) || OtherUnits(h) || NoSlash(h) || InBytes(h, range, size)
  {
    range, size := "", "";
    if |cr| >= 6 && "bytes " <= cr {
      var rest := cr[6..];
      assert cr[..6] == "bytes ";
      assert cr == "bytes " + rest by { Cut(cr, 6); }
      var i := IndexOf(rest, '/');
      hide IndexOf;
      if i >= 0 {
        range, size := rest[..i], rest[i + 1..];
        Around(rest, i);
        Regroup("bytes ", range, size);
      }
    }
  }

  lemma Cut(s: string, i: nat)
    requires i <= |s|
    ensures s == s[..i] + s[i..]
  {
  }

  lemma Around(s: string, i: nat)
    requires i < |s|
    ensures s == s[..i] + [s[i]] + s[i + 1..]
  {
  }

  lemma Regroup(unit: string, range: string, size: string)
    ensures unit + (range + ['/'] + size) == unit + range + "/" + size
  {
  }

  /** What the split gives of each kind. */
  lemma KindSplits(h: Header)
    ensures SplitContentRange(h) == Panic <==> TooShort(h)
    ensures "Content-Range" in h && |h["Content-Range"]| > 1 ==>
              SplitContentRange(h) == Answer(Parts(true, "", ""), Some(MultipleContentRange))
    ensures Has(h, "Content-Range", []) ==> SplitContentRange(h) == Answer(Parts(false, "", ""), None)
    ensures OtherUnits(h) ==> SplitContentRange(h) == Answer(Parts(true, "", ""), None)
    ensures NoSlash(h) ==> SplitContentRange(h) == Answer(Parts(true, "", ""), Some(MalformedContentRange))
    ensures forall range, size | InBytes(h, range, size) ::
              SplitContentRange(h) == Answer(Parts(true, range, size), None)
  {
    if NoSlash(h) {
      var rest :| '/' !in rest && Has(h, "Content-Range", ["bytes " + rest]);
      NoSlashSplits(rest);
    }
    forall range, size | InBytes(h, range, size)
      ensures SplitContentRange(h) == Answer(Parts(true, range, size), None)
    {
      InBytesSplits(h, range, size);
    }
    UnitSplits(h);
  }

  lemma UnitSplits(h: Header)
    ensures SplitContentRange(h) == Panic <==> TooShort(h)
    ensures OtherUnits(h) ==> SplitContentRange(h) == Answer(Parts(true, "", ""), None)
  {
    hide IndexOf;
    if OtherUnits(h) {
      var cr :| Has(h, "Content-Range", [cr]) && |cr| >= 6 && !("bytes " <= cr);
      assert cr[..6] != "bytes ";
    }
  }
  /** The text writes v, or it is no number, or leading digits of it are one over the limit. */
  predicate NumberIs(text: string, v: nat, err: Option<NumError>) {
    match err
    case None => v <= MAX_INT64 && Denotes(text, v, 10)
    case Some(ErrRange) => v == MAX_INT64 && Overflows(text, 10, MAX_INT64)
    case Some(ErrSyntax) => v == 0 && !Overflows(text, 10, MAX_INT64) && (text == [] || !AllDigits(text, 10))
  }

  lemma NumberIff(text: string, v: nat, err: Option<NumError>)
    ensures ParseUint(text, 10, MAX_INT64) == (v, err) <==> NumberIs(text, v, err)
  {
    hide ParseUint, Numeral, AllDigits, Overflows, Denotes;
    ParseUintIff(text, 10, MAX_INT64);
    DenotesNumeral(text, v, 10);
    LargeOverflows(text);
    var e := ParseUint(text, 10, MAX_INT64).1;
    assert e == None || e == Some(ErrRange) || e == Some(ErrSyntax) by {
      if e.Some? { match e.value { case ErrRange => case ErrSyntax => } }
    }
  }

  lemma LargeOverflows(text: string)
    ensures text != [] && AllDigits(text, 10) && Numeral(text, 10) > MAX_INT64 ==> Overflows(text, 10, MAX_INT64)
  {
    hide AllDigits, Numeral;
  }

  /** Which headers have a size, and which of them say it is unknown. */
  lemma SizeIff(h: Header, n: nat)
    ensures SizeOf(h) == Panic <==> TooShort(h)
    ensures SizeOf(h) == Answer(n, None) <==>
            || (exists range, size :: InBytes(h, range, size) && NumberIs(size, n, None))
            || (Has(h, "Content-Range", []) &&
                exists l :: Has(h, "Content-Length", [l]) && NumberIs(l, n, None))
    ensures SizeOf(h) == Answer(-1, None) <==>
            || (exists range :: range != "*" && InBytes(h, range, "*"))
            || (Has(h, "Content-Range", []) && Has(h, "Content-Length", []))
  {
    KindSplits(h);
    var crs, lengths := GetValues(h, CONTENT_RANGE), GetValues(h, CONTENT_LENGTH);
    hide SplitContentRange, NumberIs, ParseUint, TooShort, OtherUnits, NoSlash, InBytes;
    StarIsNoNumber(n);
    if |crs| == 1 {
      var range, size := OneKind(h, crs[0]);
      NumberIff(size, n, None);
      NumberIff("", n, None);
      NumberIff("", 0, Some(ErrSyntax));
      EmptyIsNoNumber(n);
      SameParts(h);
    } else if |lengths| == 1 {
      NumberIff(lengths[0], n, None);
    }
  }

  lemma StarIsNoNumber(n: nat)
    ensures !NumberIs("*", n, None)
  {
  }

  lemma EmptyIsNoNumber(n: nat)
    ensures !NumberIs("", n, None)
    ensures NumberIs("", 0, Some(ErrSyntax))
  {
  }

  /** The split finds the same parts, however the value is taken apart. */
  lemma SameParts(h: Header)
    ensures forall range, size | InBytes(h, range, size) ::
              SplitContentRange(h) == Answer(Parts(true, range, size), None)
    ensures |GetValues(h, CONTENT_RANGE)| != 1 ==> forall range, size :: !InBytes(h, range, size)
  {
    KindSplits(h);
  }

  /** And the error and value beside it of all others. */
  lemma SizeErrors(h: Header, text: string, v: nat, e: NumError)
    requires NumberIs(text, v, Some(e))
    ensures "Content-Range" in h && |h["Content-Range"]| > 1 ==> SizeOf(h) == Answer(-1, Some(MultipleContentRange))
    ensures NoSlash(h) || InBytes(h, "*", "*") ==> SizeOf(h) == Answer(-1, Some(MalformedContentRange))
    ensures OtherUnits(h) ==> SizeOf(h) == Answer(0, Some(BadNumber(ErrSyntax)))
    ensures forall range | text != "*" && InBytes(h, range, text) :: SizeOf(h) == Answer(v, Some(BadNumber(e)))
    ensures Has(h, "Content-Range", []) && Has(h, "Content-Length", [text]) ==>
              SizeOf(h) == Answer(v, Some(MalformedContentLength(e)))
    ensures Has(h, "Content-Range", []) && "Content-Length" in h && |h["Content-Length"]| > 1 ==>
              SizeOf(h) == Answer(-1, Some(TooManyContentLength))
  {
    KindSplits(h);
    hide SplitContentRange, NumberIs, ParseUint, TooShort, OtherUnits, NoSlash, InBytes;
    NumberIff(text, v, Some(e));
    NumberIff("", 0, Some(ErrSyntax));
    EmptyIsNoNumber(0);
  }

  /** Two numbers with a dash between them. */
  ghost predicate ArePositions(text: string, r: Range) {
    r.start >= 0 && r.end >= 0 && exists first, last ::
      text == first + "-" + last && NumberIs(first, r.start, None) && NumberIs(last, r.end, None)
  }

  lemma NumberHasNoDash(text: string, v: nat)
    requires NumberIs(text, v, None)
    ensures '-' !in text
  {
    DenotesNumeral(text, v, 10);
  }

  /** What is made of the texts before and behind the first dash. */
  lemma PositionsAt(first: string, last: string, v: nat, e: Option<NumError>, v2: nat, e2: Option<NumError>)
    requires '-' !in first && NumberIs(first, v, e) && NumberIs(last, v2, e2)
    ensures ParsePositions(first + "-" + last) ==
            if e == Some(ErrSyntax) then Answer(Range(0, -1), Some(MalformedContentRange))
            else if e2 != None then Answer(Range(v, v2), Some(BadNumber(e2.value)))
            else Answer(Range(v, v2), if e == None then None else Some(BadNumber(e.value)))
  {
    hide NumberIs, ParseUint, IndexOf;
    NumberIff(first, v, e);
    NumberIff(last, v2, e2);
    IndexOfSplit(first, '-', last);
    assert first + "-" + last == first + ['-'] + last;
    if e == Some(ErrSyntax) {
      SyntaxIsZero(first, v);
    }
  }

  lemma SyntaxIsZero(text: string, v: nat)
    requires NumberIs(text, v, Some(ErrSyntax))
    ensures v == 0
  {
  }

  /** What ParseUint makes of a text. */
  lemma NumberOf(text: string) returns (v: nat, e: Option<NumError>)
    ensures NumberIs(text, v, e)
  {
    v, e := ParseUint(text, 10, MAX_INT64).0, ParseUint(text, 10, MAX_INT64).1;
    NumberIff(text, v, e);
  }

  lemma PositionsIff(text: string, r: Range)
    ensures ParsePositions(text) == Answer(r, None) <==> ArePositions(text, r)
  {
    hide NumberIs, ParsePositions, IndexOf;
    var i := IndexOf(text, '-');
    if i >= 0 {
      var first, last := text[..i], text[i + 1..];
      assert text == text[..i] + [text[i]] + text[i + 1..];
      var v, e := NumberOf(first);
      var v2, e2 := NumberOf(last);
      PositionsAt(first, last, v, e, v2, e2);
    } else {
      NoDash(text);
    }
    if ArePositions(text, r) {
      var first, last :| text == first + "-" + last && NumberIs(first, r.start, None) && NumberIs(last, r.end, None);
      NumberHasNoDash(first, r.start);
      PositionsAt(first, last, r.start, None, r.end, None);
    }
  }

  lemma NoDash(text: string)
    ensures IndexOf(text, '-') < 0 ==> ParsePositions(text) == Answer(Range(0, -1), Some(MalformedContentRange))
    ensures IndexOf(text, '-') >= 0 <==> '-' in text
  {
  }

  /** Which headers have a range: positions, or none to tell. */
  lemma RangeIff(h: Header, r: Range)
    ensures RangeOf(h) == Panic <==> TooShort(h)
    ensures RangeOf(h) == Answer(r, None) <==>
            || (r == Range(0, -1) &&
                (Has(h, "Content-Range", []) || exists size :: InBytes(h, "*", size)))
            || exists range, size :: InBytes(h, range, size) && ArePositions(range, r)
  {
    KindSplits(h);
    var crs := GetValues(h, CONTENT_RANGE);
    hide SplitContentRange, ParsePositions, ArePositions, TooShort, OtherUnits, NoSlash, InBytes;
    SameParts(h);
    PositionsIff("", r);
    PositionsIff("*", r);
    NoPositions(r);
    NeverPanics("");
    if |crs| == 1 {
      var range, size := OneKind(h, crs[0]);
      PositionsIff(range, r);
      NeverPanics(range);
    }
  }

  lemma NeverPanics(text: string)
    ensures ParsePositions(text) != Panic
  {
  }

  lemma NoPositions(r: Range)
    ensures !ArePositions("", r) && !ArePositions("*", r)
  {
    NoDash("");
    NoDash("*");
    hide ParsePositions, ArePositions;
    PositionsIff("", r);
    PositionsIff("*", r);
  }

  /** And the error, and the range beside it, of all others: those without positions, */
  lemma RangeErrors(h: Header, range: string, size: string)
    ensures "Content-Range" in h && |h["Content-Range"]| > 1 ==>
              RangeOf(h) == Answer(Range(0, -1), Some(MultipleContentRange))
    ensures NoSlash(h) || OtherUnits(h) ==> RangeOf(h) == Answer(Range(0, -1), Some(MalformedContentRange))
    ensures InBytes(h, range, size) && range != "*" && '-' !in range ==>
              RangeOf(h) == Answer(Range(0, -1), Some(MalformedContentRange))
  {
    KindSplits(h);
    hide SplitContentRange, OtherUnits, NoSlash, InBytes, IndexOf, ParsePositions;
    NoDash("");
    NoDash(range);
  }

  /** and those with positions that are no numbers. */
  lemma PositionErrors(h: Header, size: string, first: string, last: string,
                       v: nat, e: Option<NumError>, v2: nat, e2: Option<NumError>)
    requires NumberIs(first, v, e) && NumberIs(last, v2, e2) && '-' !in first
    requires InBytes(h, first + "-" + last, size)
    ensures RangeOf(h) ==
            if e == Some(ErrSyntax) then Answer(Range(0, -1), Some(MalformedContentRange))
            else if e2 != None then Answer(Range(v, v2), Some(BadNumber(e2.value)))
            else Answer(Range(v, v2), if e == None then None else Some(BadNumber(e.value)))
  {
    InBytesSplits(h, first + "-" + last, size);
    assert (first + "-" + last)[|first|] == '-';
    hide SplitContentRange, ParsePositions, NumberIs, InBytes;
    PositionsAt(first, last, v, e, v2, e2);
  }
}
