/** What any run of SetSize and SetRange leaves behind: the headers follow a record of a size and a range. */
module MetadataRuns {
  import opened Strconv
  import opened Ranges
  import opened Metadata

  /** No Content-Range, one without positions, or one with them. */
  datatype Positioned = Unset | Unknown | Part(start: int, end: int)

  /** size is -1 when unknown; length is what Content-Length says; chunked tells of a final chunked coding. */
  datatype Record = Record(size: int, range: Positioned, length: Option<int>, chunked: bool) {
    predicate Valid() {
      && -1 <= size <= MAX_INT64
      && (range.Part? ==> 0 <= range.start <= MAX_INT64 && 0 <= range.end <= MAX_INT64)
      && (range.Part? ==> length == Some(Wrap64(range.end - range.start + 1)))
      && (range.Unset? ==> length == if size < 0 then None else Some(size))
      && (length.Some? ==> IsInt64(length.value) && !chunked)
    }

    function Size(): Answer<int> {
      Answer(size, if range.Unknown? && size < 0 then Some(MalformedContentRange) else None)
    }

    function Range(): Answer<Range> {
      Answer(if range.Part? then Ranges.Range(range.start, range.end) else Ranges.Range(0, -1), None)
    }
  }

  datatype Op = SetSize(n: int) | SetRange(r: Range) {
    predicate Int64() {
      if SetSize? then IsInt64(n) else r.Int64()
    }
  }

  function StepSize(a: Record, n: int): Record {
    if a.range.Unset? then Record(n, Unset, if n < 0 then None else Some(n), n < 0)
    else Record(n, a.range, a.length, a.chunked)
  }

  function Placed(size: int, r: Range): Record {
    Record(size, Part(r.start, r.end), Some(Wrap64(r.end - r.start + 1)), false)
  }

  /** The record after an update, and what the update answers. */
  function Step(a: Record, op: Op): (Record, Answer<()>) {
    match op
    case SetSize(n) => if n < -1 then (a, Panic) else (StepSize(a, n), Answer((), None))
    case SetRange(r) =>
      if a.size >= 0 then
        if r.Abs(a.size).IsAbsolute() then (Placed(a.size, r.Abs(a.size)), Answer((), None))
        else (a, Answer((), Some(RangeTooLarge)))
      else if r.IsAbsolute() then (Placed(-1, r), Answer((), a.Size().err))
      else if a.range.Unknown? then (a, Answer((), Some(MalformedContentRange)))
      else (Record(-1, Unknown, a.length, a.chunked), Answer((), Some(RangeNotSatisfiable)))
  }

  // ---------------------------------------------------------------- the record in the headers

  function SizeText(n: int): string {
    if n < 0 then "*" else FormatInt(n)
  }

  function RangeText(p: Positioned): string
    requires p.Part? ==> p.start >= 0 && p.end >= 0
  {
    if p.Part? then Positions(p.start, p.end) else "*"
  }

  /** The headers say what the record holds, with `base` the transfer codings before a final chunked. */
  predicate Shows(h: Header, a: Record, base: seq<string>)
    requires a.Valid()
  {
    && GetValues(h, CONTENT_RANGE) ==
         (if a.range.Unset? then [] else ["bytes " + RangeText(a.range) + "/" + SizeText(a.size)])
    && GetValues(h, CONTENT_LENGTH) == (if a.length == None then [] else [FormatInt(a.length.value)])
    && GetValues(h, TRANSFER_ENCODING) == (if a.chunked then base + [CHUNKED] else base)
    && !EndsChunked(base)
  }

  ghost predicate SameElsewhere(h: Header, h2: Header) {
    forall k | k !in [CONTENT_RANGE, CONTENT_LENGTH, TRANSFER_ENCODING] ::
      (k in h <==> k in h2) && GetValues(h, k) == GetValues(h2, k)
  }

  lemma KeysDiffer()
    ensures CONTENT_RANGE != CONTENT_LENGTH && CONTENT_RANGE != TRANSFER_ENCODING && CONTENT_LENGTH != TRANSFER_ENCODING
  {
    assert |CONTENT_RANGE| == 13 && |CONTENT_LENGTH| == 14 && |TRANSFER_ENCODING| == 17;
  }

  lemma SplitShown(range: string, size: string)
    requires '/' !in range
    ensures SplitValue("bytes " + range + "/" + size) == Answer(Parts(true, range, size), None)
  {
    hide IndexOf;
    var cr := "bytes " + range + "/" + size;
    assert cr[..6] == "bytes " && cr[6..] == range + ['/'] + size;
    IndexOfSplit(range, '/', size);
  }

  lemma RangeTextFree(p: Positioned)
    requires p.Part? ==> p.start >= 0 && p.end >= 0
    ensures '/' !in RangeText(p)
    ensures p.Part? ==> RangeText(p) != "*"
  {
    if p.Part? {
      DecimalFree(p.start, '/');
      DecimalFree(p.end, '/');
      assert |RangeText(p)| >= 3;
    }
  }

  /** The content range, split, gives back the record's parts. */
  lemma SplitShows(h: Header, a: Record, base: seq<string>)
    requires a.Valid() && Shows(h, a, base)
    ensures SplitContentRange(h) ==
            Answer(if a.range.Unset? then Parts(false, "", "")
                   else Parts(true, RangeText(a.range), SizeText(a.size)), None)
  {
    hide RangeText, SizeText, SplitValue, FormatInt;
    if !a.range.Unset? {
      RangeTextFree(a.range);
      SplitShown(RangeText(a.range), SizeText(a.size));
    }
  }

  lemma ParseSize(n: int)
    requires 0 <= n <= MAX_INT64
    ensures ParseUint(FormatInt(n), 10, MAX_INT64) == (n, None)
    ensures FormatInt(n) == FormatUint(n, 10) && FormatInt(n) != "*"
  {
    ParseFormat(n, 10, MAX_INT64);
  }

  /** Size reads the record's size. */
  lemma SizeShows(h: Header, a: Record, base: seq<string>)
    requires a.Valid() && Shows(h, a, base)
    ensures SizeOf(h) == a.Size()
  {
    hide SplitContentRange, FormatInt, ParseUint;
    SplitShows(h, a, base);
    RangeTextFree(a.range);
    if a.size >= 0 {
      ParseSize(a.size);
    }
  }

  lemma ParsePositionsBack(start: nat, end: nat)
    requires start <= MAX_INT64 && end <= MAX_INT64
    ensures ParsePositions(Positions(start, end)) == Answer(Range(start, end), None)
  {
    hide FormatUint, ParseUint, IndexOf;
    var a, b := FormatUint(start, 10), FormatUint(end, 10);
    DecimalFree(start, '-');
    IndexOfSplit(a, '-', b);
    assert Positions(start, end) == a + ['-'] + b;
    ParseFormat(start, 10, MAX_INT64);
    ParseFormat(end, 10, MAX_INT64);
  }

  /** Range reads the record's range. */
  lemma RangeShows(h: Header, a: Record, base: seq<string>)
    requires a.Valid() && Shows(h, a, base)
    ensures RangeOf(h) == a.Range()
  {
    hide SplitContentRange, ParsePositions, Positions;
    SplitShows(h, a, base);
    RangeTextFree(a.range);
    if a.range.Part? {
      ParsePositionsBack(a.range.start, a.range.end);
    }
  }

  lemma StepValid(a: Record, op: Op)
    requires a.Valid() && op.Int64()
    ensures Step(a, op).0.Valid()
  {
  }

  lemma LengthShows(h: Header, a: Record, base: seq<string>, l: int)
    requires GetValues(h, TRANSFER_ENCODING) == (if a.chunked then base + [CHUNKED] else base) && !EndsChunked(base)
    ensures var h2 := WithLength(h, l);
            && GetValues(h2, CONTENT_RANGE) == GetValues(h, CONTENT_RANGE)
            && GetValues(h2, CONTENT_LENGTH) == [FormatInt(l)]
            && GetValues(h2, TRANSFER_ENCODING) == base
            && SameElsewhere(h, h2)
  {
    hide FormatInt;
    KeysDiffer();
    assert (base + [CHUNKED])[..|base|] == base;
  }

  lemma NoLengthShows(h: Header, a: Record, base: seq<string>)
    requires a.Valid() && Shows(h, a, base)
    ensures var h2 := WithoutLength(h);
            && GetValues(h2, CONTENT_RANGE) == GetValues(h, CONTENT_RANGE)
            && GetValues(h2, CONTENT_LENGTH) == []
            && GetValues(h2, TRANSFER_ENCODING) == base + [CHUNKED]
            && SameElsewhere(h, h2)
  {
    KeysDiffer();
  }

  lemma RangeHeaderShows(h: Header, range: string, size: string)
    ensures var h2 := WithRange(h, range, size);
            && GetValues(h2, CONTENT_RANGE) == ["bytes " + range + "/" + size]
            && GetValues(h2, CONTENT_LENGTH) == GetValues(h, CONTENT_LENGTH)
            && GetValues(h2, TRANSFER_ENCODING) == GetValues(h, TRANSFER_ENCODING)
            && SameElsewhere(h, h2)
  {
    KeysDiffer();
  }

  function After(h: Header, op: Op): Updated {
    match op
    case SetSize(n) => AfterSetSize(h, n)
    case SetRange(r) => AfterSetRange(h, r)
  }

  /** One call behaves on the headers as its step does on the record. */
  ghost predicate Refines(h: Header, a: Record, base: seq<string>, op: Op)
    requires a.Valid()
  {
    var (a2, answer) := Step(a, op);
    var u := After(h, op);
    u.answer == answer && a2.Valid() && Shows(u.h, a2, base) && SameElsewhere(h, u.h)
  }

  lemma SizeWithoutRange(h: Header, a: Record, base: seq<string>, n: int)
    requires a.Valid() && Shows(h, a, base) && -1 <= n <= MAX_INT64 && a.range.Unset?
    ensures Refines(h, a, base, SetSize(n))
  {
    hide SplitContentRange, WithLength, WithoutLength, WithRange, FormatInt, SameElsewhere, GetValues, EndsChunked;
    SplitShows(h, a, base);
    if n < 0 {
      NoLengthShows(h, a, base);
    } else {
      LengthShows(h, a, base, n);
    }
  }

  lemma SizeWithRange(h: Header, a: Record, base: seq<string>, n: int)
    requires a.Valid() && Shows(h, a, base) && -1 <= n <= MAX_INT64 && !a.range.Unset?
    ensures Refines(h, a, base, SetSize(n))
  {
    hide SplitContentRange, WithLength, WithoutLength, WithRange, FormatInt, SameElsewhere;
    hide GetValues, EndsChunked, Positions;
    SplitShows(h, a, base);
    RangeHeaderShows(h, RangeText(a.range), SizeText(n));
  }

  /** Content-Range and Content-Length of a part, whatever they were before. */
  lemma PlacedShows(h: Header, a: Record, base: seq<string>, size: int, r: Range)
    requires a.Valid() && Shows(h, a, base) && -1 <= size <= MAX_INT64
    requires 0 <= r.start <= MAX_INT64 && 0 <= r.end <= MAX_INT64
    ensures var h2 := WithLength(WithRange(h, Positions(r.start, r.end), SizeText(size)), Wrap64(r.end - r.start + 1));
            Placed(size, r).Valid() && Shows(h2, Placed(size, r), base) && SameElsewhere(h, h2)
  {
    hide WithLength, WithRange, FormatInt, Positions, SizeText;
    var h1 := WithRange(h, Positions(r.start, r.end), SizeText(size));
    RangeHeaderShows(h, Positions(r.start, r.end), SizeText(size));
    LengthShows(h1, a, base, Wrap64(r.end - r.start + 1));
  }

  lemma UnknownShows(h: Header, a: Record, base: seq<string>)
    requires a.Valid() && Shows(h, a, base) && a.size < 0 && !a.range.Unknown?
    ensures var a2, h2 := Record(-1, Unknown, a.length, a.chunked), WithRange(h, "*", "*");
            a2.Valid() && Shows(h2, a2, base) && SameElsewhere(h, h2)
  {
    hide WithRange, FormatInt, Positions, SameElsewhere;
    RangeHeaderShows(h, "*", "*");
  }

  lemma RangeOnKnownSize(h: Header, a: Record, base: seq<string>, r: Range)
    requires a.Valid() && Shows(h, a, base) && r.Int64() && a.size >= 0
    ensures Refines(h, a, base, SetRange(r))
  {
    hide SizeOf, WithLength, WithRange, FormatInt, FormatUint, Positions, Shows, SameElsewhere, Wrap64;
    NothingElse(h);
    SizeShows(h, a, base);
    ParseSize(a.size);
    var abs := r.Abs(a.size);
    if abs.IsAbsolute() {
      PlacedShows(h, a, base, a.size, abs);
    }
  }

  lemma RangeOnUnknownSize(h: Header, a: Record, base: seq<string>, r: Range)
    requires a.Valid() && Shows(h, a, base) && r.Int64() && a.size < 0
    ensures Refines(h, a, base, SetRange(r))
  {
    hide SizeOf, WithLength, WithRange, FormatInt, FormatUint, Positions, Shows, SameElsewhere, Wrap64;
    NothingElse(h);
    SizeShows(h, a, base);
    if r.IsAbsolute() {
      PlacedShows(h, a, base, -1, r);
    } else if !a.range.Unknown? {
      UnknownShows(h, a, base);
    }
  }

  // ---------------------------------------------------------------- whole runs

  lemma StepRefines(h: Header, a: Record, base: seq<string>, op: Op)
    requires a.Valid() && Shows(h, a, base) && op.Int64()
    ensures Refines(h, a, base, op)
  {
    match op
    case SetSize(n) =>
      if n >= -1 {
        hide Refines;
        if a.range.Unset? {
          SizeWithoutRange(h, a, base, n);
        } else {
          SizeWithRange(h, a, base, n);
        }
      } else {
        hide Shows, SameElsewhere;
        SplitShows(h, a, base);
        NothingElse(h);
      }
    case SetRange(r) =>
      hide Refines;
      if a.size >= 0 {
        RangeOnKnownSize(h, a, base, r);
      } else {
        RangeOnUnknownSize(h, a, base, r);
      }
  }

  lemma NothingElse(h: Header)
    ensures SameElsewhere(h, h)
  {
  }

  /** The headers after a run of calls, and the answers of the calls. */
  function Play(h: Header, ops: seq<Op>): (Header, seq<Answer<()>>) {
    if ops == [] then (h, [])
    else
      var (before, answers) := Play(h, ops[..|ops| - 1]);
      var u := After(before, ops[|ops| - 1]);
      (u.h, answers + [u.answer])
  }

  function Follow(a: Record, ops: seq<Op>): (Record, seq<Answer<()>>) {
    if ops == [] then (a, [])
    else
      var (before, answers) := Follow(a, ops[..|ops| - 1]);
      var (after, answer) := Step(before, ops[|ops| - 1]);
      (after, answers + [answer])
  }

  predicate AllInt64(ops: seq<Op>) {
    forall i | 0 <= i < |ops| :: ops[i].Int64()
  }

  /** Every run on the headers answers as the run on the record, errors and panics included, and Size and
      Range read the record; no other header changes. */
  lemma {:induction false} RunRefines(h: Header, a: Record, base: seq<string>, ops: seq<Op>)
    requires a.Valid() && Shows(h, a, base) && AllInt64(ops)
    ensures Play(h, ops).1 == Follow(a, ops).1
    ensures Follow(a, ops).0.Valid() && Shows(Play(h, ops).0, Follow(a, ops).0, base)
    ensures SizeOf(Play(h, ops).0) == Follow(a, ops).0.Size() && RangeOf(Play(h, ops).0) == Follow(a, ops).0.Range()
    ensures SameElsewhere(h, Play(h, ops).0)
  {
    hide Shows, After, Step, SizeOf, RangeOf;
    if ops == [] {
    } else {
      var n := |ops| - 1;
      RunRefines(h, a, base, ops[..n]);
      StepRefines(Play(h, ops[..n]).0, Follow(a, ops[..n]).0, base, ops[n]);
    }
    SizeShows(Play(h, ops).0, Follow(a, ops).0, base);
    RangeShows(Play(h, ops).0, Follow(a, ops).0, base);
  }

  /** The size set last, a negative one other than -1 having panicked. */
  function LastSize(first: int, ops: seq<Op>): int {
    if ops == [] then first
    else
      var last := ops[|ops| - 1];
      if last.SetSize? && last.n >= -1 then last.n else LastSize(first, ops[..|ops| - 1])
  }

  /** The range set last, made absolute with the size known then; none if that took an unknown size. */
  function LastRange(size: int, first: Positioned, ops: seq<Op>): Positioned {
    if ops == [] then first
    else
      var last, before := ops[|ops| - 1], ops[..|ops| - 1];
      if last.SetSize? then LastRange(size, first, before)
      else
        var known := LastSize(size, before);
        var abs := last.r.Abs(known);
        if known < 0 && !last.r.IsAbsolute() then Unknown
        else if abs.IsAbsolute() then Part(abs.start, abs.end)
        else LastRange(size, first, before)
  }

  /** The record holds what was set last. */
  lemma {:induction false} FollowLast(a: Record, ops: seq<Op>)
    requires a.Valid() && AllInt64(ops)
    ensures Follow(a, ops).0.Valid()
    ensures Follow(a, ops).0.size == LastSize(a.size, ops)
    ensures Follow(a, ops).0.range == LastRange(a.size, a.range, ops)
  {
    if ops != [] {
      FollowLast(a, ops[..|ops| - 1]);
      StepValid(Follow(a, ops[..|ops| - 1]).0, ops[|ops| - 1]);
    }
  }

  /** Headers that say nothing of size or range yet. */
  predicate Plain(h: Header, base: seq<string>) {
    && GetValues(h, CONTENT_RANGE) == [] && GetValues(h, CONTENT_LENGTH) == []
    && GetValues(h, TRANSFER_ENCODING) in [base, base + [CHUNKED]]
    && !EndsChunked(base)
  }

  lemma PlainShows(h: Header, base: seq<string>) returns (a: Record)
    requires Plain(h, base)
    ensures a == Record(-1, Unset, None, a.chunked) && a.Valid() && Shows(h, a, base)
  {
    a := Record(-1, Unset, None, GetValues(h, TRANSFER_ENCODING) != base);
  }

  /** From such headers, after any run: Size and Range give the last values set; Content-Length is the
      length of the range or else the size; and it never stands beside a final chunked coding. */
  lemma PlainRun(h: Header, base: seq<string>, ops: seq<Op>)
    requires Plain(h, base) && AllInt64(ops)
    ensures var h2, size, range := Play(h, ops).0, LastSize(-1, ops), LastRange(-1, Unset, ops);
            && SizeOf(h2) == Answer(size, if range.Unknown? && size < 0 then Some(MalformedContentRange) else None)
            && RangeOf(h2) == Answer(if range.Part? then Range(range.start, range.end) else Range(0, -1), None)
            && (range.Part? ==> GetValues(h2, "Content-Length") == [FormatInt(Wrap64(range.end - range.start + 1))])
            && (range.Unset? ==> GetValues(h2, "Content-Length") == if size < 0 then [] else [FormatInt(size)])
            && (range.Part? ==> GetValues(h2, "Content-Range") == [PartText(range.start, range.end, size)])
            && (range.Unset? ==> GetValues(h2, "Content-Range") == [])
            && (GetValues(h2, "Content-Length") == []
                || forall codes :: GetValues(h2, "Transfer-Encoding") != codes + ["chunked"])
  {
    hide SizeOf, RangeOf, LastSize, LastRange, Play, Follow, FormatInt, GetValues, Shows, PartText, Wrap64;
    var a := PlainShows(h, base);
    RunRefines(h, a, base, ops);
    FollowLast(a, ops);
    ShownTexts(Play(h, ops).0, Follow(a, ops).0, base);
  }

  /** The texts of headers that show a record. */
  lemma ShownTexts(h: Header, a: Record, base: seq<string>)
    requires a.Valid() && Shows(h, a, base)
    ensures a.range.Part? ==>
              && GetValues(h, "Content-Length") == [FormatInt(Wrap64(a.range.end - a.range.start + 1))]
              && GetValues(h, "Content-Range") == [PartText(a.range.start, a.range.end, a.size)]
    ensures a.range.Unset? ==>
              && GetValues(h, "Content-Length") == (if a.size < 0 then [] else [FormatInt(a.size)])
              && GetValues(h, "Content-Range") == []
    ensures GetValues(h, "Content-Length") == []
            || forall codes :: GetValues(h, "Transfer-Encoding") != codes + ["chunked"]
  {
    hide FormatInt, GetValues, RangeText, PartText, Wrap64;
    if a.range.Part? {
      PartTextIs(a.range, a.size);
    }
    forall codes | GetValues(h, TRANSFER_ENCODING) == codes + [CHUNKED]
      ensures EndsChunked(GetValues(h, TRANSFER_ENCODING))
    {
    }
  }

  /** Content-Range as section 4.2 of RFC 7233 has it. */
  function PartText(start: int, end: int, size: int): string {
    "bytes " + FormatInt(start) + "-" + FormatInt(end) + "/" + (if size < 0 then "*" else FormatInt(size))
  }

  lemma PartTextIs(range: Positioned, size: int)
    requires range.Part? && range.start >= 0 && range.end >= 0
    ensures "bytes " + RangeText(range) + "/" + SizeText(size) == PartText(range.start, range.end, size)
  {
    var a, b := FormatInt(range.start), FormatInt(range.end);
    assert a == FormatUint(range.start, 10) && b == FormatUint(range.end, 10);
    hide FormatInt;
    assert "bytes " + (a + "-" + b) == "bytes " + a + "-" + b;
  }

  /** Of n bytes of data, on whatever headers give that size, the last k but for the last j - 1 are written as
      those from n - k to n - j, with their number; more than there are is an error that writes nothing. */
  lemma SuffixWritten(h: Header, n: nat, k: nat, j: nat)
    requires SizeOf(h).Answer? && SizeOf(h).value == n && 0 < j <= k <= MAX_INT64
    ensures var u := AfterSetRange(h, Range(0 - k, 0 - j));
            if k <= n then
              && u.answer == Answer((), SizeOf(h).err)
              && GetValues(u.h, "Content-Range") == [PartText(n - k, n - j, n)]
              && GetValues(u.h, "Content-Length") == [FormatInt(k - j + 1)]
            else u == Updated(h, Answer((), Some(RangeTooLarge)))
  {
    hide SizeOf, FormatInt, Positions, PartText;
    KeysDiffer();
    if k <= n {
      SizeFits(h);
      PartTextIs(Part(n - k, n - j), n);
      NumberText(n);
    }
  }

  lemma NumberText(n: nat)
    ensures FormatInt(n) == FormatUint(n, 10)
  {
  }

  /** The positions SetRange writes, if it writes any. */
  function Written(h: Header, r: Range): Option<Range> {
    var known := SizeOf(h);
    if known == Panic then None
    else
      var abs := if known.value > -1 then r.Abs(known.value) else r;
      if abs.IsAbsolute() then Some(abs) else None
  }

  /** On whatever headers and size, the Content-Length that SetRange writes is the length of the range, except
      exactly for the range of all positions int64 has. */
  lemma LengthExactIff(h: Header, r: Range)
    requires r.Int64() && Written(h, r).Some?
    ensures var abs := Written(h, r).value;
            GetValues(AfterSetRange(h, r).h, CONTENT_LENGTH) == [FormatInt(abs.end - abs.start + 1)] <==>
            abs != Range(0, MAX_INT64)
  {
    hide Written, AfterSetRange, GetValues, FormatInt;
    var abs := Written(h, r).value;
    var length := abs.end - abs.start + 1;
    WrittenFits(h, r);
    LengthWritten(h, r);
    if abs == Range(0, MAX_INT64) {
      FormatSigns(length, Wrap64(length));
    }
  }

  lemma WrittenFits(h: Header, r: Range)
    requires r.Int64() && Written(h, r).Some?
    ensures var abs := Written(h, r).value;
            0 <= abs.start <= MAX_INT64 && 0 <= abs.end <= MAX_INT64
  {
    hide SizeOf;
    SizeFits(h);
  }

  lemma SizeFits(h: Header)
    requires SizeOf(h) != Panic
    ensures -1 <= SizeOf(h).value <= MAX_INT64
  {
    var split := SplitContentRange(h);
    var lengths := GetValues(h, CONTENT_LENGTH);
    hide SplitContentRange, GetValues, ParseUint;
    ParseFits(split.value.size);
    if |lengths| == 1 {
      ParseFits(lengths[0]);
    }
  }

  lemma ParseFits(s: string)
    ensures ParseUint(s, 10, MAX_INT64).0 <= MAX_INT64
  {
    ParseFromFits(s, 0);
  }

  lemma {:induction false} ParseFromFits(s: string, acc: nat)
    requires acc <= MAX_INT64
    ensures ParseFrom(s, acc, 10, MAX_INT64).0 <= MAX_INT64
  {
    if s != [] && DigitValue(s[0], 10) != None {
      var next := acc * 10 + DigitValue(s[0], 10).value;
      if next <= MAX_INT64 {
        ParseFromFits(s[1..], next);
      }
    }
  }

  lemma LengthWritten(h: Header, r: Range)
    requires Written(h, r).Some?
    ensures var abs := Written(h, r).value;
            GetValues(AfterSetRange(h, r).h, CONTENT_LENGTH) == [FormatInt(Wrap64(abs.end - abs.start + 1))]
  {
    hide SizeOf, FormatInt, Positions, WithRange, Wrap64;
    KeysDiffer();
  }

  /** A negative number is printed like no other sign. */
  lemma FormatSigns(a: int, b: int)
    requires b < 0 <= a
    ensures FormatInt(a) != FormatInt(b)
  {
    DecimalFree(a, '-');
    assert FormatInt(b)[0] == '-';
  }

  /** Setting a size and setting an absolute range commute: every header comes out the same. The range's
      answer differs exactly when a range without positions was recorded and one size is known and one not. */
  lemma SizeAndRangeCommute(h: Header, a: Record, base: seq<string>, n: int, r: Range)
    requires a.Valid() && Shows(h, a, base) && -1 <= n <= MAX_INT64 && r.Int64() && r.IsAbsolute()
    ensures var sizeFirst := After(After(h, SetSize(n)).h, SetRange(r));
            var rangeFirst := After(h, SetRange(r));
            && (forall k :: GetValues(sizeFirst.h, k) == GetValues(After(rangeFirst.h, SetSize(n)).h, k))
            && (sizeFirst.answer == rangeFirst.answer <==> (a.range.Unknown? ==> (a.size < 0 <==> n < 0)))
  {
    hide After, GetValues, EndsChunked, FormatInt, Positions;
    var a1, a2 := Step(a, SetSize(n)).0, Step(a, SetRange(r)).0;
    StepRefines(h, a, base, SetSize(n));
    StepRefines(h, a, base, SetRange(r));
    StepRefines(After(h, SetSize(n)).h, a1, base, SetRange(r));
    StepRefines(After(h, SetRange(r)).h, a2, base, SetSize(n));
    assert Step(a1, SetRange(r)).0 == Step(a2, SetSize(n)).0;
  }

  // ---------------------------------------------------------------- headers from elsewhere

  /** Beside several Content-Range values every read and every update answers with that error; an update
      still writes one value in their place, a size without a range in it. */
  lemma SeveralContentRanges(h: Header, n: int, r: Range)
    requires |GetValues(h, CONTENT_RANGE)| > 1 && n >= -1
    ensures SizeOf(h) == Answer(-1, Some(MultipleContentRange))
    ensures RangeOf(h) == Answer(Range(0, -1), Some(MultipleContentRange))
    ensures AfterSetSize(h, n) == Updated(WithRange(h, "", SizeText(n)), Answer((), Some(MultipleContentRange)))
    ensures AfterSetRange(h, r).answer == Answer((), Some(MultipleContentRange))
    ensures GetValues(AfterSetRange(h, r).h, CONTENT_RANGE) ==
            if r.IsAbsolute() then ["bytes " + Positions(r.start, r.end) + "/*"] else GetValues(h, CONTENT_RANGE)
  {
    hide FormatInt, Positions;
    KeysDiffer();
    if r.IsAbsolute() {
      var range := "bytes " + Positions(r.start, r.end);
      assert range + "/" + "*" == range + "/*";
    }
  }

  /** A Content-Range in another unit counts as a size of 0 with an error, so a relative range set on it is
      one of no data. */
  lemma OtherUnit(h: Header, cr: string, r: Range)
    requires GetValues(h, CONTENT_RANGE) == [cr] && |cr| >= 6 && cr[..6] != "bytes "
    ensures SizeOf(h) == Answer(0, Some(BadNumber(ErrSyntax)))
    ensures RangeOf(h) == Answer(Range(0, -1), Some(MalformedContentRange))
    ensures AfterSetRange(h, r).answer ==
            Answer((), Some(if r.IsAbsolute() then BadNumber(ErrSyntax) else RangeTooLarge))
  {
    hide FormatInt, Positions;
  }

  /** Several Content-Length values are no size, and setting one replaces them. */
  lemma SeveralLengths(h: Header, n: int)
    requires GetValues(h, CONTENT_RANGE) == [] && |GetValues(h, CONTENT_LENGTH)| > 1 && 0 <= n <= MAX_INT64
    ensures SizeOf(h) == Answer(-1, Some(TooManyContentLength))
    ensures SizeOf(AfterSetSize(h, n).h) == Answer(n, None)
  {
    hide FormatInt, ParseUint;
    KeysDiffer();
    ParseSize(n);
  }
}
