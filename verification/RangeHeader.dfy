/** Printing and parsing the value of the HTTP Range header (sections 2.1 and 3.1 of RFC 7233). */
module RangeHeader {
  import opened Strconv
  import opened Ranges

  /** A 400 or a 416 response. */
  datatype RangeError = MalformedRange | RangeNotSatisfiable

  function NumErrorToHttp(e: NumError): RangeError {
    if e == ErrRange then RangeNotSatisfiable else MalformedRange
  }

  /** What ParseRangeHeader comes to: an index out of range, (nil, nil), or ranges and perhaps an error. */
  datatype Parsed = Panic | UnknownUnit | Parsed(ranges: seq<Range>, err: Option<RangeError>)

  const BYTES_UNIT: string := "bytes="

  // ---------------------------------------------------------------- printing

  /** The ranges HTTP can express. */
  predicate Formattable(r: Range) {
    r.end >= -1 && (r.start < 0 ==> r.end == -1)
  }

  /** A byte-range-spec, or None for a range HTTP cannot express. */
  function FormatRange(r: Range): (spec: Option<string>)
    ensures spec.Some? <==> Formattable(r)
  {
    if r.start < 0 then (if r.end != -1 then None else Some("-" + FormatUint(-r.start, 10)))
    else if r.end < 0 then (if r.end != -1 then None else Some(FormatUint(r.start, 10) + "-"))
    else Some(FormatUint(r.start, 10) + "-" + FormatUint(r.end, 10))
  }

  /** The specs of a list, comma-separated. */
  function FormatAll(rs: seq<Range>): string
    requires forall r | r in rs :: Formattable(r)
  {
    if rs == [] then ""
    else if |rs| == 1 then FormatRange(rs[0]).value
    else FormatAll(rs[..|rs| - 1]) + "," + FormatRange(rs[|rs| - 1]).value
  }

  /** FormatRanges: all the specs, or those before the first range it cannot express. */
  method FormatRanges(rs: seq<Range>) returns (out: string, ok: bool)
    ensures ok <==> forall r | r in rs :: Formattable(r)
    ensures ok ==> out == FormatAll(rs)
    ensures !ok ==> exists i | 0 <= i < |rs| ::
              !Formattable(rs[i]) && (forall r | r in rs[..i] :: Formattable(r)) && out == FormatAll(rs[..i])
  {
    if |rs| == 0 {
      return "", true;
    }
    var spec := FormatRange(rs[0]);
    if spec == None {
      assert rs[..0] == [] && !Formattable(rs[0]);
      return "", false;
    }
    out := spec.value;
    var i := 1;
    assert rs[..1] == [rs[0]];
    while i < |rs|
      invariant 1 <= i <= |rs|
      invariant (forall r | r in rs[..i] :: Formattable(r)) && out == FormatAll(rs[..i])
    {
      spec := FormatRange(rs[i]);
      if spec == None {
        assert !Formattable(rs[i]);
        return out, false;
      }
      assert rs[..i + 1][..i] == rs[..i] && rs[..i + 1] == rs[..i] + [rs[i]];
      out := out + "," + spec.value;
      i := i + 1;
    }
    assert rs[..i] == rs;
    return out, true;
  }

  // ---------------------------------------------------------------- parsing

  /** Up to the first comma, and what follows it if there is one. */
  function SplitComma(v: string): (string, Option<string>) {
    var i := IndexOf(v, ',');
    if i < 0 then (v, None) else (v[..i], Some(v[i + 1..]))
  }

  /** One byte-range-spec and the text behind its comma, or what is wrong with it. */
  datatype Spec = Bad(err: RangeError) | Good(range: Range, more: Option<string>)

  function ParseSpec(v: string): (spec: Spec)
    ensures spec.Good? && spec.more.Some? ==> |spec.more.value| < |v|
  {
    var i := IndexOf(v, '-');
    if i < 0 then Bad(MalformedRange)
    else
      var (text, more) := SplitComma(v[i + 1..]);
      ReadSpec(v[..i], text, more)
  }

  /** The text before and behind the dash. */
  function ReadSpec(before: string, text: string, more: Option<string>): (spec: Spec)
    ensures spec.Good? ==> spec.more == more
  {
    var (start, err) := ParseUint(if before == "" then text else before, 10, MAX_INT64);
    if err.Some? then Bad(NumErrorToHttp(err.value))
    else if before == "" then Good(Range(0 - start, -1), more)
    else if text == "" then Good(Range(start, -1), more)
    else
      var (end, err2) := ParseUint(text, 10, MAX_INT64);
      if err2.Some? then Bad(NumErrorToHttp(err2.value)) else Good(Range(start, end), more)
  }

  function ParseList(v: string): (seq<Range>, Option<RangeError>)
    decreases |v|
  {
    var spec := ParseSpec(v);
    if spec.Bad? then ([], Some(spec.err))
    else if spec.more == None then ([spec.range], None)
    else
      var (rs, err) := ParseList(spec.more.value);
      ([spec.range] + rs, err)
  }

  /** One turn of the parser's loop, behind the ranges read so far. */
  lemma ListStep(out: seq<Range>, v: string)
    ensures var spec := ParseSpec(v);
            var (rs, err) := ParseList(v);
            if spec.Bad? then out + rs == out && err == Some(spec.err)
            else if spec.more == None then out + rs == out + [spec.range] && err == None
            else
              var (rs2, err2) := ParseList(spec.more.value);
              out + rs == (out + [spec.range]) + rs2 && err == err2
  {
    hide ParseSpec;
    var spec := ParseSpec(v);
    if spec.Bad? {
      assert ParseList(v) == ([], Some(spec.err));
    } else if spec.more == None {
      assert ParseList(v) == ([spec.range], None);
    } else {
      var rs2 := ParseList(spec.more.value).0;
      assert ParseList(v) == ([spec.range] + rs2, ParseList(spec.more.value).1);
      assert out + ([spec.range] + rs2) == (out + [spec.range]) + rs2;
    }
  }

  function ParseHeader(v: string): Parsed {
    if |v| < 6 then Panic
    else if v[..6] != BYTES_UNIT then UnknownUnit
    else Parsed(ParseList(v[6..]).0, ParseList(v[6..]).1)
  }

  /** The cases of the loop of ParseRangeHeader: `-b`, `a-` and `a-b`, each before a comma or at the end. */
  method NextSpec(v: string) returns (spec: Spec)
    ensures spec == ParseSpec(v)
  {
    hide IndexOf, ParseUint;
    var i := IndexOf(v, '-');
    if i == 0 {
      var rest := v[i + 1..];
      i := IndexOf(rest, ',');
      if i < 0 {
        var (endOffset, err) := ParseUint(rest, 10, MAX_INT64);
        if err.Some? {
          return Bad(NumErrorToHttp(err.value));
        }
        return Good(Range(0 - endOffset, -1), None);
      }
      var (endOffset, err) := ParseUint(rest[..i], 10, MAX_INT64);
      if err.Some? {
        return Bad(NumErrorToHttp(err.value));
      }
      return Good(Range(0 - endOffset, -1), Some(rest[i + 1..]));
    }
    if i > 0 {
      var (start, err) := ParseUint(v[..i], 10, MAX_INT64);
      if err.Some? {
        return Bad(NumErrorToHttp(err.value));
      }
      var rest := v[i + 1..];
      i := IndexOf(rest, ',');
      if i < 0 {
        if |rest| == 0 {
          return Good(Range(start, -1), None);
        }
        var (end, err2) := ParseUint(rest, 10, MAX_INT64);
        if err2.Some? {
          return Bad(NumErrorToHttp(err2.value));
        }
        return Good(Range(start, end), None);
      }
      if i == 0 {
        return Good(Range(start, -1), Some(rest[i + 1..]));
      }
      var (end, err2) := ParseUint(rest[..i], 10, MAX_INT64);
      if err2.Some? {
        return Bad(NumErrorToHttp(err2.value));
      }
      return Good(Range(start, end), Some(rest[i + 1..]));
    }
    return Bad(MalformedRange);
  }

  /** ParseRangeHeader slices v[:6] whatever the length of v; an error comes with the ranges before it. */
  method ParseRangeHeader(header: string) returns (p: Parsed)
    ensures p == ParseHeader(header)
    ensures p == Panic <==> |header| < 6
    ensures p == UnknownUnit <==> |header| >= 6 && !("bytes=" <= header)
  {
    assert "bytes=" <= header <==> |header| >= 6 && header[..6] == BYTES_UNIT;
    if |header| < 6 {
      return Panic;
    }
    if header[..6] != BYTES_UNIT {
      return UnknownUnit;
    }
    hide ParseSpec, ParseList;
    var v := header[6..];
    var out: seq<Range> := [];
    assert out + ParseList(v).0 == ParseList(v).0;
    while true
      invariant ParseHeader(header) == Parsed(out + ParseList(v).0, ParseList(v).1)
      decreases |v|
    {
      ListStep(out, v);
      var spec := NextSpec(v);
      if spec.Bad? {
        return Parsed(out, Some(spec.err));
      }
      out := out + [spec.range];
      if spec.more == None {
        return Parsed(out, None);
      }
      v := spec.more.value;
    }
  }

  // ---------------------------------------------------------------- the grammar

  /** A byte-range-spec or suffix-byte-range-spec as written; an absent last position is "". */
  datatype Written = FirstLast(first: string, last: string) | Suffix(length: string)

  /** The decimal digits of a number below 2^63. */
  predicate Number63(s: string) {
    s != [] && AllDigits(s, 10) && Numeral(s, 10) <= MAX_INT64
  }

  predicate ValidSpec(w: Written) {
    match w
    case FirstLast(first, last) => Number63(first) && (last == "" || Number63(last))
    case Suffix(length) => Number63(length)
  }

  function Text(w: Written): string {
    match w
    case FirstLast(first, last) => first + "-" + last
    case Suffix(length) => "-" + length
  }

  function Meaning(w: Written): Range
    requires ValidSpec(w)
  {
    match w
    case FirstLast(first, last) => Range(Numeral(first, 10), if last == "" then -1 else Numeral(last, 10))
    case Suffix(length) => Range(0 - Numeral(length, 10), -1)
  }

  function Tail(more: Option<string>): string {
    if more == None then "" else "," + more.value
  }

  function SetText(ws: seq<Written>): string {
    if ws == [] then "" else Text(ws[0]) + Tail(if |ws| == 1 then None else Some(SetText(ws[1..])))
  }

  predicate ValidSet(ws: seq<Written>) {
    forall w | w in ws :: ValidSpec(w)
  }

  function Meanings(ws: seq<Written>): seq<Range>
    requires ValidSet(ws)
  {
    seq(|ws|, i requires 0 <= i < |ws| => Meaning(ws[i]))
  }

  lemma NumberFree(s: string, c: char)
    requires Number63(s) && DigitValue(c, 10) == None
    ensures c !in s
  {
  }

  lemma SplitTail(text: string, more: Option<string>)
    requires ',' !in text
    ensures SplitComma(text + Tail(more)) == (text, more)
  {
    if more == None {
      assert text + "" == text;
    } else {
      IndexOfSplit(text, ',', more.value);
      assert text + Tail(more) == text + [','] + more.value;
    }
  }

  /** Both sides of the dash, and the comma. */
  lemma SplitText(before: string, text: string, more: Option<string>)
    requires '-' !in before && ',' !in text
    ensures ParseSpec(before + "-" + (text + Tail(more))) == ReadSpec(before, text, more)
  {
    hide IndexOf, ReadSpec, SplitComma, Tail;
    IndexOfSplit(before, '-', text + Tail(more));
    assert before + "-" + (text + Tail(more)) == before + ['-'] + (text + Tail(more));
    SplitTail(text, more);
  }

  lemma JoinTail(v: string)
    ensures v == SplitComma(v).0 + Tail(SplitComma(v).1)
  {
    var i := IndexOf(v, ',');
    hide IndexOf;
    if i < 0 {
      assert v + "" == v;
    } else {
      CutAt(v, i);
    }
  }

  lemma CutAt(v: string, i: nat)
    requires i < |v|
    ensures v == v[..i] + ([v[i]] + v[i + 1..])
  {
  }

  /** A valid spec, alone or before a comma, is read as what it means. */
  lemma ParseText(w: Written, more: Option<string>)
    requires ValidSpec(w)
    ensures ParseSpec(Text(w) + Tail(more)) == Good(Meaning(w), more)
  {
    hide ParseSpec, ParseUint, Numeral, AllDigits, Tail;
    match w
    case FirstLast(first, last) =>
      NumberFree(first, '-');
      if last != "" { NumberFree(last, ','); }
      SplitText(first, last, more);
      assert Text(w) + Tail(more) == first + "-" + (last + Tail(more));
      ParseUintIff(first, 10, MAX_INT64);
      ParseUintIff(last, 10, MAX_INT64);
    case Suffix(length) =>
      NumberFree(length, ',');
      SplitText("", length, more);
      assert Text(w) + Tail(more) == "" + "-" + (length + Tail(more));
      ParseUintIff(length, 10, MAX_INT64);
  }

  lemma ReadText(before: string, text: string, more: Option<string>) returns (w: Written)
    requires ReadSpec(before, text, more).Good?
    ensures ValidSpec(w) && Text(w) == before + "-" + text
    ensures ReadSpec(before, text, more) == Good(Meaning(w), more)
  {
    hide ParseUint, Numeral, AllDigits;
    ParseUintIff(text, 10, MAX_INT64);
    if before == "" {
      w := Suffix(text);
      assert "-" + text == before + "-" + text;
    } else {
      ParseUintIff(before, 10, MAX_INT64);
      w := FirstLast(before, text);
    }
  }

  /** What is read as a spec is one, alone or before a comma. */
  lemma ParsedText(v: string) returns (w: Written)
    requires ParseSpec(v).Good?
    ensures ValidSpec(w) && ParseSpec(v).range == Meaning(w) && v == Text(w) + Tail(ParseSpec(v).more)
  {
    hide IndexOf, ReadSpec, SplitComma, Text, ValidSpec, Meaning, Tail;
    var i := IndexOf(v, '-');
    var (text, more) := SplitComma(v[i + 1..]);
    w := ReadText(v[..i], text, more);
    JoinTail(v[i + 1..]);
    Regroup(v, i, text, Tail(more));
  }

  lemma Regroup(v: string, i: nat, a: string, b: string)
    requires i < |v| && v[i] == '-' && v[i + 1..] == a + b
    ensures v == v[..i] + "-" + a + b
  {
    assert v == v[..i] + [v[i]] + v[i + 1..];
  }

  lemma ConsSet(w: Written, rest: seq<Written>)
    requires ValidSpec(w) && ValidSet(rest)
    ensures ValidSet([w] + rest) && Meanings([w] + rest) == [Meaning(w)] + Meanings(rest)
    ensures SetText([w] + rest) == Text(w) + Tail(if rest == [] then None else Some(SetText(rest)))
  {
    hide Text, Meaning, ValidSpec;
    assert ([w] + rest)[1..] == rest;
  }

  lemma {:induction false} ParseSetText(ws: seq<Written>)
    requires ws != [] && ValidSet(ws)
    ensures ParseList(SetText(ws)) == (Meanings(ws), None)
  {
    hide ParseSpec, Text, Tail, Meaning, ValidSpec, SetText, Meanings;
    var w, rest := ws[0], ws[1..];
    assert ws == [w] + rest;
    ConsSet(w, rest);
    if rest == [] {
      ParseText(w, None);
      NoMeanings();
      assert [Meaning(w)] + [] == [Meaning(w)];
    } else {
      ParseText(w, Some(SetText(rest)));
      ParseSetText(rest);
    }
  }

  lemma NoMeanings()
    ensures Meanings([]) == []
  {
  }

  lemma {:induction false} ParsedSetText(v: string) returns (ws: seq<Written>)
    requires ParseList(v).1 == None
    ensures ws != [] && ValidSet(ws) && v == SetText(ws) && ParseList(v).0 == Meanings(ws)
    decreases |v|
  {
    hide ParseSpec, Text, Tail, Meaning, ValidSpec, SetText, Meanings;
    var w := ParsedText(v);
    if ParseSpec(v).more == None {
      ws := [w];
      ConsSet(w, []);
      NoMeanings();
      assert [w] + [] == [w] && [Meaning(w)] + [] == [Meaning(w)];
    } else {
      var rest := ParsedSetText(ParseSpec(v).more.value);
      ConsSet(w, rest);
      ws := [w] + rest;
    }
  }

  /** A list is read without error exactly when it is comma-separated valid specs, and then as what
      they mean. */
  lemma ParseListIff(v: string)
    ensures ParseList(v).1 == None <==> exists ws :: ws != [] && ValidSet(ws) && v == SetText(ws)
    ensures forall ws | ws != [] && ValidSet(ws) && v == SetText(ws) :: ParseList(v).0 == Meanings(ws)
  {
    if ParseList(v).1 == None {
      var ws := ParsedSetText(v);
    }
    forall ws | ws != [] && ValidSet(ws) && v == SetText(ws)
      ensures ParseList(v) == (Meanings(ws), None)
    {
      ParseSetText(ws);
    }
  }

  predicate TooLarge(s: string) {
    Overflows(s, 10, MAX_INT64)
  }

  /** A spec without a dash, or with other text than numbers, is malformed; a number over the limit makes the
      answer 416 instead of 400, unless an earlier number is malformed. */
  lemma SpecErrorIff(before: string, text: string, more: Option<string>)
    requires '-' !in before && ',' !in text
    ensures var spec := ParseSpec(before + "-" + (text + Tail(more)));
            var number := if before == "" then text else before;
            && (spec == Bad(RangeNotSatisfiable) <==>
                TooLarge(number) || (before != "" && Number63(before) && TooLarge(text)))
            && (spec.Good? <==> Number63(number) && (before != "" && text != "" ==> Number63(text)))
  {
    hide ParseSpec, ParseUint, Numeral, AllDigits, Tail, Overflows;
    SplitText(before, text, more);
    ParseUintIff(before, 10, MAX_INT64);
    ParseUintIff(text, 10, MAX_INT64);
    NoNumber();
  }

  lemma NoNumber()
    ensures !TooLarge("")
  {
  }

  function Prefixed(ws: seq<Written>, rest: string): string {
    if ws == [] then rest else Text(ws[0]) + Tail(Some(Prefixed(ws[1..], rest)))
  }

  /** The first bad spec ends the parse: its error comes with the ranges before it. */
  lemma {:induction false} FirstErrorEnds(ws: seq<Written>, rest: string)
    requires ValidSet(ws) && ParseSpec(rest).Bad?
    ensures ParseList(Prefixed(ws, rest)) == (Meanings(ws), Some(ParseSpec(rest).err))
  {
    hide ParseSpec, Text, Tail, Meaning, ValidSpec, Meanings;
    NoMeanings();
    if ws != [] {
      var w, more := ws[0], ws[1..];
      assert ws == [w] + more;
      ConsSet(w, more);
      ParseText(w, Some(Prefixed(more, rest)));
      FirstErrorEnds(more, rest);
    }
  }

  // ---------------------------------------------------------------- round trips

  /** The ranges a Range header can carry and this parser can return. */
  predicate Representable(r: Range) {
    (0 <= r.start <= MAX_INT64 && -1 <= r.end <= MAX_INT64) || (MIN_INT64 < r.start < 0 && r.end == -1)
  }

  function SpecOf(r: Range): Written
    requires Formattable(r)
  {
    if r.start < 0 then Suffix(FormatUint(-r.start, 10))
    else FirstLast(FormatUint(r.start, 10), if r.end < 0 then "" else FormatUint(r.end, 10))
  }

  function SpecsOf(rs: seq<Range>): seq<Written>
    requires forall r | r in rs :: Formattable(r)
  {
    seq(|rs|, i requires 0 <= i < |rs| => SpecOf(rs[i]))
  }

  lemma FormatNumber(n: nat)
    requires n <= MAX_INT64
    ensures Number63(FormatUint(n, 10)) && Numeral(FormatUint(n, 10), 10) == n
  {
    ParseFormat(n, 10, MAX_INT64);
    ParseUintIff(FormatUint(n, 10), 10, MAX_INT64);
  }

  lemma FormatSpec(r: Range)
    requires Formattable(r)
    ensures FormatRange(r) == Some(Text(SpecOf(r)))
    ensures Representable(r) ==> ValidSpec(SpecOf(r)) && Meaning(SpecOf(r)) == r
  {
    hide FormatUint, Number63, Numeral;
    if r.start >= 0 && r.end < 0 {
      var first := FormatUint(r.start, 10) + "-";
      assert first + "" == first;
    }
    if Representable(r) {
      FormatNumber(if r.start < 0 then -r.start else r.start);
      if r.end >= 0 {
        FormatNumber(r.end);
      }
    }
  }

  lemma SetTextCons(w: Written, rest: seq<Written>)
    requires rest != []
    ensures SetText([w] + rest) == Text(w) + "," + SetText(rest)
  {
    hide Text;
    assert ([w] + rest)[1..] == rest;
    Regroup3(Text(w), ",", SetText(rest));
  }

  lemma Regroup3(a: string, b: string, c: string)
    ensures a + b + c == a + (b + c)
  {
  }

  lemma {:induction false} SetTextAppend(ws: seq<Written>, w: Written)
    requires ws != []
    ensures SetText(ws + [w]) == SetText(ws) + "," + Text(w)
  {
    hide Text, SetText;
    var first, rest := ws[0], ws[1..];
    assert ws == [first] + rest;
    if rest == [] {
      assert ws + [w] == [first] + [w];
      SetTextCons(first, [w]);
      SetTextOne(first);
      SetTextOne(w);
      assert ws == [first];
    } else {
      SetTextAppend(rest, w);
      assert ws + [w] == [first] + (rest + [w]);
      SetTextCons(first, rest);
      SetTextCons(first, rest + [w]);
      Regroup4(Text(first) + ",", SetText(rest), ",", Text(w));
    }
  }

  lemma Regroup4(a: string, b: string, c: string, d: string)
    ensures a + (b + c + d) == a + b + c + d
  {
  }

  lemma SetTextOne(w: Written)
    ensures SetText([w]) == Text(w)
  {
    hide Text;
    assert Text(w) + "" == Text(w);
  }

  lemma SpecsAppend(rs: seq<Range>, r: Range)
    requires Formattable(r) && forall x | x in rs :: Formattable(x)
    ensures forall x | x in rs + [r] :: Formattable(x)
    ensures SpecsOf(rs + [r]) == SpecsOf(rs) + [SpecOf(r)] && |SpecsOf(rs)| == |rs|
    ensures (rs + [r])[..|rs|] == rs
  {
    hide SpecOf, Formattable;
  }

  lemma {:induction false} FormatIsSetText(rs: seq<Range>)
    requires forall r | r in rs :: Formattable(r)
    ensures FormatAll(rs) == SetText(SpecsOf(rs))
  {
    hide FormatRange, Text, SpecOf, SpecsOf, SetText, Formattable;
    if rs != [] {
      var init, last := rs[..|rs| - 1], rs[|rs| - 1];
      assert rs == init + [last];
      SpecsAppend(init, last);
      FormatSpec(last);
      if init == [] {
        SetTextOne(SpecOf(last));
        assert SpecsOf(init) + [SpecOf(last)] == [SpecOf(last)];
      } else {
        FormatIsSetText(init);
        SetTextAppend(SpecsOf(init), SpecOf(last));
      }
    } else {
      NoSpecs();
    }
  }

  lemma NoSpecs()
    ensures SetText(SpecsOf([])) == ""
  {
  }

  lemma RepresentableParses(rs: seq<Range>)
    requires rs != [] && forall r | r in rs :: Formattable(r) && Representable(r)
    ensures ParseList(FormatAll(rs)) == (rs, None)
  {
    hide FormatAll, SetText, ParseList, SpecOf, ValidSpec, Meaning;
    FormatIsSetText(rs);
    var ws := SpecsOf(rs);
    forall i | 0 <= i < |rs|
      ensures ValidSpec(ws[i]) && Meaning(ws[i]) == rs[i]
    {
      FormatSpec(rs[i]);
    }
    ParseSetText(ws);
    assert Meanings(ws) == rs;
  }

  /** The parser returns representable ranges only, also beside an error. */
  lemma {:induction false} ParsedAreRepresentable(v: string)
    ensures forall r | r in ParseList(v).0 :: Representable(r)
    ensures ParseList(v).1 == None ==> ParseList(v).0 != []
    decreases |v|
  {
    hide ParseSpec, Text, Tail, Representable;
    var spec := ParseSpec(v);
    if spec.Good? {
      var w := ParsedText(v);
      MeaningRepresentable(w);
      if spec.more.Some? {
        ParsedAreRepresentable(spec.more.value);
      }
    }
  }

  lemma MeaningRepresentable(w: Written)
    requires ValidSpec(w)
    ensures Representable(Meaning(w))
  {
  }

  /** Behind its unit a list of 64-bit ranges reads back exactly if it is not empty and holds no suffix of
      2^63 bytes, the one number FormatRange prints and ParseUint refuses. */
  lemma HeaderRoundTripIff(rs: seq<Range>)
    requires forall r | r in rs :: Formattable(r) && IsInt64(r.start) && IsInt64(r.end)
    ensures ParseHeader("bytes=" + FormatAll(rs)) == Parsed(rs, None) <==>
            rs != [] && forall r | r in rs :: r.start != MIN_INT64
  {
    hide FormatAll, ParseList;
    var v := BYTES_UNIT + FormatAll(rs);
    assert v[..6] == BYTES_UNIT && v[6..] == FormatAll(rs);
    ParsedAreRepresentable(FormatAll(rs));
    if rs != [] && forall r | r in rs :: r.start != MIN_INT64 {
      RepresentableParses(rs);
    }
  }

  /** Whatever was read, also before an error, is printed again without one and reads back the same. */
  lemma ParsePrintParse(header: string)
    requires ParseHeader(header).Parsed? && ParseHeader(header).ranges != []
    ensures var rs := ParseHeader(header).ranges;
            (forall r | r in rs :: Formattable(r)) &&
            ParseHeader("bytes=" + FormatAll(rs)) == Parsed(rs, None)
  {
    hide FormatAll, ParseList;
    ParsedAreRepresentable(header[6..]);
    HeaderRoundTripIff(ParseHeader(header).ranges);
  }
}
