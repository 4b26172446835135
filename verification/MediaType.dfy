/** Printing and parsing media types (section 3.1.1.1 of RFC 7231). */
module MediaTypes {
  import opened Strconv
  import opened HttpChars
  import opened QuotedString

  datatype Param = Param(name: string, value: string)
  datatype MediaType = MediaType(typ: string, subtype: string, params: seq<Param>)

  datatype ParseError = MalformedContentType | BadQuotes(reason: QuoteError)

  /** An index out of range, or what has been read and perhaps an error. */
  datatype Outcome = Crash | Parsed(mt: MediaType, err: Option<ParseError>)

  // ---------------------------------------------------------------- printing

  function FormatParam(p: Param): string {
    ";" + p.name + "=" + Render(Leads(p.value))
  }

  function FormatParams(ps: seq<Param>): string {
    if ps == [] then "" else FormatParam(ps[0]) + FormatParams(ps[1..])
  }

  predicate Writable(ps: seq<Param>) {
    forall i | 0 <= i < |ps| :: Legal(Leads(ps[i].value))
  }

  function Format(mt: MediaType): Option<string> {
    if Writable(mt.params) then Some(mt.typ + "/" + mt.subtype + FormatParams(mt.params)) else None
  }

  lemma {:induction false} FormatParamsAppend(ps: seq<Param>, p: Param)
    ensures FormatParams(ps + [p]) == FormatParams(ps) + FormatParam(p)
  {
    hide FormatParam;
    if ps == [] {
      assert ps + [p] == [p];
      assert FormatParam(p) + "" == "" + FormatParam(p);
    } else {
      FormatParamsAppend(ps[1..], p);
      assert (ps + [p])[1..] == ps[1..] + [p];
      assert FormatParam(ps[0]) + (FormatParams(ps[1..]) + FormatParam(p))
          == FormatParam(ps[0]) + FormatParams(ps[1..]) + FormatParam(p);
    }
  }

  lemma Grow(head: string, ps: seq<Param>, i: nat, value: string)
    requires i < |ps| && value == Render(Leads(ps[i].value))
    ensures head + FormatParams(ps[..i + 1]) == head + FormatParams(ps[..i]) + ";" + ps[i].name + "=" + value
  {
    hide Render, Leads;
    FormatParamsAppend(ps[..i], ps[i]);
    assert ps[..i + 1] == ps[..i] + [ps[i]];
    assert head + (FormatParams(ps[..i]) + (";" + ps[i].name + "=" + value))
        == head + FormatParams(ps[..i]) + ";" + ps[i].name + "=" + value;
  }

  method FormatMediaType(mt: MediaType) returns (text: Option<string>)
    ensures text == Format(mt)
  {
    hide Render, Leads, FormatParams, Legal;
    var out := mt.typ + "/" + mt.subtype;
    ghost var head := out;
    NoParams(head);
    assert mt.params[..0] == [];
    var k := 0;
    while k < |mt.params|
      invariant 0 <= k <= |mt.params| && Writable(mt.params[..k])
      invariant out == head + FormatParams(mt.params[..k])
    {
      var p := mt.params[k];
      var value, ok := FormatTokenOrQuotedString(p.value);
      if !ok {
        return None;
      }
      Grow(head, mt.params, k, value);
      out := out + ";" + p.name + "=" + value;
      k := k + 1;
    }
    assert mt.params[..k] == mt.params;
    return Some(out);
  }

  lemma NoParams(head: string)
    ensures head + FormatParams([]) == head
  {
  }

  // ---------------------------------------------------------------- parsing

  /** What one turn of the parameter loop does. */
  datatype Turn =
    | Fatal
    | Fail(err: ParseError)
    | FailAfter(param: Param)
    | Last(param: Param)
    | More(param: Param, rest: string)

  function ReadQuoted(name: string, str: string): (t: Turn)
    ensures t.More? ==> |t.rest| < |str|
  {
    var q := ParseQuoted(str);
    if q == Panic then Fatal
    else if q.err.Some? then Fail(BadQuotes(q.err.value))
    else
      var rest := TrimLeft(str[q.index..]);
      if rest == "" then Last(Param(name, q.value))
      else if rest[0] == ';' then More(Param(name, q.value), TrimLeft(rest[1..]))
      else FailAfter(Param(name, q.value))
  }

  function ReadPlain(name: string, str: string): (t: Turn)
    ensures t.More? ==> |t.rest| < |str|
  {
    var i := IndexOf(str, ';');
    if i == -1 then Last(Param(name, str)) else More(Param(name, TrimRight(str[..i])), TrimLeft(str[i + 1..]))
  }

  function ReadParam(str: string): (t: Turn)
    ensures t.More? ==> |t.rest| < |str|
  {
    var i := IndexOf(str, '=');
    if i == -1 then Fail(MalformedContentType)
    else
      var name, value := ToLower(str[..i]), str[i + 1..];
      if value == "" then Fatal
      else if value[0] == '\"' then ReadQuoted(name, value[1..])
      else ReadPlain(name, value)
  }

  function AddParam(mt: MediaType, p: Param): MediaType {
    mt.(params := mt.params + [p])
  }

  /** All parameters from here on, behind those already read. */
  function ReadParams(mt: MediaType, str: string): Outcome
    decreases |str|
  {
    match ReadParam(str)
    case Fatal => Crash
    case Fail(err) => Parsed(mt, Some(err))
    case FailAfter(p) => Parsed(AddParam(mt, p), Some(MalformedContentType))
    case Last(p) => Parsed(AddParam(mt, p), None)
    case More(p, rest) => ReadParams(AddParam(mt, p), rest)
  }

  function Parse(str: string): Outcome {
    var i := IndexOf(str, '/');
    if i == -1 then Parsed(MediaType(str, "", []), Some(MalformedContentType))
    else ParseSubtype(ToLower(str[..i]), str[i + 1..])
  }

  /** A subtype without parameters keeps its case and its blanks. */
  function ParseSubtype(typ: string, str: string): Outcome {
    var i := IndexOf(str, ';');
    if i == -1 then Parsed(MediaType(typ, str, []), None)
    else ReadParams(MediaType(typ, ToLower(TrimRight(str[..i])), []), TrimLeft(str[i + 1..]))
  }

  /** The body of the parameter loop. */
  method NextParam(str: string) returns (t: Turn)
    ensures t == ReadParam(str)
  {
    hide IndexOf, TrimLeft, TrimRight, ParseQuoted;
    var i := IndexOf(str, '=');
    if i == -1 {
      return Fail(MalformedContentType);
    }
    var name := ToLower(str[..i]);
    var rest := str[i + 1..];
    if |rest| == 0 {
      return Fatal;
    }
    if rest[0] == '\"' {
      var q := ParseQuotedStringNoStartingQuote(rest[1..]);
      if q == Panic {
        return Fatal;
      }
      if q.err.Some? {
        return Fail(BadQuotes(q.err.value));
      }
      assert rest[1..][q.index..] == rest[q.index + 1..];
      rest := RemoveWhitespacePrefix(rest[q.index + 1..]);
      if |rest| == 0 {
        return Last(Param(name, q.value));
      } else if rest[0] == ';' {
        rest := RemoveWhitespacePrefix(rest[1..]);
        return More(Param(name, q.value), rest);
      } else {
        return FailAfter(Param(name, q.value));
      }
    } else {
      i := IndexOf(rest, ';');
      if i == -1 {
        return Last(Param(name, rest));
      }
      var value := RemoveWhitespacePostfix(rest[..i]);
      rest := RemoveWhitespacePrefix(rest[i + 1..]);
      return More(Param(name, value), rest);
    }
  }

  /** The parameter loop of ParseMediaType. */
  method ParseParams(first: MediaType, params: string) returns (o: Outcome)
    ensures o == ReadParams(first, params)
  {
    hide ReadParam, AddParam;
    var mt, str := first, params;
    while true
      invariant ReadParams(first, params) == ReadParams(mt, str)
      decreases |str|
    {
      var turn := NextParam(str);
      match turn
      case Fatal =>
        return Crash;
      case Fail(err) =>
        return Parsed(mt, Some(err));
      case FailAfter(p) =>
        return Parsed(AddParam(mt, p), Some(MalformedContentType));
      case Last(p) =>
        return Parsed(AddParam(mt, p), None);
      case More(p, rest) =>
        mt := AddParam(mt, p);
        str := rest;
    }
  }

  method ParseMediaType(header: string) returns (o: Outcome)
    ensures o == Parse(header)
  {
    hide IndexOf, TrimLeft, TrimRight, ReadParams, ToLower;
    var str := header;
    var i := IndexOf(str, '/');
    if i == -1 {
      return Parsed(MediaType(str, "", []), Some(MalformedContentType));
    }
    var typ := ToLower(str[..i]);
    str := str[i + 1..];
    i := IndexOf(str, ';');
    if i == -1 {
      return Parsed(MediaType(typ, str, []), None);
    }
    var subtype := RemoveWhitespacePostfix(str[..i]);
    var mt := MediaType(typ, ToLower(subtype), []);
    str := RemoveWhitespacePrefix(str[i + 1..]);
    o := ParseParams(mt, str);
  }

  // ---------------------------------------------------------------- round trip

  /** Type, subtype and parameter names are tokens, empty or not. */
  predicate WellNamed(mt: MediaType) {
    IsToken(mt.typ) && IsToken(mt.subtype) && forall i | 0 <= i < |mt.params| :: IsToken(mt.params[i].name)
  }

  /** The parameters with the values as the printer sees them. */
  function Seen(ps: seq<Param>): seq<Param> {
    seq(|ps|, i requires 0 <= i < |ps| => Param(ToLower(ps[i].name), Leads(ps[i].value)))
  }

  /** What reading a printed media type makes of it. */
  function AsRead(mt: MediaType): MediaType {
    MediaType(ToLower(mt.typ), if mt.params == [] then mt.subtype else ToLower(mt.subtype), Seen(mt.params))
  }

  /** Blanks before and behind a semicolon. */
  datatype Gap = Gap(before: string, after: string)

  predicate Blanks(gs: seq<Gap>) {
    forall i | 0 <= i < |gs| :: Blank(gs[i].before) && Blank(gs[i].after)
  }

  /** The parameters as printed, but with blanks around the semicolons. */
  function Spaced(ps: seq<Param>, gs: seq<Gap>): string
    requires |gs| == |ps|
    decreases |ps|, 1
  {
    if ps == [] then "" else gs[0].before + ";" + (gs[0].after + Body(ps, gs))
  }

  /** What follows the first semicolon and its blanks. */
  function Body(ps: seq<Param>, gs: seq<Gap>): string
    requires ps != [] && |gs| == |ps|
    decreases |ps|, 0
  {
    ps[0].name + "=" + (Render(Leads(ps[0].value)) + Spaced(ps[1..], gs[1..]))
  }

  lemma TokenFree(s: string, c: char)
    requires IsToken(s) && !IsTokenChar(c)
    ensures c !in s
  {
  }

  lemma TrimLeftStep(s: string)
    requires s != ""
    ensures TrimLeft(s) == if IsWhitespace(s[0]) then TrimLeft(s[1..]) else s
  {
  }

  lemma TrimRightStep(s: string)
    requires s != ""
    ensures TrimRight(s) == if IsWhitespace(s[|s| - 1]) then TrimRight(s[..|s| - 1]) else s
  {
  }

  lemma {:induction false} TrimBlanks(blank: string, s: string)
    requires Blank(blank) && (s != "" ==> !IsWhitespace(s[0]))
    ensures TrimLeft(blank + s) == s
  {
    var all := blank + s;
    if all == "" {
    } else if blank == "" {
      assert all == s;
      TrimLeftStep(s);
    } else {
      assert all[0] == blank[0] && all[1..] == blank[1..] + s;
      TrimLeftStep(all);
      hide TrimLeft;
      TrimBlanks(blank[1..], s);
    }
  }

  lemma {:induction false} TrimTrailing(s: string, blank: string)
    requires Blank(blank) && (s != "" ==> !IsWhitespace(s[|s| - 1]))
    ensures TrimRight(s + blank) == s
  {
    var all := s + blank;
    if all == "" {
    } else if blank == "" {
      assert all == s;
      TrimRightStep(s);
    } else {
      var n := |blank| - 1;
      assert all[|all| - 1] == blank[n] && all[..|all| - 1] == s + blank[..n];
      TrimRightStep(all);
      hide TrimRight;
      TrimTrailing(s, blank[..n]);
    }
  }

  /** Nothing more, or a semicolon behind blanks and then `more`. */
  predicate EndsOrGoesOn(tail: string, blank: string, more: Option<string>) {
    Blank(blank) && tail == if more == None then "" else blank + ";" + more.value
  }

  function Turned(p: Param, more: Option<string>): Turn {
    if more == None then Last(p) else More(p, TrimLeft(more.value))
  }

  lemma TokenTrims(s: string, blank: string)
    requires IsToken(s) && Blank(blank)
    ensures TrimRight(s + blank) == s && ';' !in s + blank
  {
    hide TrimRight;
    if s != "" {
      TokenIsPlain(s[|s| - 1]);
    }
    TrimTrailing(s, blank);
    assert !IsTokenChar(';') && !IsWhitespace(';');
  }

  lemma ReadToken(name: string, s: string, tail: string, blank: string, more: Option<string>)
    requires IsToken(s) && EndsOrGoesOn(tail, blank, more)
    ensures ReadPlain(name, s + tail) == Turned(Param(name, s), more)
  {
    hide IndexOf, TrimLeft, TrimRight, IsToken;
    if more == None {
      TokenTrims(s, "");
      assert s + "" == s;
    } else {
      TokenTrims(s, blank);
      IndexOfSplit(s + blank, ';', more.value);
      assert s + tail == (s + blank) + [';'] + more.value;
    }
  }

  lemma ReadQuotedText(name: string, s: string, tail: string, blank: string, more: Option<string>)
    requires Legal(s) && !IsToken(s) && EndsOrGoesOn(tail, blank, more)
    ensures ReadQuoted(name, Render(s)[1..] + tail) == Turned(Param(name, s), more)
  {
    hide TrimLeft, ParseQuoted, Legal, IsToken, Render;
    RenderParses(s, tail);
    Behind1(Render(s), tail);
    if more == None {
      TrimBlanks("", "");
    } else {
      SemicolonFirst(blank, more.value);
      TrimBlanks(blank, ";" + more.value);
    }
  }

  lemma Behind1(text: string, tail: string)
    requires text != ""
    ensures (text[1..] + tail)[|text| - 1..] == tail
  {
  }

  lemma SemicolonFirst(blank: string, more: string)
    ensures blank + ";" + more == blank + (";" + more)
    ensures (";" + more)[1..] == more && !IsWhitespace((";" + more)[0])
  {
  }

  lemma SplitAtEquals(name: string, value: string)
    requires '=' !in name
    ensures ReadParam(name + "=" + value) ==
            if value == "" then Fatal
            else if value[0] == '\"' then ReadQuoted(ToLower(name), value[1..])
            else ReadPlain(ToLower(name), value)
  {
    hide IndexOf, ReadQuoted, ReadPlain, ToLower;
    IndexOfSplit(name, '=', value);
    assert name + "=" + value == name + ['='] + value;
  }

  /** One printed parameter is read back; only an empty value at the very end runs off the text. */
  lemma ReadParamText(name: string, s: string, tail: string, blank: string, more: Option<string>)
    requires '=' !in name && Legal(s) && EndsOrGoesOn(tail, blank, more)
    ensures ReadParam(name + "=" + (Render(s) + tail)) ==
            if s == "" && more == None then Fatal else Turned(Param(ToLower(name), s), more)
  {
    hide IndexOf, TrimLeft, Legal, ReadParam, ReadQuoted, ReadPlain, ToLower, Turned;
    var value := Render(s) + tail;
    SplitAtEquals(name, value);
    if IsToken(s) {
      ReadToken(ToLower(name), s, tail, blank, more);
      assert value == s + tail;
      if s != "" {
        TokenIsPlain(s[0]);
        assert value[0] == s[0];
      } else if more != None {
        assert value[0] == if blank == "" then ';' else blank[0];
      }
    } else {
      RenderParses(s, tail);
      ReadQuotedText(ToLower(name), s, tail, blank, more);
      assert value[0] == '\"' && value[1..] == Render(s)[1..] + tail;
    }
  }

  lemma BodyStarts(ps: seq<Param>, gs: seq<Gap>)
    requires ps != [] && |gs| == |ps| && IsToken(ps[0].name) && Blank(gs[0].after)
    ensures TrimLeft(gs[0].after + Body(ps, gs)) == Body(ps, gs)
  {
    hide Render, Leads, TrimLeft;
    var p := ps[0];
    assert Body(ps, gs)[0] == if p.name == "" then '=' else p.name[0];
    if p.name != "" {
      TokenIsPlain(p.name[0]);
    }
    TrimBlanks(gs[0].after, Body(ps, gs));
  }

  lemma ConsParams(mt: MediaType, ps: seq<Param>)
    requires ps != []
    ensures var p := Param(ToLower(ps[0].name), Leads(ps[0].value));
            var mt2 := AddParam(mt, p);
            mt2.(params := mt2.params + Seen(ps[1..])) == mt.(params := mt.params + Seen(ps))
  {
    hide Leads, ToLower;
    var p := Param(ToLower(ps[0].name), Leads(ps[0].value));
    assert Seen(ps) == [p] + Seen(ps[1..]);
    assert (mt.params + [p]) + Seen(ps[1..]) == mt.params + ([p] + Seen(ps[1..]));
  }

  lemma SpacedTail(ps: seq<Param>, gs: seq<Gap>) returns (blank: string, more: Option<string>)
    requires |gs| == |ps| && Blanks(gs)
    ensures EndsOrGoesOn(Spaced(ps, gs), blank, more)
    ensures more == if ps == [] then None else Some(gs[0].after + Body(ps, gs))
  {
    if ps == [] {
      blank, more := "", None;
    } else {
      blank, more := gs[0].before, Some(gs[0].after + Body(ps, gs));
    }
  }

  lemma {:induction false} ReadBody(mt: MediaType, ps: seq<Param>, gs: seq<Gap>)
    requires ps != [] && Writable(ps) && forall i | 0 <= i < |ps| :: IsToken(ps[i].name)
    requires |gs| == |ps| && Blanks(gs)
    ensures ReadParams(mt, Body(ps, gs)) ==
            if ps[|ps| - 1].value == "" then Crash else Parsed(mt.(params := mt.params + Seen(ps)), None)
    decreases |ps|
  {
    hide Render, Leads, TrimLeft, ReadParam, IsToken, ToLower, Legal, Seen, Blank, EndsOrGoesOn, Spaced;
    var s, rest := Leads(ps[0].value), ps[1..];
    var p := Param(ToLower(ps[0].name), s);
    assert !IsTokenChar('=');
    TokenFree(ps[0].name, '=');
    var mt2 := AddParam(mt, p);
    ConsParams(mt, ps);
    var blank, more := SpacedTail(rest, gs[1..]);
    ReadParamText(ps[0].name, s, Spaced(rest, gs[1..]), blank, more);
    if rest == [] {
      SeenNone();
      assert mt2.params + [] == mt2.params;
    } else {
      BodyStarts(rest, gs[1..]);
      ReadBody(mt2, rest, gs[1..]);
    }
  }

  lemma SeenNone()
    ensures Seen([]) == []
  {
  }

  lemma AtSlash(typ: string, rest: string)
    requires '/' !in typ
    ensures Parse(typ + "/" + rest) == ParseSubtype(ToLower(typ), rest)
  {
    hide IndexOf, ParseSubtype, ToLower;
    IndexOfSplit(typ, '/', rest);
    assert typ + "/" + rest == typ + ['/'] + rest;
  }

  lemma SplitSubtype(typ: string, subtype: string, tail: string, blank: string, more: Option<string>)
    requires IsToken(subtype) && EndsOrGoesOn(tail, blank, more)
    ensures ParseSubtype(typ, subtype + tail) ==
            if more == None then Parsed(MediaType(typ, subtype, []), None)
            else ReadParams(MediaType(typ, ToLower(subtype), []), TrimLeft(more.value))
  {
    hide IndexOf, ReadParams, TrimLeft, TrimRight, IsToken, ToLower;
    if more == None {
      TokenTrims(subtype, "");
      assert subtype + "" == subtype;
    } else {
      TokenTrims(subtype, blank);
      IndexOfSplit(subtype + blank, ';', more.value);
      assert subtype + tail == (subtype + blank) + [';'] + more.value;
    }
  }

  lemma NoneBefore(mt: MediaType, ps: seq<Param>)
    requires mt.params == []
    ensures mt.params + ps == ps
  {
  }

  /** However many blanks stand around the semicolons, what comes back is the media type as the printer saw
      it, names in lower case, or a crash on an empty last value. */
  lemma ParseSpaced(mt: MediaType, gs: seq<Gap>)
    requires WellNamed(mt) && Writable(mt.params) && |gs| == |mt.params| && Blanks(gs)
    ensures Parse(mt.typ + "/" + (mt.subtype + Spaced(mt.params, gs))) ==
            if mt.params != [] && mt.params[|mt.params| - 1].value == "" then Crash else Parsed(AsRead(mt), None)
  {
    hide Parse, ParseSubtype, TrimLeft, ReadParams, Seen, IsToken, ToLower, Body, Spaced, Writable, Blank, EndsOrGoesOn;
    var ps := mt.params;
    assert !IsTokenChar('/');
    TokenFree(mt.typ, '/');
    AtSlash(mt.typ, mt.subtype + Spaced(ps, gs));
    var blank, more := SpacedTail(ps, gs);
    SplitSubtype(ToLower(mt.typ), mt.subtype, Spaced(ps, gs), blank, more);
    if ps == [] {
      SeenNone();
    } else {
      var head := MediaType(ToLower(mt.typ), ToLower(mt.subtype), []);
      BodyStarts(ps, gs);
      ReadBody(head, ps, gs);
      NoneBefore(head, Seen(ps));
    }
  }

  function NoGaps(n: nat): (gs: seq<Gap>)
    ensures |gs| == n && Blanks(gs)
  {
    seq(n, _ => Gap("", ""))
  }

  lemma Assoc(name: string, value: string, more: string)
    ensures ";" + name + "=" + value + more == "" + ";" + ("" + (name + "=" + (value + more)))
  {
    assert "" + (name + "=" + (value + more)) == name + "=" + (value + more);
  }

  lemma {:induction false} FormatIsSpaced(ps: seq<Param>)
    ensures FormatParams(ps) == Spaced(ps, NoGaps(|ps|))
  {
    hide Render, Leads;
    if ps != [] {
      var gs := NoGaps(|ps|);
      FormatIsSpaced(ps[1..]);
      assert gs[1..] == NoGaps(|ps| - 1);
      Assoc(ps[0].name, Render(Leads(ps[0].value)), FormatParams(ps[1..]));
    }
  }

  lemma FormatText(mt: MediaType)
    requires Format(mt).Some?
    ensures Writable(mt.params) && Format(mt).value == mt.typ + "/" + (mt.subtype + FormatParams(mt.params))
  {
    hide FormatParams, Writable;
  }

  /** The same for the printed form itself. */
  lemma ParseFormatted(mt: MediaType)
    requires WellNamed(mt) && Format(mt).Some?
    ensures Parse(Format(mt).value) ==
            if mt.params != [] && mt.params[|mt.params| - 1].value == "" then Crash else Parsed(AsRead(mt), None)
  {
    hide Parse, FormatParams, Spaced, AsRead, WellNamed, Format, Writable, Blank, NoGaps;
    FormatText(mt);
    FormatIsSpaced(mt.params);
    ParseSpaced(mt, NoGaps(|mt.params|));
  }

  /** Printing and parsing give the media type back exactly if no value holds a character of more than
      one byte, the last value is not empty, and no name has a capital, but for a subtype alone. */
  lemma RoundTripIff(mt: MediaType)
    requires WellNamed(mt) && Format(mt).Some?
    ensures Parse(Format(mt).value) == Parsed(mt, None) <==>
            && (forall i | 0 <= i < |mt.params| :: SingleBytes(mt.params[i].value) && IsLower(mt.params[i].name))
            && (mt.params != [] ==> mt.params[|mt.params| - 1].value != "" && IsLower(mt.subtype))
            && IsLower(mt.typ)
  {
    hide Parse, Format, Leads, SingleBytes, ToLower, IsLower;
    ParseFormatted(mt);
    LowerIff(mt.typ);
    LowerIff(mt.subtype);
    SeenSame(mt.params);
    assert AsRead(mt) == mt <==>
           ToLower(mt.typ) == mt.typ && (mt.params == [] || ToLower(mt.subtype) == mt.subtype)
           && Seen(mt.params) == mt.params;
  }

  lemma SeenSame(ps: seq<Param>)
    ensures Seen(ps) == ps <==> forall i | 0 <= i < |ps| :: SingleBytes(ps[i].value) && IsLower(ps[i].name)
  {
    hide Leads, SingleBytes, ToLower, IsLower;
    forall i | 0 <= i < |ps|
      ensures Seen(ps)[i] == ps[i] <==> SingleBytes(ps[i].value) && IsLower(ps[i].name)
    {
      LeadsIff(ps[i].value);
      LowerIff(ps[i].name);
    }
    assert Seen(ps) == ps <==> forall i | 0 <= i < |ps| :: Seen(ps)[i] == ps[i];
  }

  /** mt2 is mt with letters of type, subtype and names in capitals. */
  predicate RecasedType(mt2: MediaType, mt: MediaType) {
    && Recased(mt2.typ, mt.typ) && Recased(mt2.subtype, mt.subtype) && |mt2.params| == |mt.params|
    && forall i | 0 <= i < |mt.params| ::
         Recased(mt2.params[i].name, mt.params[i].name) && mt2.params[i].value == mt.params[i].value
  }

  lemma RecasedToken(s: string, t: string)
    requires Recased(s, t) && IsToken(t)
    ensures IsToken(s)
  {
    forall i | 0 <= i < |s|
      ensures IsTokenChar(s[i])
    {
      TokenCharIff(s[i]);
      TokenCharIff(t[i]);
    }
  }

  /** Any letters in capitals: it is read as the lower-case media type, except that a subtype without parameters
      stays as it is. */
  lemma ReadsAnyCase(mt2: MediaType, mt: MediaType, gs: seq<Gap>)
    requires WellNamed(mt) && RecasedType(mt2, mt) && Writable(mt.params) && |gs| == |mt.params| && Blanks(gs)
    requires IsLower(mt.typ) && IsLower(mt.subtype) && forall i | 0 <= i < |mt.params| :: IsLower(mt.params[i].name)
    ensures Parse(mt2.typ + "/" + (mt2.subtype + Spaced(mt2.params, gs))) ==
            if mt.params == [] then Parsed(MediaType(mt.typ, mt2.subtype, []), None)
            else Parse(mt.typ + "/" + (mt.subtype + Spaced(mt.params, gs)))
  {
    hide Parse, Spaced, Blanks, IsToken, ToLower, Leads, Recased, Legal, IsLower;
    RecasedToken(mt2.typ, mt.typ);
    RecasedToken(mt2.subtype, mt.subtype);
    RecasedLower(mt2.typ, mt.typ);
    RecasedLower(mt2.subtype, mt.subtype);
    forall i | 0 <= i < |mt.params|
      ensures IsToken(mt2.params[i].name) && ToLower(mt2.params[i].name) == ToLower(mt.params[i].name)
    {
      RecasedToken(mt2.params[i].name, mt.params[i].name);
      RecasedLower(mt2.params[i].name, mt.params[i].name);
    }
    assert Seen(mt2.params) == Seen(mt.params);
    ParseSpaced(mt, gs);
    ParseSpaced(mt2, gs);
  }

  predicate IsText(s: string) {
    forall i | 0 <= i < |s| :: IsVChar(s[i]) || IsWhitespace(s[i])
  }

  lemma {:induction false} TextIsPlain(s: string)
    requires IsText(s)
    ensures SingleBytes(s) && Leads(s) == s && Legal(s)
  {
    if s != "" {
      TextIsPlain(s[1..]);
      LeadsIff(s);
      assert forall i | 0 <= i < |s| :: IsVChar(s[i]) || IsWhitespace(s[i]) ==> LegalChar(s[i]);
    }
  }

  /** Values over visible ASCII, space and tab, whatever separators and quotes they hold. */
  lemma TextRoundTrip(mt: MediaType)
    requires WellNamed(mt) && forall i | 0 <= i < |mt.params| :: IsText(mt.params[i].value)
    requires mt.params != [] ==> mt.params[|mt.params| - 1].value != ""
    requires IsLower(mt.typ) && IsLower(mt.subtype) && forall i | 0 <= i < |mt.params| :: IsLower(mt.params[i].name)
    ensures Format(mt).Some? && Parse(Format(mt).value) == Parsed(mt, None)
  {
    hide Parse, FormatParams, WellNamed, IsText, IsLower, Legal, Leads, SingleBytes;
    forall i | 0 <= i < |mt.params|
      ensures SingleBytes(mt.params[i].value) && Legal(Leads(mt.params[i].value))
    {
      TextIsPlain(mt.params[i].value);
    }
    RoundTripIff(mt);
  }
}
