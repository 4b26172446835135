/** Which texts ParseMediaType accepts and with what meaning, and which make it run off its input. */
module MediaTypeGrammar {
  import opened Strconv
  import opened HttpChars
  import opened QuotedString
  import opened MediaTypes

  /** A parameter as written: a quoted value with blanks behind it, or the plain text up to a semicolon. */
  datatype Segment =
    | QuotedValue(name: string, pieces: seq<Piece>, blank: string)
    | PlainValue(name: string, value: string)

  ghost predicate ValidSegment(s: Segment) {
    && '=' !in s.name
    && match s {
         case QuotedValue(_, pieces, blank) => ValidPieces(pieces) && Blank(blank)
         case PlainValue(_, value) => ';' !in value && (value == "" || value[0] != '\"')
       }
  }

  function SegmentText(s: Segment): string {
    match s
    case QuotedValue(name, pieces, blank) => name + "=" + ("\"" + (Written(pieces) + "\"" + blank))
    case PlainValue(name, value) => name + "=" + value
  }

  /** What a segment before a semicolon means. */
  function SegmentParam(s: Segment): Param {
    match s
    case QuotedValue(name, pieces, _) => Param(ToLower(name), Denoted(pieces))
    case PlainValue(name, value) => Param(ToLower(name), TrimRight(value))
  }

  // ---------------------------------------------------------------- one parameter

  /** Any text with an equals sign is a name and what follows. */
  lemma AtEquals(str: string) returns (name: string, value: string)
    requires IndexOf(str, '=') != -1
    ensures '=' !in name && str == name + "=" + value
  {
    var i := IndexOf(str, '=');
    name, value := str[..i], str[i + 1..];
    hide IndexOf;
    assert str == str[..i] + [str[i]] + str[i + 1..];
  }

  /** What reading the closing of a quoted value comes to. */
  lemma ReadClosed(name: string, pieces: seq<Piece>, blank: string, more: Option<string>)
    requires ValidPieces(pieces) && Blank(blank)
    ensures var tail := if more == None then blank else blank + ";" + more.value;
            ReadQuoted(name, Written(pieces) + "\"" + tail) == Turned(Param(name, Denoted(pieces)), more)
  {
    hide TrimLeft, ParseQuoted, Written, Denoted, ValidPieces;
    var tail := if more == None then blank else blank + ";" + more.value;
    ParseWritten(pieces, tail);
    var str := Written(pieces) + "\"" + tail;
    assert str[|Written(pieces)| + 1..] == tail;
    if more == None {
      TrimBlanks(blank, "");
      assert blank + "" == blank;
    } else {
      SemicolonFirst(blank, more.value);
      TrimBlanks(blank, ";" + more.value);
    }
  }

  /** A valid segment before a semicolon is read as what it means. */
  lemma ReadSegment(s: Segment, rest: string)
    requires ValidSegment(s)
    ensures ReadParam(SegmentText(s) + ";" + rest) == More(SegmentParam(s), TrimLeft(rest))
  {
    hide TrimLeft, TrimRight, ReadParam, ReadQuoted, Written, Denoted, ToLower, IndexOf;
    match s
    case QuotedValue(name, pieces, blank) =>
      var inner := Written(pieces) + "\"" + (blank + ";" + rest);
      SplitAtEquals(name, "\"" + inner);
      QuotedText(name, Written(pieces), blank, ";" + rest);
      assert SegmentText(s) + ";" + rest == SegmentText(s) + (";" + rest);
      assert blank + (";" + rest) == blank + ";" + rest;
      assert ("\"" + inner)[1..] == inner;
      ReadClosed(ToLower(name), pieces, blank, Some(rest));
    case PlainValue(name, value) =>
      var text := value + ";" + rest;
      PlainText(name, value, rest);
      SplitAtEquals(name, text);
      IndexOfSplit(value, ';', rest);
      assert text == value + [';'] + rest;
      assert text[0] == if value == "" then ';' else value[0];
  }

  lemma QuotedText(name: string, written: string, blank: string, tail: string)
    ensures name + "=" + ("\"" + (written + "\"" + blank)) + tail ==
            name + "=" + ("\"" + (written + "\"" + (blank + tail)))
  {
    assert written + "\"" + blank + tail == written + "\"" + (blank + tail);
    var a := "\"" + (written + "\"" + blank);
    assert a + tail == "\"" + (written + "\"" + blank + tail);
    assert name + "=" + a + tail == name + "=" + (a + tail);
  }

  lemma PlainText(name: string, value: string, rest: string)
    ensures name + "=" + value + ";" + rest == name + "=" + (value + ";" + rest)
  {
  }

  /** Text and what is left of it behind its leading blanks. */
  lemma Trimmed(rest: string) returns (gap: string, next: string)
    ensures next == TrimLeft(rest) && |next| <= |rest|
    ensures rest == gap + next && Blank(gap) && StartsSharp(next)
  {
    hide TrimLeft, Blank;
    next := TrimLeft(rest);
    gap := rest[..|rest| - |next|];
    CutText(rest, |rest| - |next|);
  }

  lemma CutText(s: string, k: nat)
    requires k <= |s|
    ensures s == s[..k] + s[k..]
  {
  }

  predicate StartsSharp(str: string) {
    str != "" ==> !IsWhitespace(str[0])
  }

  lemma QuotedParts(str: string, index: nat, written: string, blank: string, next: string)
    requires index <= |str| && str[..index] == written + "\"" && str[index..] == blank + next
    ensures next == "" ==> str == written + "\"" + blank
    ensures next != "" && next[0] == ';' ==> str == written + "\"" + (blank + ";" + next[1..])
  {
    CutText(str, index);
    if next == "" {
      assert blank + next == blank;
    } else if next[0] == ';' {
      assert next == ";" + next[1..];
      assert blank + next == blank + ";" + next[1..];
    }
  }

  /** What is read as a quoted value is one, with blanks behind it. */
  lemma QuotedTurn(name: string, str: string) returns (pieces: seq<Piece>, blank: string, more: Option<string>)
    requires ReadQuoted(name, str).More? || ReadQuoted(name, str).Last?
    ensures ValidPieces(pieces) && Blank(blank)
    ensures ReadQuoted(name, str) == Turned(Param(name, Denoted(pieces)), more)
    ensures str == Written(pieces) + "\"" + (if more == None then blank else blank + ";" + more.value)
  {
    hide ParseQuoted, Written, TrimLeft, Blank, ValidPieces, Denoted, StartsSharp;
    var q := ParseQuoted(str);
    pieces := ParsedWritten(str);
    var next;
    blank, next := Trimmed(str[q.index..]);
    QuotedParts(str, q.index, Written(pieces), blank, next);
    more := if next == "" then None else Some(next[1..]);
  }

  lemma PlainTurn(name: string, value: string)
    ensures var i := IndexOf(value, ';');
            ReadPlain(name, value) ==
            if i == -1 then Last(Param(name, value))
            else More(Param(name, TrimRight(value[..i])), TrimLeft(value[i + 1..]))
    ensures var i := IndexOf(value, ';');
            i >= 0 ==> ';' !in value[..i] && value == value[..i] + ";" + value[i + 1..]
  {
    hide TrimLeft, TrimRight;
    var i := IndexOf(value, ';');
    if i >= 0 {
      assert value == value[..i] + [value[i]] + value[i + 1..];
    }
  }

  lemma QuotedBeforeMore(name: string, value: string, written: string, blank: string, rest: string)
    requires value != "" && value[0] == '\"' && value[1..] == written + "\"" + (blank + ";" + rest)
    ensures name + "=" + value == name + "=" + ("\"" + (written + "\"" + blank)) + ";" + rest
  {
    assert value == "\"" + value[1..];
    QuotedText(name, written, blank, ";" + rest);
    assert blank + (";" + rest) == blank + ";" + rest;
    var text := name + "=" + ("\"" + (written + "\"" + blank));
    assert text + (";" + rest) == text + ";" + rest;
  }

  /** What is read as a parameter before a semicolon is a valid segment. */
  lemma MoreSegment(str: string) returns (s: Segment, rest: string)
    requires ReadParam(str).More?
    ensures ValidSegment(s) && str == SegmentText(s) + ";" + rest
  {
    hide ReadParam, ReadQuoted, ReadPlain, IndexOf, ToLower, Written, Denoted, TrimLeft, TrimRight;
    NoEquals(str);
    var name, value := AtEquals(str);
    SplitAtEquals(name, value);
    if value[0] == '\"' {
      var pieces, blank, more := QuotedTurn(ToLower(name), value[1..]);
      s, rest := QuotedValue(name, pieces, blank), more.value;
      QuotedBeforeMore(name, value, Written(pieces), blank, rest);
    } else {
      PlainTurn(ToLower(name), value);
      var i := IndexOf(value, ';');
      s, rest := PlainValue(name, value[..i]), value[i + 1..];
      assert value == value[..i] + ";" + rest;
      PlainText(name, value[..i], rest);
    }
  }

  lemma NoEquals(str: string)
    ensures IndexOf(str, '=') == -1 ==> ReadParam(str) == Fail(MalformedContentType)
  {
    hide ReadQuoted, ReadPlain, ToLower;
  }

  /** The last parameter may not be an empty plain value, and keeps its trailing blanks if it is plain. */
  ghost predicate FinalSegment(s: Segment) {
    ValidSegment(s) && (s.PlainValue? ==> s.value != "")
  }

  function LastParam(s: Segment): Param {
    match s
    case QuotedValue(name, pieces, _) => Param(ToLower(name), Denoted(pieces))
    case PlainValue(name, value) => Param(ToLower(name), value)
  }

  lemma ReadFinal(s: Segment)
    requires FinalSegment(s)
    ensures ReadParam(SegmentText(s)) == Last(LastParam(s))
  {
    hide TrimLeft, TrimRight, ReadParam, ReadQuoted, Written, Denoted, ToLower, IndexOf;
    match s
    case QuotedValue(name, pieces, blank) =>
      var inner := Written(pieces) + "\"" + blank;
      SplitAtEquals(name, "\"" + inner);
      assert ("\"" + inner)[1..] == inner;
      ReadClosed(ToLower(name), pieces, blank, None);
    case PlainValue(name, value) =>
      SplitAtEquals(name, value);
      PlainTurn(ToLower(name), value);
  }

  lemma FinalOf(str: string) returns (s: Segment)
    requires ReadParam(str).Last?
    ensures FinalSegment(s) && str == SegmentText(s)
  {
    hide ReadParam, ReadQuoted, ReadPlain, IndexOf, ToLower, Written, Denoted, TrimLeft, TrimRight;
    NoEquals(str);
    var name, value := AtEquals(str);
    SplitAtEquals(name, value);
    if value[0] == '\"' {
      var pieces, blank, more := QuotedTurn(ToLower(name), value[1..]);
      s := QuotedValue(name, pieces, blank);
      assert value == "\"" + value[1..];
    } else {
      PlainTurn(ToLower(name), value);
      s := PlainValue(name, value);
    }
  }

  /** Text that ends behind an equals sign, or behind a backslash in a quoted value. */
  ghost predicate EndsTooSoon(value: string) {
    value == "" || exists ps :: ValidPieces(ps) && value == "\"" + (Written(ps) + "\\")
  }

  ghost predicate CutShort(str: string) {
    exists name, value :: '=' !in name && str == name + "=" + value && EndsTooSoon(value)
  }

  lemma PanicValue(value: string)
    requires value != "" && value[0] == '\"'
    ensures ParseQuoted(value[1..]) == Panic <==> EndsTooSoon(value)
  {
    hide ParseQuoted, Written, ValidPieces;
    ParsePanicIff(value[1..]);
    assert value == "\"" + value[1..];
    forall ps
      ensures value == "\"" + (Written(ps) + "\\") <==> value[1..] == Written(ps) + "\\"
    {
      assert ("\"" + (Written(ps) + "\\"))[1..] == Written(ps) + "\\";
    }
  }

  /** Reading one parameter runs off the text exactly if the text is cut short. */
  lemma FatalIff(str: string)
    ensures ReadParam(str) == Fatal <==> CutShort(str)
  {
    hide IndexOf, ReadParam, EndsTooSoon, ToLower, TrimLeft, TrimRight;
    if ReadParam(str) == Fatal {
      NoEquals(str);
      var name, value := AtEquals(str);
      FatalAt(name, value);
    }
    forall name, value | '=' !in name && str == name + "=" + value && EndsTooSoon(value)
      ensures ReadParam(str) == Fatal
    {
      FatalAt(name, value);
    }
  }

  lemma FatalAt(name: string, value: string)
    requires '=' !in name
    ensures ReadParam(name + "=" + value) == Fatal <==> EndsTooSoon(value)
  {
    hide IndexOf, ReadParam, ToLower, TrimLeft, TrimRight, Written, ParseQuoted, ValidPieces;
    SplitAtEquals(name, value);
    if value != "" && value[0] == '\"' {
      PanicValue(value);
    } else if value != "" {
      PlainTurn(ToLower(name), value);
      forall ps
        ensures value != "\"" + (Written(ps) + "\\")
      {
        assert ("\"" + (Written(ps) + "\\"))[0] == '\"';
      }
    }
  }

  // ---------------------------------------------------------------- all parameters

  /** A segment, its semicolon, and blanks. */
  datatype Link = Link(segment: Segment, gap: string)

  function Chained(links: seq<Link>, tail: string): string {
    if links == [] then tail else SegmentText(links[0].segment) + ";" + (links[0].gap + Chained(links[1..], tail))
  }

  ghost predicate ValidChain(links: seq<Link>, tail: string) {
    links != [] ==>
      && ValidSegment(links[0].segment) && Blank(links[0].gap)
      && StartsSharp(Chained(links[1..], tail)) && ValidChain(links[1..], tail)
  }

  function ChainParams(links: seq<Link>): seq<Param> {
    seq(|links|, i requires 0 <= i < |links| => SegmentParam(links[i].segment))
  }

  function WithParams(mt: MediaType, ps: seq<Param>): MediaType {
    mt.(params := mt.params + ps)
  }

  lemma WithCons(mt: MediaType, links: seq<Link>)
    ensures WithParams(mt, ChainParams([])) == mt
    ensures links != [] ==>
              WithParams(AddParam(mt, SegmentParam(links[0].segment)), ChainParams(links[1..]))
              == WithParams(mt, ChainParams(links))
  {
    hide SegmentParam;
    assert mt.params + [] == mt.params;
    if links != [] {
      var p, rest := SegmentParam(links[0].segment), ChainParams(links[1..]);
      assert ChainParams(links) == [p] + rest;
      assert mt.params + [p] + rest == mt.params + ([p] + rest);
    }
  }

  lemma ReadMore(mt: MediaType, str: string)
    ensures var t := ReadParam(str);
            t.More? ==> ReadParams(mt, str) == ReadParams(AddParam(mt, t.param), t.rest)
    ensures ReadParam(str) == Fatal <==> ReadParams(mt, str) == Crash && !ReadParam(str).More?
    ensures forall p | ReadParam(str) == Last(p) :: ReadParams(mt, str) == Parsed(AddParam(mt, p), None)
    ensures ReadParam(str).Fail? || ReadParam(str).FailAfter? ==>
              ReadParams(mt, str).Parsed? && ReadParams(mt, str).err.Some?
  {
    hide ReadParam, AddParam;
  }

  /** Chained segments are read one by one, with what they mean. */
  lemma {:induction false} ReadChain(mt: MediaType, links: seq<Link>, tail: string)
    requires ValidChain(links, tail)
    ensures ReadParams(mt, Chained(links, tail)) == ReadParams(WithParams(mt, ChainParams(links)), tail)
    decreases |links|
  {
    hide ReadParams, ReadParam, SegmentText, SegmentParam, TrimLeft, WithParams, AddParam, ChainParams;
    hide ValidSegment, Blank;
    WithCons(mt, links);
    if links != [] {
      var s, gap, rest := links[0].segment, links[0].gap, Chained(links[1..], tail);
      ReadSegment(s, gap + rest);
      TrimBlanks(gap, rest);
      ReadMore(mt, Chained(links, tail));
      ReadChain(AddParam(mt, SegmentParam(s)), links[1..], tail);
    }
  }

  lemma ConsChain(s: Segment, gap: string, links: seq<Link>, tail: string)
    ensures Chained([Link(s, gap)] + links, tail) == SegmentText(s) + ";" + (gap + Chained(links, tail))
    ensures ValidChain([Link(s, gap)] + links, tail) <==>
            ValidSegment(s) && Blank(gap) && StartsSharp(Chained(links, tail)) && ValidChain(links, tail)
  {
    hide SegmentText, ValidSegment, Blank, StartsSharp;
    assert ([Link(s, gap)] + links)[1..] == links;
  }

  /** Any text is a chain of segments and a tail that no semicolon follows. */
  lemma {:induction false} SplitChain(str: string) returns (links: seq<Link>, tail: string)
    ensures ValidChain(links, tail) && str == Chained(links, tail) && !ReadParam(tail).More?
    decreases |str|
  {
    if ReadParam(str).More? {
      hide ReadParam, SegmentText, ValidSegment, Chained, ValidChain, Blank, StartsSharp;
      var s, rest := MoreSegment(str);
      var gap, next := Trimmed(rest);
      var more;
      more, tail := SplitChain(next);
      links := [Link(s, gap)] + more;
      ConsChain(s, gap, more, tail);
    } else {
      links, tail := [], str;
    }
  }

  // ---------------------------------------------------------------- the whole text

  /** str is a type, a subtype, a semicolon, blanks and the parameters' text. */
  predicate Headed(str: string, typ: string, subtype: string, gap: string, params: string) {
    && '/' !in typ && ';' !in subtype && Blank(gap) && StartsSharp(params)
    && str == typ + "/" + (subtype + ";" + (gap + params))
  }

  lemma ParseHeaded(str: string, typ: string, subtype: string, gap: string, params: string)
    requires Headed(str, typ, subtype, gap, params)
    ensures Parse(str) == ReadParams(MediaType(ToLower(typ), ToLower(TrimRight(subtype)), []), params)
  {
    hide IndexOf, ReadParams, ToLower, TrimLeft, TrimRight, Parse, Blank;
    var rest := subtype + ";" + (gap + params);
    AtSlash(typ, rest);
    IndexOfSplit(subtype, ';', gap + params);
    assert rest == subtype + [';'] + (gap + params);
    TrimBlanks(gap, params);
  }

  lemma ParseUnparameterized(typ: string, subtype: string)
    requires '/' !in typ && ';' !in subtype
    ensures Parse(typ + "/" + subtype) == Parsed(MediaType(ToLower(typ), subtype, []), None)
  {
    hide ToLower, Parse, ReadParams;
    AtSlash(typ, subtype);
  }

  /** Every text without an early error is headed, or a type and subtype alone. */
  lemma HeadOf(str: string) returns (typ: string, subtype: string, gap: string, params: string)
    ensures '/' !in str ==> Parse(str) == Parsed(MediaType(str, "", []), Some(MalformedContentType))
    ensures '/' in str ==> '/' !in typ && ';' !in subtype
    ensures '/' in str ==> Headed(str, typ, subtype, gap, params) || str == typ + "/" + subtype
  {
    typ, subtype, gap, params := "", "", "", "";
    var i := IndexOf(str, '/');
    hide IndexOf, TrimLeft, TrimRight, ToLower, ReadParams;
    if i >= 0 {
      typ := str[..i];
      var rest := str[i + 1..];
      assert str == str[..i] + [str[i]] + rest;
      var j := IndexOf(rest, ';');
      if j < 0 {
        subtype := rest;
      } else {
        subtype := rest[..j];
        var tail := rest[j + 1..];
        assert rest == rest[..j] + [rest[j]] + tail;
        params := TrimLeft(tail);
        gap := tail[..|tail| - |params|];
        assert tail == gap + params;
      }
    }
  }

  /** ParseMediaType runs off its input exactly on a headed chain whose tail is cut short. */
  lemma CrashIff(str: string)
    ensures Parse(str) == Crash <==>
            exists typ, subtype, gap, links, tail ::
              Headed(str, typ, subtype, gap, Chained(links, tail)) && ValidChain(links, tail) && CutShort(tail)
  {
    hide Parse, ReadParams, ReadParam, ToLower, TrimRight;
    hide CutShort, Headed, ValidChain, Chained, WithParams, ChainParams;
    if Parse(str) == Crash {
      var typ, subtype, gap, params := HeadOf(str);
      if !Headed(str, typ, subtype, gap, params) {
        ParseUnparameterized(typ, subtype);
      }
      var links, tail := SplitChain(params);
      var mt := MediaType(ToLower(typ), ToLower(TrimRight(subtype)), []);
      ParseHeaded(str, typ, subtype, gap, params);
      ReadChain(mt, links, tail);
      ReadMore(WithParams(mt, ChainParams(links)), tail);
      FatalIff(tail);
    }
    forall typ, subtype, gap, links, tail |
      Headed(str, typ, subtype, gap, Chained(links, tail)) && ValidChain(links, tail) && CutShort(tail)
      ensures Parse(str) == Crash
    {
      var mt := MediaType(ToLower(typ), ToLower(TrimRight(subtype)), []);
      ParseHeaded(str, typ, subtype, gap, Chained(links, tail));
      ReadChain(mt, links, tail);
      ReadMore(WithParams(mt, ChainParams(links)), tail);
      FatalIff(tail);
    }
  }

  /** str is headed and its parameters are a valid chain and a final segment, with the meaning mt. */
  ghost predicate Means(str: string, mt: MediaType, typ: string, subtype: string, gap: string,
                        links: seq<Link>, last: Segment)
  {
    && Headed(str, typ, subtype, gap, Chained(links, SegmentText(last)))
    && ValidChain(links, SegmentText(last)) && FinalSegment(last)
    && mt == MediaType(ToLower(typ), ToLower(TrimRight(subtype)), ChainParams(links) + [LastParam(last)])
  }

  /** Text without parameters keeps its subtype as it is. */
  ghost predicate MeansPlain(str: string, mt: MediaType, typ: string, subtype: string) {
    && '/' !in typ && ';' !in subtype && str == typ + "/" + subtype
    && mt == MediaType(ToLower(typ), subtype, [])
  }

  lemma ParseMeans(str: string, mt: MediaType, typ: string, subtype: string, gap: string,
                   links: seq<Link>, last: Segment)
    requires Means(str, mt, typ, subtype, gap, links, last)
    ensures Parse(str) == Parsed(mt, None)
  {
    hide Parse, ReadParams, ReadParam, ToLower, TrimRight;
    hide Headed, ValidChain, Chained, ChainParams, LastParam, SegmentText;
    var head := MediaType(ToLower(typ), ToLower(TrimRight(subtype)), []);
    ParseHeaded(str, typ, subtype, gap, Chained(links, SegmentText(last)));
    ReadChain(head, links, SegmentText(last));
    ReadFinal(last);
    ReadMore(WithParams(head, ChainParams(links)), SegmentText(last));
    assert [] + ChainParams(links) == ChainParams(links);
  }

  /** ParseMediaType accepts exactly a type and subtype, alone or headed with a chain of parameters, and with
      that meaning. */
  lemma AcceptIff(str: string, mt: MediaType)
    ensures Parse(str) == Parsed(mt, None) <==>
            || (exists typ, subtype :: MeansPlain(str, mt, typ, subtype))
            || (exists typ, subtype, gap, links, last :: Means(str, mt, typ, subtype, gap, links, last))
  {
    hide Parse, ReadParams, ReadParam, ToLower, TrimRight, Headed, Means, SegmentText, LastParam;
    if Parse(str) == Parsed(mt, None) {
      var typ, subtype, gap, params := HeadOf(str);
      if Headed(str, typ, subtype, gap, params) {
        var links, last := AcceptedMeans(str, mt, typ, subtype, gap, params);
      } else {
        ParseUnparameterized(typ, subtype);
        assert MeansPlain(str, mt, typ, subtype);
      }
    }
    forall typ, subtype | MeansPlain(str, mt, typ, subtype)
      ensures Parse(str) == Parsed(mt, None)
    {
      ParseUnparameterized(typ, subtype);
    }
    forall typ, subtype, gap, links, last | Means(str, mt, typ, subtype, gap, links, last)
      ensures Parse(str) == Parsed(mt, None)
    {
      ParseMeans(str, mt, typ, subtype, gap, links, last);
    }
  }

  lemma AcceptedMeans(str: string, mt: MediaType, typ: string, subtype: string, gap: string, params: string)
    returns (links: seq<Link>, last: Segment)
    requires Headed(str, typ, subtype, gap, params) && Parse(str) == Parsed(mt, None)
    ensures Means(str, mt, typ, subtype, gap, links, last)
  {
    hide Parse, ReadParams, ReadParam, ToLower, TrimRight;
    hide Headed, ValidChain, Chained, ChainParams, LastParam, SegmentText;
    var tail;
    links, tail := SplitChain(params);
    var head := MediaType(ToLower(typ), ToLower(TrimRight(subtype)), []);
    ParseHeaded(str, typ, subtype, gap, params);
    ReadChain(head, links, tail);
    ReadMore(WithParams(head, ChainParams(links)), tail);
    FatalIff(tail);
    last := FinalOf(tail);
    ParseMeansSame(head, links, last);
    ReadFinal(last);
  }

  lemma ParseMeansSame(head: MediaType, links: seq<Link>, last: Segment)
    requires head.params == []
    ensures AddParam(WithParams(head, ChainParams(links)), LastParam(last))
            == MediaType(head.typ, head.subtype, ChainParams(links) + [LastParam(last)])
  {
    hide ChainParams, LastParam;
    assert [] + ChainParams(links) == ChainParams(links);
  }

  function OneParam(value: string): string {
    "a" + "/" + ("b" + ";" + ("" + ("c" + "=" + value)))
  }

  lemma CrashAt(value: string)
    requires EndsTooSoon(value)
    ensures Parse(OneParam(value)) == Crash
  {
    hide Parse, EndsTooSoon, ReadParams, ReadParam;
    var params := "c" + "=" + value;
    assert params[0] == 'c' && CutShort(params);
    assert Chained([], params) == params && ValidChain([], params);
    assert Headed(OneParam(value), "a", "b", "", Chained([], params));
    CrashIff(OneParam(value));
  }

  lemma OneParamTexts()
    ensures OneParam("") == "a/b;c="
    ensures OneParam("\"x\\") == "a/b;c=\"x\\"
  {
  }

  lemma BackslashEnds()
    ensures EndsTooSoon("\"x\\")
  {
    var ps := [Plain('x')];
    assert ps[1..] == [] && Written(ps) == "x" + "" && ValidPieces(ps);
    assert "\"x\\" == "\"" + (Written(ps) + "\\");
  }

  /** Two header values that make the parser run off its input: nothing behind the last equals sign, and a
      backslash as the last byte of a quoted value. */
  lemma CrashInputs()
    ensures Parse("a/b;c=") == Crash
    ensures Parse("a/b;c=\"x\\") == Crash
  {
    hide Parse, OneParam;
    OneParamTexts();
    BackslashEnds();
    CrashAt("");
    CrashAt("\"x\\");
  }
}
