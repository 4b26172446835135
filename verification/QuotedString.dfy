/** quoted-string and token text (section 3.2.6 of RFC 7230). */
module QuotedString {
  import opened Strconv
  import opened HttpChars

  datatype QuoteError = NoStartingQuotes | NoEndingQuotes | MalformedQuotedString

  /** An index out of range, or the value, the index reached and perhaps an error. */
  datatype Quoted = Panic | Quoted(value: string, index: nat, err: Option<QuoteError>)

  // ---------------------------------------------------------------- parsing

  /** A result read behind `n` bytes that held `value`. */
  function Behind(value: string, n: nat, q: Quoted): Quoted {
    if q == Panic then Panic else Quoted(value + q.value, n + q.index, q.err)
  }

  /** ParseQuotedStringNoStartingQuote, byte by byte. */
  function ParseQuoted(s: string): (q: Quoted)
    ensures q.Quoted? ==> q.index <= |s|
  {
    if s == "" then Quoted("", 0, Some(NoEndingQuotes))
    else if IsQDText(s[0]) then Behind([s[0]], 1, ParseQuoted(s[1..]))
    else if s[0] == '\\' then
      if |s| == 1 then Panic
      else if !IsQuotedPairChar(s[1]) then Quoted("", 1, Some(MalformedQuotedString))
      else Behind([s[1]], 2, ParseQuoted(s[2..]))
    else if s[0] == '\"' then Quoted("", 1, None)
    else Quoted("", 0, Some(MalformedQuotedString))
  }

  lemma BehindStep(str: string, i: nat, c: char, n: nat, q: Quoted)
    ensures Behind(str, i, Behind([c], n, q)) == Behind(str + [c], i + n, q)
    ensures Behind("", 0, q) == q
  {
    if q != Panic {
      assert str + ([c] + q.value) == (str + [c]) + q.value;
      assert "" + q.value == q.value;
    }
  }

  method ParseQuotedStringNoStartingQuote(qstr: string) returns (q: Quoted)
    ensures q == ParseQuoted(qstr)
  {
    hide IsQDText, IsQuotedPairChar;
    var str: string := "";
    var i := 0;
    assert qstr[0..] == qstr;
    BehindStep("", 0, ' ', 0, ParseQuoted(qstr));
    while i < |qstr|
      invariant 0 <= i <= |qstr|
      invariant ParseQuoted(qstr) == Behind(str, i, ParseQuoted(qstr[i..]))
    {
      var c := qstr[i];
      ghost var rest := qstr[i..];
      ghost var from := i;
      if !IsQDText(c) {
        if c == '\\' {
          i := i + 1;
          if i == |qstr| {
            return Panic;
          }
          c := qstr[i];
          if !IsQuotedPairChar(c) {
            return Quoted(str, i, Some(MalformedQuotedString));
          }
        } else if c == '\"' {
          return Quoted(str, i + 1, None);
        } else {
          return Quoted(str, i, Some(MalformedQuotedString));
        }
      }
      assert rest[i + 1 - from..] == qstr[i + 1..];
      BehindStep(str, from, c, i + 1 - from, ParseQuoted(qstr[i + 1..]));
      str := str + [c];
      i := i + 1;
    }
    return Quoted(str, |qstr|, Some(NoEndingQuotes));
  }

  /** ParseFullQuotedString: a text that must be one quoted-string from end to end. */
  function ParseFull(s: string): Quoted {
    if s == "" || s[0] != '\"' then Quoted("", 0, Some(NoStartingQuotes))
    else
      var q := ParseQuoted(s[1..]);
      if q.Quoted? && q.index != |s| - 1 then Quoted(q.value, q.index, Some(MalformedQuotedString)) else q
  }

  method ParseFullQuotedString(qstr: string) returns (q: Quoted)
    ensures q == ParseFull(qstr)
  {
    if |qstr| == 0 || qstr[0] != '\"' {
      return Quoted("", 0, Some(NoStartingQuotes));
    }
    q := ParseQuotedStringNoStartingQuote(qstr[1..]);
    if q.Quoted? && q.index != |qstr| - 1 {
      q := Quoted(q.value, q.index, Some(MalformedQuotedString));
    }
  }

  // ---------------------------------------------------------------- the grammar

  /** qdtext or a quoted-pair. */
  datatype Piece = Plain(c: char) | Escaped(c: char)

  predicate ValidPieces(ps: seq<Piece>) {
    forall p | p in ps :: if p.Plain? then IsQDText(p.c) else IsQuotedPairChar(p.c)
  }

  function PieceText(p: Piece): string {
    if p.Plain? then [p.c] else ['\\', p.c]
  }

  function Written(ps: seq<Piece>): string {
    if ps == [] then "" else PieceText(ps[0]) + Written(ps[1..])
  }

  function Denoted(ps: seq<Piece>): string {
    seq(|ps|, i requires 0 <= i < |ps| => ps[i].c)
  }

  /** Pieces, a closing quote and anything more read as what the pieces denote, up to behind the quote. */
  lemma {:induction false} ParseWritten(ps: seq<Piece>, more: string)
    requires ValidPieces(ps)
    ensures ParseQuoted(Written(ps) + "\"" + more) == Quoted(Denoted(ps), |Written(ps)| + 1, None)
  {
    var s := Written(ps) + "\"" + more;
    if ps != [] {
      hide IsQDText, IsQuotedPairChar;
      var p, rest := ps[0], ps[1..];
      ParseWritten(rest, more);
      var tail := Written(rest) + "\"" + more;
      var n := |PieceText(p)|;
      assert s[..n] == PieceText(p) && s[n..] == tail;
      assert Denoted(ps) == [p.c] + Denoted(rest);
      NotQDText();
    }
  }

  lemma NotQDText()
    ensures !IsQDText('\\') && !IsQDText('\"')
  {
  }

  /** A parse without error has read pieces and a closing quote. */
  lemma {:induction false} ParsedWritten(s: string) returns (ps: seq<Piece>)
    requires ParseQuoted(s).Quoted? && ParseQuoted(s).err == None
    ensures ValidPieces(ps) && Denoted(ps) == ParseQuoted(s).value
    ensures ParseQuoted(s).index <= |s| && s[..ParseQuoted(s).index] == Written(ps) + "\""
  {
    hide IsQDText, IsQuotedPairChar;
    if IsQDText(s[0]) {
      var rest := ParsedWritten(s[1..]);
      ps := [Plain(s[0])] + rest;
      ConsWritten(s, Plain(s[0]), rest, ParseQuoted(s[1..]).index);
    } else if s[0] == '\\' {
      var rest := ParsedWritten(s[2..]);
      ps := [Escaped(s[1])] + rest;
      ConsWritten(s, Escaped(s[1]), rest, ParseQuoted(s[2..]).index);
    } else {
      ps := [];
      assert s[..1] == "" + "\"";
    }
  }

  lemma ConsWritten(s: string, p: Piece, rest: seq<Piece>, index: nat)
    requires PieceText(p) <= s
    requires index <= |s| - |PieceText(p)|
    requires s[|PieceText(p)|..][..index] == Written(rest) + "\""
    ensures s[..|PieceText(p)| + index] == Written([p] + rest) + "\""
    ensures Denoted([p] + rest) == [p.c] + Denoted(rest)
  {
    var n := |PieceText(p)|;
    assert ([p] + rest)[1..] == rest;
    assert s[..n + index] == s[..n] + s[n..][..index];
  }

  /** The parser accepts exactly pieces with a closing quote, with their value, and stops behind it. */
  lemma ParseQuotedIff(s: string, value: string, index: nat)
    ensures ParseQuoted(s) == Quoted(value, index, None) <==>
            index <= |s| &&
            exists ps :: ValidPieces(ps) && value == Denoted(ps) && s[..index] == Written(ps) + "\""
  {
    hide ParseQuoted, Written, ValidPieces, Denoted;
    if ParseQuoted(s) == Quoted(value, index, None) {
      var ps := ParsedWritten(s);
    }
    forall ps | index <= |s| && ValidPieces(ps) && value == Denoted(ps) && s[..index] == Written(ps) + "\""
      ensures ParseQuoted(s) == Quoted(value, index, None)
    {
      ParseWritten(ps, s[index..]);
      assert s == s[..index] + s[index..];
    }
  }

  /** A whole text is accepted exactly if it is a quoted-string, with that string's value. */
  lemma ParseFullIff(s: string, value: string)
    ensures ParseFull(s).Quoted? && ParseFull(s).err == None && ParseFull(s).value == value <==>
            exists ps :: ValidPieces(ps) && value == Denoted(ps) && s == "\"" + Written(ps) + "\""
  {
    hide ParseQuoted, Written, ValidPieces, Denoted;
    if s != "" && s[0] == '\"' {
      var inner := s[1..];
      ParseQuotedIff(inner, value, |inner|);
      assert inner[..|inner|] == inner;
      forall ps
        ensures inner == Written(ps) + "\"" <==> s == "\"" + Written(ps) + "\""
      {
        assert s == "\"" + inner;
        assert ("\"" + Written(ps) + "\"")[1..] == Written(ps) + "\"";
      }
    } else {
      forall ps
        ensures s != "\"" + Written(ps) + "\""
      {
        assert ("\"" + Written(ps) + "\"")[0] == '\"';
      }
    }
  }

  /** It runs past its input exactly on pieces followed by one last backslash. */
  lemma ParsePanicIff(s: string)
    ensures ParseQuoted(s) == Panic <==> exists ps :: ValidPieces(ps) && s == Written(ps) + "\\"
  {
    if ParseQuoted(s) == Panic {
      var ps := PanicWritten(s);
    }
    forall ps | ValidPieces(ps) && s == Written(ps) + "\\"
      ensures ParseQuoted(s) == Panic
    {
      WrittenPanics(ps);
    }
  }

  lemma {:induction false} PanicWritten(s: string) returns (ps: seq<Piece>)
    requires ParseQuoted(s) == Panic
    ensures ValidPieces(ps) && s == Written(ps) + "\\"
  {
    hide IsQDText, IsQuotedPairChar;
    if IsQDText(s[0]) {
      var rest := PanicWritten(s[1..]);
      ps := [Plain(s[0])] + rest;
      assert ps[1..] == rest;
      assert s == [s[0]] + s[1..];
    } else if |s| == 1 {
      ps := [];
      assert s == "" + "\\";
    } else {
      var rest := PanicWritten(s[2..]);
      ps := [Escaped(s[1])] + rest;
      assert ps[1..] == rest;
      assert s == ['\\', s[1]] + s[2..];
    }
  }

  lemma {:induction false} WrittenPanics(ps: seq<Piece>)
    requires ValidPieces(ps)
    ensures ParseQuoted(Written(ps) + "\\") == Panic
  {
    NotQDText();
    var s := Written(ps) + "\\";
    if ps != [] {
      hide IsQDText, IsQuotedPairChar;
      WrittenPanics(ps[1..]);
      var n := |PieceText(ps[0])|;
      assert s[..n] == PieceText(ps[0]) && s[n..] == Written(ps[1..]) + "\\";
    }
  }

  // ---------------------------------------------------------------- printing

  predicate Within(c: char, lo: int, hi: int) {
    lo <= c as int <= hi
  }

  /** The bytes of the first rune, as a Go range loop steps: a valid UTF-8 encoding, or one byte. */
  function RuneWidth(s: string): (w: nat)
    requires s != ""
    ensures 1 <= w <= |s|
    ensures w > 1 ==> IsOBSText(s[0])
  {
    var b := s[0] as int;
    if b < 0xC2 || b > 0xF4 then 1
    else if b < 0xE0 then (if |s| >= 2 && Within(s[1], 0x80, 0xBF) then 2 else 1)
    else if b < 0xF0 then
      var lo := if b == 0xE0 then 0xA0 else 0x80;
      var hi := if b == 0xED then 0x9F else 0xBF;
      if |s| >= 3 && Within(s[1], lo, hi) && Within(s[2], 0x80, 0xBF) then 3 else 1
    else
      var lo := if b == 0xF0 then 0x90 else 0x80;
      var hi := if b == 0xF4 then 0x8F else 0xBF;
      if |s| >= 4 && Within(s[1], lo, hi) && Within(s[2], 0x80, 0xBF) && Within(s[3], 0x80, 0xBF) then 4 else 1
  }

  /** The code points other than surrogates. */
  predicate IsRune(cp: nat) {
    cp < 0xD800 || 0xE000 <= cp < 0x11_0000
  }

  /** A code point's UTF-8 encoding (section 3 of RFC 3629). */
  function Utf8(cp: nat): string
    requires IsRune(cp)
  {
    if cp < 0x80 then [cp as char]
    else if cp < 0x800 then [(0xC0 + cp / 64) as char, (0x80 + cp % 64) as char]
    else if cp < 0x1_0000 then
      [(0xE0 + cp / 4096) as char, (0x80 + cp / 64 % 64) as char, (0x80 + cp % 64) as char]
    else
      [(0xF0 + cp / 0x4_0000) as char, (0x80 + cp / 4096 % 64) as char, (0x80 + cp / 64 % 64) as char,
       (0x80 + cp % 64) as char]
  }

  lemma EncodesTwo(s: string, cp: nat)
    requires s != "" && 0x80 <= cp < 0x800 && Utf8(cp) <= s
    ensures RuneWidth(s) == 2
  {
    var u := Utf8(cp);
    assert s[0] == u[0] && s[1] == u[1];
  }

  lemma EncodesThree(s: string, cp: nat)
    requires s != "" && 0x800 <= cp < 0x1_0000 && IsRune(cp) && Utf8(cp) <= s
    ensures RuneWidth(s) == 3
  {
    var u := Utf8(cp);
    assert s[0] == u[0] && s[1] == u[1] && s[2] == u[2];
  }

  lemma EncodesFour(s: string, cp: nat)
    requires s != "" && 0x1_0000 <= cp && IsRune(cp) && Utf8(cp) <= s
    ensures RuneWidth(s) == 4
  {
    var u := Utf8(cp);
    assert s[0] == u[0] && s[1] == u[1] && s[2] == u[2] && s[3] == u[3];
  }

  lemma DecodesTwo(s: string) returns (cp: nat)
    requires s != "" && RuneWidth(s) == 2
    ensures 0x80 <= cp < 0x800 && Utf8(cp) <= s
  {
    cp := (s[0] as int - 0xC0) * 64 + (s[1] as int - 0x80);
    assert s[..2] == Utf8(cp);
  }

  lemma DecodesThree(s: string) returns (cp: nat)
    requires s != "" && RuneWidth(s) == 3
    ensures 0x800 <= cp < 0x1_0000 && IsRune(cp) && Utf8(cp) <= s
  {
    var a, b, c := s[0] as int - 0xE0, s[1] as int - 0x80, s[2] as int - 0x80;
    cp := a * 4096 + b * 64 + c;
    SixBits(0, a, b, c);
    assert s[..3] == Utf8(cp);
  }

  lemma DecodesFour(s: string) returns (cp: nat)
    requires s != "" && RuneWidth(s) == 4
    ensures 0x1_0000 <= cp && IsRune(cp) && Utf8(cp) <= s
  {
    var a, b, c, d := s[0] as int - 0xF0, s[1] as int - 0x80, s[2] as int - 0x80, s[3] as int - 0x80;
    cp := a * 0x4_0000 + b * 4096 + c * 64 + d;
    SixBits(a, b, c, d);
    assert s[..4] == Utf8(cp);
  }

  lemma SixBits(a: nat, b: nat, c: nat, d: nat)
    requires b < 64 && c < 64 && d < 64
    ensures var cp := a * 0x4_0000 + b * 4096 + c * 64 + d;
            cp / 0x4_0000 == a && cp / 4096 % 64 == b && cp / 64 % 64 == c && cp % 64 == d
  {
    var cp := a * 0x4_0000 + b * 4096 + c * 64 + d;
    assert cp / 64 == a * 4096 + b * 64 + c;
    assert cp / 4096 == a * 64 + b;
  }

  /** A range loop steps over a whole character exactly where the bytes begin with the UTF-8 encoding of a code
      point, and over one byte otherwise. */
  lemma RuneWidthIff(s: string, w: nat)
    requires s != "" && w > 1
    ensures RuneWidth(s) == w <==> exists cp: nat :: IsRune(cp) && |Utf8(cp)| == w && Utf8(cp) <= s
  {
    hide RuneWidth;
    WidthUpTo4(s);
    if RuneWidth(s) == w {
      var cp;
      if w == 2 {
        cp := DecodesTwo(s);
      } else if w == 3 {
        cp := DecodesThree(s);
      } else {
        cp := DecodesFour(s);
      }
    }
    forall cp: nat | IsRune(cp) && |Utf8(cp)| == w && Utf8(cp) <= s
      ensures RuneWidth(s) == w
    {
      if cp < 0x800 {
        EncodesTwo(s, cp);
      } else if cp < 0x1_0000 {
        EncodesThree(s, cp);
      } else {
        EncodesFour(s, cp);
      }
    }
  }

  lemma WidthUpTo4(s: string)
    requires s != ""
    ensures RuneWidth(s) <= 4
  {
  }

  /** The bytes the range loop looks at: the first of every rune. */
  function Leads(s: string): (t: string)
    ensures |t| <= |s|
    ensures t == "" <==> s == ""
  {
    if s == "" then "" else [s[0]] + Leads(s[RuneWidth(s)..])
  }

  /** No part of s that a range loop reaches is a character of more than one byte. */
  predicate SingleBytes(s: string) {
    s == "" || (RuneWidth(s) == 1 && SingleBytes(s[1..]))
  }

  /** The range loop sees every byte exactly when there is no longer character. */
  lemma {:induction false} LeadsIff(s: string)
    ensures Leads(s) == s <==> SingleBytes(s)
  {
    hide RuneWidth;
    if s != "" {
      if RuneWidth(s) == 1 {
        LeadsIff(s[1..]);
        assert s == [s[0]] + s[1..];
        assert Leads(s)[1..] == Leads(s[1..]);
      } else {
        assert |Leads(s)| < |s|;
      }
    }
  }

  predicate LegalChar(c: char) {
    IsTokenChar(c) || IsQDText(c) || IsQuotedPairChar(c)
  }

  /** What can be written at all: everything but controls and DEL. */
  lemma LegalCharIff(c: char)
    ensures LegalChar(c) <==> c == '\t' || (c >= ' ' && c != 0x7F as char)
  {
    TextCharsIff(c);
    if IsTokenChar(c) {
      TokenIsPlain(c);
    }
  }

  predicate Legal(s: string) {
    forall i | 0 <= i < |s| :: LegalChar(s[i])
  }

  function LegalPrefix(s: string): string {
    if s == "" || !LegalChar(s[0]) then "" else [s[0]] + LegalPrefix(s[1..])
  }

  lemma {:induction false} LegalPrefixOf(done: string, rest: string)
    requires Legal(done) && (rest == "" || !LegalChar(rest[0]))
    ensures LegalPrefix(done + rest) == done
    ensures rest == "" <==> Legal(done + rest)
  {
    hide LegalChar;
    if done == "" {
      assert done + rest == rest;
    } else {
      LegalPrefixOf(done[1..], rest);
      assert (done + rest)[1..] == done[1..] + rest;
      assert forall i | 0 < i < |done + rest| :: (done + rest)[i] == (done[1..] + rest)[i - 1];
      if Legal(done[1..] + rest) {
        forall i | 0 <= i < |done + rest|
          ensures LegalChar((done + rest)[i])
        {
          if i > 0 {
            assert LegalChar((done[1..] + rest)[i - 1]);
          }
        }
      }
      if rest != "" {
        assert (done + rest)[|done|] == rest[0];
      }
    }
  }

  /** A backslash goes before what quoted text cannot hold bare. */
  function EscapeChar(c: char): Piece {
    if IsTokenChar(c) || IsQDText(c) then Plain(c) else Escaped(c)
  }

  function Pieces(s: string): seq<Piece> {
    seq(|s|, i requires 0 <= i < |s| => EscapeChar(s[i]))
  }

  /** A token as it is, anything else in quotes. */
  function Render(s: string): string {
    if IsToken(s) then s else "\"" + Written(Pieces(s)) + "\""
  }

  lemma {:induction false} WrittenAppend(ps: seq<Piece>, p: Piece)
    ensures Written(ps + [p]) == Written(ps) + PieceText(p)
  {
    hide PieceText;
    if ps == [] {
      assert ps + [p] == [p] && "" + PieceText(p) == PieceText(p) && PieceText(p) + "" == PieceText(p);
    } else {
      WrittenAppend(ps[1..], p);
      assert (ps + [p])[1..] == ps[1..] + [p];
      assert PieceText(ps[0]) + (Written(ps[1..]) + PieceText(p)) == PieceText(ps[0]) + Written(ps[1..]) + PieceText(p);
    }
  }

  lemma {:induction false} TokenWritten(s: string)
    requires IsToken(s)
    ensures Written(Pieces(s)) == s
  {
    if s != "" {
      TokenWritten(s[1..]);
      assert Pieces(s)[1..] == Pieces(s[1..]);
      assert s == [s[0]] + s[1..];
    }
  }

  /** One byte more in the output buffer. */
  lemma AppendChar(done: string, c: char)
    ensures Written(Pieces(done + [c])) == Written(Pieces(done)) + PieceText(EscapeChar(c))
    ensures IsToken(done + [c]) <==> IsToken(done) && IsTokenChar(c)
    ensures Legal(done + [c]) <==> Legal(done) && LegalChar(c)
  {
    hide Written, IsTokenChar, LegalChar, EscapeChar, PieceText;
    var s := done + [c];
    assert Pieces(s) == Pieces(done) + [EscapeChar(c)];
    WrittenAppend(Pieces(done), EscapeChar(c));
    assert s[|done|] == c && forall i | 0 <= i < |done| :: s[i] == done[i];
  }

  lemma NextLead(done: string, str: string, i: nat)
    requires i < |str|
    ensures var width := RuneWidth(str[i..]);
            done + Leads(str[i..]) == (done + [str[i]]) + Leads(str[i + width..])
    ensures Leads(str[i..]) != "" && Leads(str[i..])[0] == str[i]
  {
    hide RuneWidth;
    var rest := str[i..];
    var width := RuneWidth(rest);
    assert rest[width..] == str[i + width..];
    assert done + ([rest[0]] + Leads(rest[width..])) == (done + [rest[0]]) + Leads(rest[width..]);
  }

  lemma NothingWritten(s: string)
    ensures Legal("") && IsToken("") && Written(Pieces("")) == "" && s[0..] == s && s == "" + s
  {
  }

  /** What the output buffer comes to, its reserved first byte set to a quote or cut off. */
  lemma Finished(out: string, done: string)
    requires |out| > 0 && out[1..] == Written(Pieces(done))
    ensures IsToken(done) ==> out[1..] == Render(done)
    ensures !IsToken(done) ==> out[0 := '\"'] + "\"" == Render(done)
  {
    hide Written, Pieces, IsToken;
    if IsToken(done) {
      TokenWritten(done);
    } else {
      assert out[0 := '\"'] == "\"" + out[1..];
    }
  }

  /** The text, and whether every byte looked at could be written. */
  method FormatTokenOrQuotedString(str: string) returns (text: string, ok: bool)
    ensures text == Render(LegalPrefix(Leads(str)))
    ensures ok <==> Legal(Leads(str))
    ensures ok ==> text == Render(Leads(str))
  {
    hide RuneWidth, Leads, IsTokenChar, IsQDText, IsQuotedPairChar, IsToken;
    hide Written, Pieces, Legal, LegalPrefix, Render;
    var isQuoted := false;
    var out: string := ['\0'];
    ok := true;
    var i := 0;
    ghost var done := "";
    NothingWritten(str);
    NothingWritten(Leads(str));
    while i < |str|
      invariant 0 <= i <= |str|
      invariant Leads(str) == done + Leads(str[i..]) && Legal(done)
      invariant |out| > 0 && out[1..] == Written(Pieces(done)) && isQuoted == !IsToken(done)
    {
      var c := str[i];
      AppendChar(done, c);
      NextLead(done, str, i);
      if IsTokenChar(c) {
        out := out + [c];
      } else if IsQDText(c) {
        out := out + [c];
        if !isQuoted {
          isQuoted := true;
        }
      } else if IsQuotedPairChar(c) {
        out := out + ['\\', c];
        if !isQuoted {
          isQuoted := true;
        }
      } else {
        ok := false;
        break;
      }
      done := done + [c];
      i := i + RuneWidth(str[i..]);
    }
    LegalPrefixOf(done, Leads(str[i..]));
    assert done + "" == done;
    Finished(out, done);
    if isQuoted {
      out := out[0 := '\"'];
      out := out + "\"";
      return out, ok;
    }
    return out[1..], ok;
  }

  /** Quoted text reads back as the bytes it was made of, in full and also before more text. */
  lemma RenderParses(s: string, more: string)
    requires Legal(s) && !IsToken(s)
    ensures Render(s)[0] == '\"'
    ensures ParseQuoted(Render(s)[1..] + more) == Quoted(s, |Render(s)| - 1, None)
  {
    hide Written, ParseQuoted, IsToken, Pieces;
    LegalPieces(s);
    ParseWritten(Pieces(s), more);
    assert Render(s)[1..] == Written(Pieces(s)) + "\"";
  }

  /** The pieces written are valid and denote the text; only quotes and backslashes are escaped. */
  lemma LegalPieces(s: string)
    requires Legal(s)
    ensures ValidPieces(Pieces(s)) && Denoted(Pieces(s)) == s
    ensures forall p | p in Pieces(s) :: p.Escaped? <==> p.c == '\"' || p.c == '\\'
  {
    forall i | 0 <= i < |s|
      ensures EscapeChar(s[i]).c == s[i] && (EscapeChar(s[i]).Escaped? <==> s[i] == '\"' || s[i] == '\\')
    {
      assert LegalChar(s[i]);
    }
  }
}
