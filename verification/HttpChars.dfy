/** Character classes of HTTP and the trimming of optional whitespace. A char stands for one byte. */
module HttpChars {
  predicate IsWhitespace(b: char) {
    b == ' ' || b == '\t'
  }

  predicate IsDigit(b: char) {
    '0' <= b <= '9'
  }

  predicate IsAlpha(b: char) {
    'a' <= b <= 'z' || 'A' <= b <= 'Z'
  }

  predicate IsVChar(b: char) {
    0x21 as char <= b <= 0x7E as char
  }

  predicate IsOBSText(b: char) {
    0x80 as char <= b
  }

  predicate IsQuotedPairChar(b: char) {
    IsVChar(b) || b == '\"' || b == '\\' || b == ' ' || b == '\t' || IsOBSText(b)
  }

  predicate IsQDText(b: char) {
    || 0x5D as char <= b <= 0x7E as char
    || 0x23 as char <= b <= 0x5B as char
    || b == ' ' || b == '!' || b == '\t'
    || IsOBSText(b)
  }

  predicate IsTokenChar(b: char) {
    || IsAlpha(b) || IsDigit(b) || b == '-' || b == '*' || 35 as char <= b <= '\''
    || b == '!' || b == '+' || b == '.' || b == '^' || b == '_' || b == '`' || b == '|' || b == '~'
  }

  predicate IsToken(s: string) {
    forall i | 0 <= i < |s| :: IsTokenChar(s[i])
  }

  predicate Blank(s: string) {
    forall i | 0 <= i < |s| :: IsWhitespace(s[i])
  }

  /** Lower case, for ASCII letters. */
  function LowerChar(c: char): char {
    if 'A' <= c <= 'Z' then (c as int + 32) as char else c
  }

  function ToLower(s: string): (t: string)
    ensures |t| == |s|
  {
    seq(|s|, i requires 0 <= i < |s| => LowerChar(s[i]))
  }

  const CAPITALS: string := "ABCDEFGHIJKLMNOPQRSTUVWXYZ"
  const SMALL_LETTERS: string := "abcdefghijklmnopqrstuvwxyz"

  lemma LetterAt(k: nat)
    requires k < 26
    ensures CAPITALS[k] as int == 65 + k && SMALL_LETTERS[k] as int == 97 + k
  {
  }

  /** Each capital becomes its small letter, everything else stays. */
  lemma LowerCharIff(c: char, d: char)
    ensures LowerChar(c) == d <==>
            (c !in CAPITALS && d == c) || exists k | 0 <= k < 26 :: c == CAPITALS[k] && d == SMALL_LETTERS[k]
  {
    if 'A' <= c <= 'Z' {
      LetterAt(c as int - 65);
    }
    forall k | 0 <= k < 26
      ensures CAPITALS[k] as int == 65 + k && SMALL_LETTERS[k] as int == 97 + k
    {
      LetterAt(k);
    }
  }

  /** s is t with some of its letters in capitals. */
  predicate Recased(s: string, t: string) {
    |s| == |t| && forall i | 0 <= i < |s| ::
      s[i] == t[i] || exists k | 0 <= k < 26 :: s[i] == CAPITALS[k] && t[i] == SMALL_LETTERS[k]
  }

  /** Lower-casing does not see that. */
  lemma RecasedLower(s: string, t: string)
    requires Recased(s, t)
    ensures ToLower(s) == ToLower(t)
    ensures IsLower(t) ==> ToLower(s) == t
  {
    LowerIff(t);
    forall i | 0 <= i < |s|
      ensures LowerChar(s[i]) == LowerChar(t[i])
    {
      if s[i] != t[i] {
        var k :| 0 <= k < 26 && s[i] == CAPITALS[k] && t[i] == SMALL_LETTERS[k];
        LetterAt(k);
      }
    }
  }

  predicate IsLower(s: string) {
    forall i | 0 <= i < |s| :: !('A' <= s[i] <= 'Z')
  }

  /** Lower-casing leaves exactly the strings without capitals alone. */
  lemma LowerIff(s: string)
    ensures ToLower(s) == s <==> IsLower(s)
  {
    if !IsLower(s) {
      var i :| 0 <= i < |s| && 'A' <= s[i] <= 'Z';
      assert ToLower(s)[i] != s[i];
    }
  }

  /** What is left of v behind its leading blanks. */
  function TrimLeft(v: string): (r: string)
    ensures |r| <= |v| && r == v[|v| - |r|..] && Blank(v[..|v| - |r|])
    ensures r == "" || !IsWhitespace(r[0])
  {
    if v == "" || !IsWhitespace(v[0]) then v else TrimLeft(v[1..])
  }

  function TrimRight(v: string): (r: string)
    ensures r <= v && Blank(v[|r|..])
    ensures r == "" || !IsWhitespace(r[|r| - 1])
  {
    if v == "" || !IsWhitespace(v[|v| - 1]) then v else TrimRight(v[..|v| - 1])
  }

  method RemoveWhitespacePrefix(v: string) returns (r: string)
    ensures r == TrimLeft(v)
  {
    var i := 0;
    assert v[0..] == v;
    while i < |v| && IsWhitespace(v[i])
      invariant 0 <= i <= |v|
      invariant TrimLeft(v) == TrimLeft(v[i..])
    {
      assert v[i..][1..] == v[i + 1..];
      i := i + 1;
    }
    return v[i..];
  }

  method RemoveWhitespacePostfix(v: string) returns (r: string)
    ensures r == TrimRight(v)
  {
    var i := |v| - 1;
    assert v[..i + 1] == v;
    while i >= 0 && IsWhitespace(v[i])
      invariant -1 <= i < |v|
      invariant TrimRight(v) == TrimRight(v[..i + 1])
    {
      assert v[..i + 1][..i] == v[..i];
      i := i - 1;
    }
    return v[..i + 1];
  }

  lemma AlphaIff(c: char)
    ensures IsAlpha(c) <==> c in CAPITALS || c in SMALL_LETTERS
  {
    if 'A' <= c <= 'Z' {
      LetterAt(c as int - 65);
    }
    if 'a' <= c <= 'z' {
      LetterAt(c as int - 97);
    }
    forall k | 0 <= k < 26
      ensures IsAlpha(CAPITALS[k]) && IsAlpha(SMALL_LETTERS[k])
    {
      LetterAt(k);
    }
  }

  const DECIMALS: string := "0123456789"

  lemma DigitCharIff(c: char)
    ensures IsDigit(c) <==> c in DECIMALS
  {
    if IsDigit(c) {
      assert DECIMALS[c as int - 48] == c;
    }
  }

  const TOKEN_MARKS: string := "!#$%&'*+-.^_`|~"

  /** The characters of a token are those of section 3.2.6 of RFC 7230. */
  lemma TokenCharIff(c: char)
    ensures IsTokenChar(c) <==> c in TOKEN_MARKS || c in DECIMALS || c in CAPITALS || c in SMALL_LETTERS
  {
    AlphaIff(c);
    DigitCharIff(c);
    if !IsAlpha(c) && !IsDigit(c) {
      MarkIff(c);
    }
  }

  lemma MarkIff(c: char)
    requires !IsAlpha(c) && !IsDigit(c)
    ensures IsTokenChar(c) <==> c in TOKEN_MARKS
  {
    if IsTokenChar(c) {
      var b := c as int;
      var k := if b == 33 then 0 else if b <= 39 then b - 34 else if b <= 43 then b - 36 else if b <= 46 then b - 37
               else if b <= 96 then b - 84 else if b == 124 then 13 else 14;
      assert TOKEN_MARKS[k] == c;
    }
  }

  /** Bare in quoted text goes everything but controls, DEL, the quote and the backslash; behind a backslash
      those two as well. A visible character is one of ASCII other than controls, DEL and space. */
  lemma TextCharsIff(c: char)
    ensures IsQDText(c) <==> c == '\t' || (c >= ' ' && c != 0x7F as char && c != '\"' && c != '\\')
    ensures IsQuotedPairChar(c) <==> c == '\t' || (c >= ' ' && c != 0x7F as char)
    ensures IsVChar(c) <==> ' ' < c < 0x7F as char
    ensures IsWhitespace(c) <==> c in " \t"
  {
  }

  /** Token characters are visible and need no quotes; no blank, separator or quote is one. */
  lemma TokenIsPlain(c: char)
    requires IsTokenChar(c)
    ensures IsVChar(c) && IsQDText(c) && !IsWhitespace(c)
    ensures c !in ['\"', '\\', ';', '=', '/', ',']
  {
  }
}
