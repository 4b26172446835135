/** Number text, as the Go standard library's strconv prints and parses it.
    A string stands for a Go byte string: each char is one byte. */
module Strconv {
  datatype Option<+T> = None | Some(value: T)

  /** The two ways ParseUint fails. */
  datatype NumError = ErrSyntax | ErrRange

  const MAX_INT31: nat := 0x7FFF_FFFF
  const MAX_INT64: nat := 0x7FFF_FFFF_FFFF_FFFF
  const MIN_INT64: int := -0x8000_0000_0000_0000

  predicate IsInt64(x: int) {
    MIN_INT64 <= x <= MAX_INT64
  }

  /** Two's complement wrap-around of a 64-bit signed result. */
  function Wrap64(x: int): (r: int)
    ensures IsInt64(r)
    ensures IsInt64(x) ==> r == x
  {
    (x - MIN_INT64) % 0x1_0000_0000_0000_0000 + MIN_INT64
  }

  function Pow2(n: nat): (p: nat)
    ensures p > 0
  {
    if n == 0 then 1 else 2 * Pow2(n - 1)
  }

  /** The limits are those of 31 and 63 bits beside the sign. */
  lemma Widths()
    ensures MAX_INT31 == Pow2(31) - 1
    ensures MAX_INT64 == Pow2(63) - 1 && MIN_INT64 + Pow2(63) == 0
    ensures Pow2(1) == 2
  {
    PowSum(16, 15);
    PowSum(16, 16);
    PowSum(32, 31);
    PowSum(8, 8);
    PowSum(8, 7);
    assert Pow2(7) == 128;
  }

  lemma {:induction false} PowSum(a: nat, b: nat)
    ensures Pow2(a + b) == Pow2(a) * Pow2(b)
  {
    if a > 0 {
      PowSum(a - 1, b);
      assert Pow2(a) * Pow2(b) == 2 * Pow2(a - 1) * Pow2(b);
    }
  }

  /** Wrapping takes away a multiple of 2^64. */
  lemma WrapCongruent(x: int)
    ensures exists k: int :: Wrap64(x) == x + k * 0x1_0000_0000_0000_0000
    ensures Pow2(64) == 0x1_0000_0000_0000_0000
  {
    Widths();
    PowSum(63, 1);
    hide Pow2;
    var w := 0x1_0000_0000_0000_0000;
    assert Wrap64(x) == x + (-((x - MIN_INT64) / w)) * w;
  }

  /** The position of the first c in s, or -1: strings.IndexByte. */
  function IndexOf(s: string, c: char): (i: int)
    ensures -1 <= i < |s|
    ensures i >= 0 ==> s[i] == c && c !in s[..i]
    ensures i == -1 <==> c !in s
  {
    if s == [] then -1
    else if s[0] == c then 0
    else
      var i := IndexOf(s[1..], c);
      assert s == [s[0]] + s[1..];
      assert i >= 0 ==> s[..i + 1] == [s[0]] + s[1..][..i];
      if i < 0 then -1 else i + 1
  }

  /** A separator put behind text free of it is found exactly there. */
  lemma IndexOfSplit(a: string, c: char, b: string)
    requires c !in a
    ensures IndexOf(a + [c] + b, c) == |a|
    ensures (a + [c] + b)[..|a|] == a && (a + [c] + b)[|a| + 1..] == b
  {
    var s := a + [c] + b;
    assert s[|a|] == c;
  }

  function DigitValue(c: char, base: nat): Option<nat>
    requires 2 <= base <= 36
  {
    var d := if '0' <= c <= '9' then c as int - '0' as int
             else if 'a' <= c <= 'z' then c as int - 'a' as int + 10
             else if 'A' <= c <= 'Z' then c as int - 'A' as int + 10
             else 36;
    if d < base then Some(d) else None
  }

  function DigitChar(d: nat): char
    requires d < 16
  {
    if d < 10 then ('0' as int + d) as char else ('a' as int + d - 10) as char
  }

  const DIGITS: string := "0123456789abcdefghijklmnopqrstuvwxyz"
  const CAPITAL_DIGITS: string := "0123456789ABCDEFGHIJKLMNOPQRSTUVWXYZ"

  /** c is a digit for d, small or capital. */
  predicate IsDigitFor(c: char, d: nat) {
    d < 36 && (c == DIGITS[d] || c == CAPITAL_DIGITS[d])
  }

  lemma DigitAt(d: nat)
    requires d < 36
    ensures DIGITS[d] as int == if d < 10 then 48 + d else 87 + d
    ensures CAPITAL_DIGITS[d] as int == if d < 10 then 48 + d else 55 + d
  {
  }

  /** What each character counts as. */
  lemma DigitIff(c: char, base: nat, d: nat)
    requires 2 <= base <= 36
    ensures DigitValue(c, base) == Some(d) <==> d < base && IsDigitFor(c, d)
    ensures DigitValue(c, base).Some? ==> DigitValue(c, base).value < base
    ensures d < 16 ==> DigitChar(d) == DIGITS[d]
  {
    if d < 36 {
      DigitAt(d);
    }
    var v := DigitValue(c, base);
    if v != None {
      DigitAt(v.value);
    }
  }

  /** strconv.ParseUint(s, base, bits) with 2^bits - 1 == max: the value with no error, 0 with a
      syntax error, or max with a range error. */
  function ParseUint(s: string, base: nat, max: nat): (nat, Option<NumError>)
    requires 2 <= base <= 36
  {
    if s == [] then (0, Some(ErrSyntax)) else ParseFrom(s, 0, base, max)
  }

  function ParseFrom(s: string, acc: nat, base: nat, max: nat): (nat, Option<NumError>)
    requires 2 <= base <= 36
  {
    if s == [] then (acc, None)
    else
      match DigitValue(s[0], base)
      case None => (0, Some(ErrSyntax))
      case Some(d) =>
        if acc * base + d > max then (max, Some(ErrRange)) else ParseFrom(s[1..], acc * base + d, base, max)
  }

  /** strconv.FormatUint(n, base), lower case, for the two bases used. */
  function FormatUint(n: nat, base: nat): (s: string)
    requires base == 10 || base == 16
    ensures |s| > 0
    ensures forall i | 0 <= i < |s| :: DigitValue(s[i], base) != None
  {
    if n < base then [DigitChar(n)] else FormatUint(n / base, base) + [DigitChar(n % base)]
  }

  function FormatInt(n: int): (s: string)
    ensures |s| > 0
  {
    if n < 0 then "-" + FormatUint(-n, 10) else FormatUint(n, 10)
  }

  /** Parsing reads its digits left to right: the last digit is added to what the others gave. */
  lemma {:induction false} ParseFromAppend(s: string, c: char, acc: nat, base: nat, max: nat)
    requires 2 <= base <= 36
    requires ParseFrom(s, acc, base, max).1 == None
    ensures var v := ParseFrom(s, acc, base, max).0;
            ParseFrom(s + [c], acc, base, max) == ParseFrom([c], v, base, max)
  {
    if s == [] {
      assert s + [c] == [c];
    } else {
      assert (s + [c])[0] == s[0] && (s + [c])[1..] == s[1..] + [c];
      ParseFromAppend(s[1..], c, acc * base + DigitValue(s[0], base).value, base, max);
    }
  }

  /** What FormatUint prints, ParseUint reads back. */
  lemma {:induction false} ParseFormat(n: nat, base: nat, max: nat)
    requires base == 10 || base == 16
    requires n <= max
    ensures ParseUint(FormatUint(n, base), base, max) == (n, None)
  {
    if n < base {
      assert ParseFrom([DigitChar(n)], 0, base, max) == ParseFrom([], n, base, max);
    } else {
      ParseFormat(n / base, base, max);
      var c := DigitChar(n % base);
      ParseFromAppend(FormatUint(n / base, base), c, 0, base, max);
      assert n / base * base + n % base == n;
      assert ParseFrom([c], n / base, base, max) == ParseFrom([], n, base, max);
    }
  }

  /** No decimal text holds a char that is not a digit. */
  lemma DecimalFree(n: nat, c: char)
    requires DigitValue(c, 10) == None
    ensures c !in FormatUint(n, 10)
  {
  }

  // ---------------------------------------------------------------- what number text means

  predicate AllDigits(s: string, base: nat)
    requires 2 <= base <= 36
  {
    forall i | 0 <= i < |s| :: DigitValue(s[i], base) != None
  }

  /** The number a run of digits denotes, the last digit counting ones. */
  function Numeral(s: string, base: nat): nat
    requires 2 <= base <= 36 && AllDigits(s, base)
  {
    if s == [] then 0
    else Numeral(s[..|s| - 1], base) * base + DigitValue(s[|s| - 1], base).value
  }

  /** Once parsing has failed, more text does not mend it. */
  lemma {:induction false} ParseFromFails(s: string, c: char, acc: nat, base: nat, max: nat)
    requires 2 <= base <= 36
    requires ParseFrom(s, acc, base, max).1 != None
    ensures ParseFrom(s + [c], acc, base, max) == ParseFrom(s, acc, base, max)
  {
    hide DigitValue, ParseFrom;
    var more := s + [c];
    ParseFromStep(s, acc, base, max);
    ParseFromStep(more, acc, base, max);
    if s != [] {
      assert more[0] == s[0] && more[1..] == s[1..] + [c];
      var v := DigitValue(s[0], base);
      if v.Some? && acc * base + v.value <= max {
        ParseFromFails(s[1..], c, acc * base + v.value, base, max);
      }
    }
  }

  lemma ParseFromStep(s: string, acc: nat, base: nat, max: nat)
    requires 2 <= base <= 36
    ensures ParseFrom(s, acc, base, max) ==
            if s == [] then (acc, None)
            else match DigitValue(s[0], base) {
              case None => (0, Some(ErrSyntax))
              case Some(d) =>
                if acc * base + d > max then (max, Some(ErrRange)) else ParseFrom(s[1..], acc * base + d, base, max)
            }
  {
    hide DigitValue;
  }

  /** Some leading digits of s denote a number over the limit. */
  predicate Overflows(s: string, base: nat, max: nat)
    requires 2 <= base <= 36
  {
    s != [] && (Overflows(s[..|s| - 1], base, max) || (AllDigits(s, base) && Numeral(s, base) > max))
  }

  /** ParseUint accepts exactly the non-empty digit strings whose number fits, and returns that number; the
      error tells whether leading digits overflow. */
  lemma {:induction false} ParseUintIff(s: string, base: nat, max: nat)
    requires 2 <= base <= 36
    ensures ParseUint(s, base, max).1 == None <==> s != [] && AllDigits(s, base) && Numeral(s, base) <= max
    ensures ParseUint(s, base, max).1 == None ==> ParseUint(s, base, max).0 == Numeral(s, base)
    ensures ParseUint(s, base, max).1 == Some(ErrRange) <==> Overflows(s, base, max)
    ensures ParseUint(s, base, max).1 == Some(ErrRange) ==> ParseUint(s, base, max).0 == max
    ensures ParseUint(s, base, max).1 == Some(ErrSyntax) ==> ParseUint(s, base, max).0 == 0
  {
    if s != [] {
      ParseFromIff(s, base, max);
      ParseFromValue(s, 0, base, max);
    }
  }

  /** Beside an error the value is the limit, or 0 for a syntax error. */
  lemma {:induction false} ParseFromValue(s: string, acc: nat, base: nat, max: nat)
    requires 2 <= base <= 36
    ensures ParseFrom(s, acc, base, max).1 == Some(ErrRange) ==> ParseFrom(s, acc, base, max).0 == max
    ensures ParseFrom(s, acc, base, max).1 == Some(ErrSyntax) ==> ParseFrom(s, acc, base, max).0 == 0
  {
    if s != [] && DigitValue(s[0], base) != None {
      var next := acc * base + DigitValue(s[0], base).value;
      if next <= max {
        ParseFromValue(s[1..], next, base, max);
      }
    }
  }

  lemma {:induction false} ParseFromIff(s: string, base: nat, max: nat)
    requires 2 <= base <= 36
    ensures ParseFrom(s, 0, base, max).1 == None <==> AllDigits(s, base) && Numeral(s, base) <= max
    ensures ParseFrom(s, 0, base, max).1 == None ==> ParseFrom(s, 0, base, max).0 == Numeral(s, base)
    ensures ParseFrom(s, 0, base, max).1 == Some(ErrRange) <==> Overflows(s, base, max)
  {
    if s != [] {
      var t, c := s[..|s| - 1], s[|s| - 1];
      assert s == t + [c];
      ParseFromIff(t, base, max);
      assert AllDigits(s, base) <==> AllDigits(t, base) && DigitValue(c, base) != None;
      if ParseFrom(t, 0, base, max).1 == None {
        ParseFromAppend(t, c, 0, base, max);
        LastDigit(c, Numeral(t, base), base, max);
      } else {
        ParseFromFails(t, c, 0, base, max);
        if AllDigits(s, base) {
          Grows(Numeral(t, base), base);
        }
      }
    }
  }

  /** s writes n: digits of either case, the last counting ones, with any leading zeros. */
  predicate Denotes(s: string, n: nat, base: nat)
    requires 2 <= base <= 36
  {
    s != [] && IsDigitFor(s[|s| - 1], n % base) &&
    if |s| == 1 then n < base else Denotes(s[..|s| - 1], n / base, base)
  }

  lemma DenotesStep(t: string, c: char, n: nat, base: nat)
    requires 2 <= base <= 36
    ensures Denotes(t + [c], n, base) <==>
            IsDigitFor(c, n % base) && if t == [] then n < base else Denotes(t, n / base, base)
    ensures !Denotes([], n, base)
  {
    var s := t + [c];
    assert s[..|s| - 1] == t && s[|s| - 1] == c;
  }

  lemma NumeralStep(t: string, c: char, base: nat)
    requires 2 <= base <= 36
    ensures AllDigits([], base) && Numeral([], base) == 0
    ensures AllDigits(t + [c], base) <==> AllDigits(t, base) && DigitValue(c, base) != None
    ensures AllDigits(t + [c], base) ==>
              Numeral(t + [c], base) == Numeral(t, base) * base + DigitValue(c, base).value
  {
    hide DigitValue;
    var s := t + [c];
    assert s[..|t|] == t && s[|t|] == c;
    assert AllDigits(s, base) ==> AllDigits(t, base) && DigitValue(s[|t|], base) != None by {
      assert forall i | 0 <= i < |t| :: s[i] == t[i];
    }
  }

  lemma {:induction false} DenotesNumeral(s: string, n: nat, base: nat)
    requires 2 <= base <= 36
    ensures Denotes(s, n, base) <==> s != [] && AllDigits(s, base) && Numeral(s, base) == n
  {
    hide DigitValue, IsDigitFor, AllDigits, Numeral, Denotes;
    if s == [] {
      DenotesStep([], '0', n, base);
    } else {
      var t, c := s[..|s| - 1], s[|s| - 1];
      assert s == t + [c];
      DenotesStep(t, c, n, base);
      NumeralStep(t, c, base);
      DigitIff(c, base, n % base);
      DenotesNumeral(t, n / base, base);
      DigitsMatch(t, n, DigitValue(c, base), base);
    }
  }

  lemma DigitsMatch(t: string, n: nat, v: Option<nat>, base: nat)
    requires 2 <= base <= 36 && (v.Some? ==> v.value < base)
    requires AllDigits([], base) && Numeral([], base) == 0
    ensures v == Some(n % base) && (if t == [] then n < base else AllDigits(t, base) && Numeral(t, base) == n / base)
            <==> AllDigits(t, base) && v.Some? && Numeral(t, base) * base + v.value == n
  {
    hide AllDigits, Numeral;
    if AllDigits(t, base) && v.Some? {
      DivMod(n, Numeral(t, base), v.value, base);
      DivMod(n, 0, n % base, base);
    }
  }

  lemma DivMod(n: nat, q: nat, d: nat, base: nat)
    requires d < base
    ensures n / base == q && n % base == d <==> n == q * base + d
  {
    assert n == n / base * base + n % base;
    if n == q * base + d {
      if n / base > q {
        NextMultiple(q, n / base, base);
      } else if n / base < q {
        NextMultiple(n / base, q, base);
      }
    }
  }

  lemma NextMultiple(a: nat, b: nat, base: nat)
    requires a < b
    ensures a * base + base <= b * base
  {
    assert b * base == a * base + (b - a) * base;
    AtLeast(b - a, base);
  }

  lemma {:induction false} AtLeast(k: nat, base: nat)
    requires k >= 1
    ensures k * base >= base
  {
    if k > 1 {
      AtLeast(k - 1, base);
      assert k * base == (k - 1) * base + base;
    }
  }

  /** ParseUint gives a number exactly for the texts that write it, if it is within the limit. */
  lemma ParseDenotesIff(s: string, n: nat, base: nat, max: nat)
    requires 2 <= base <= 36
    ensures ParseUint(s, base, max) == (n, None) <==> n <= max && Denotes(s, n, base)
  {
    hide ParseUint, Numeral, Denotes;
    ParseUintIff(s, base, max);
    DenotesNumeral(s, n, base);
  }

  /** s writes n in small digits, without a leading zero. */
  predicate Shortest(s: string, n: nat, base: nat)
    requires 2 <= base <= 36
  {
    Denotes(s, n, base) && (|s| > 1 ==> s[0] != '0') && forall i | 0 <= i < |s| :: s[i] in DIGITS
  }

  /** FormatUint writes exactly that text. */
  lemma {:induction false} FormatUintIff(n: nat, s: string, base: nat)
    requires base == 10 || base == 16
    ensures s == FormatUint(n, base) <==> Shortest(s, n, base)
  {
    hide *;
    FormatStep(n, base);
    if s == [] {
      NoText(n, base);
    } else {
      var t, c := s[..|s| - 1], s[|s| - 1];
      assert s == t + [c];
      DigitIff(c, base, n % base);
      if n < base {
        ShortestDigit(t, c, n, base);
        SameEnds(t, [], c, DigitChar(n));
        assert [] + [DigitChar(n)] == [DigitChar(n)];
      } else {
        ShortestStep(t, c, n, base);
        FormatUintIff(n / base, t, base);
        SameEnds(t, FormatUint(n / base, base), c, DigitChar(n % base));
      }
    }
  }

  lemma FormatStep(n: nat, base: nat)
    requires base == 10 || base == 16
    ensures FormatUint(n, base) ==
            if n < base then [DigitChar(n)] else FormatUint(n / base, base) + [DigitChar(n % base)]
  {
  }

  lemma NoText(n: nat, base: nat)
    requires base == 10 || base == 16
    ensures !Shortest([], n, base)
  {
  }

  lemma SameEnds(s: string, t: string, c: char, d: char)
    ensures s + [c] == t + [d] <==> s == t && c == d
  {
    if s + [c] == t + [d] {
      assert (s + [c])[..|s|] == s && (t + [d])[..|t|] == t;
      assert (s + [c])[|s|] == c && (t + [d])[|t|] == d;
    }
  }

  lemma ShortestDigit(t: string, c: char, n: nat, base: nat)
    requires n < base && (base == 10 || base == 16)
    ensures Shortest(t + [c], n, base) <==> t == [] && c == DIGITS[n]
  {
    hide IsDigitFor, Denotes;
    assert n / base == 0 && n % base == n;
    SmallDigit(c, n);
    DenotesStep(t, c, n, base);
    AllSmall(t, c);
    if t != [] && Denotes(t, 0, base) {
      ZeroDenotes(t, base);
      assert (t + [c])[0] == t[0];
    }
  }

  lemma ShortestStep(t: string, c: char, n: nat, base: nat)
    requires n >= base && (base == 10 || base == 16)
    ensures Shortest(t + [c], n, base) <==> Shortest(t, n / base, base) && c == DIGITS[n % base]
  {
    hide IsDigitFor, Denotes;
    assert n / base > 0;
    NoText(n / base, base);
    SmallDigit(c, n % base);
    DenotesStep(t, c, n, base);
    AllSmall(t, c);
    ZeroTail(t, n / base, base);
    assert t != [] ==> (t + [c])[0] == t[0];
  }

  lemma AllSmall(t: string, c: char)
    ensures (forall i | 0 <= i < |t + [c]| :: (t + [c])[i] in DIGITS) <==>
            c in DIGITS && forall i | 0 <= i < |t| :: t[i] in DIGITS
  {
    hide DIGITS;
    var s := t + [c];
    assert s[|t|] == c && forall i | 0 <= i < |t| :: s[i] == t[i];
  }

  /** A single zero denotes 0 only. */
  lemma ZeroTail(t: string, n: nat, base: nat)
    requires base == 10 || base == 16
    ensures n > 0 && |t| == 1 && Denotes(t, n, base) ==> t[0] != '0'
  {
    hide Denotes;
    if |t| == 1 {
      assert t == [] + [t[0]];
      DenotesStep([], t[0], n, base);
      if 0 < n < base {
        DigitAt(n);
      }
    }
  }

  lemma SmallDigit(c: char, d: nat)
    requires d < 16
    ensures IsDigitFor(c, d) && c in DIGITS <==> c == DIGITS[d]
  {
    DigitAt(d);
    if c == CAPITAL_DIGITS[d] && c in DIGITS {
      var k :| 0 <= k < 36 && DIGITS[k] == c;
      DigitAt(k);
    }
  }

  lemma {:induction false} ZeroDenotes(s: string, base: nat)
    requires 2 <= base <= 36 && Denotes(s, 0, base)
    ensures s[0] == '0'
  {
    if |s| > 1 {
      ZeroDenotes(s[..|s| - 1], base);
    }
  }

  /** Negative numbers have a minus sign before the text of what they count down from zero. */
  lemma FormatIntDenotes(n: int)
    ensures n >= 0 ==> Denotes(FormatInt(n), n, 10)
    ensures n < 0 ==> FormatInt(n)[0] == '-' && Denotes(FormatInt(n)[1..], -n, 10)
  {
    FormatUintIff(if n < 0 then -n else n, FormatUint(if n < 0 then -n else n, 10), 10);
  }

  lemma LastDigit(c: char, acc: nat, base: nat, max: nat)
    requires 2 <= base <= 36
    ensures ParseFrom([c], acc, base, max) ==
            match DigitValue(c, base) {
              case None => (0, Some(ErrSyntax))
              case Some(d) => if acc * base + d > max then (max, Some(ErrRange)) else (acc * base + d, None)
            }
  {
    assert [c][1..] == [];
  }

  lemma Grows(n: nat, base: nat)
    requires base >= 2
    ensures n * base >= n
  {
    assert n * base == n + n * (base - 1);
  }
}
