/** The digits of an etag: a 64-bit number in base 88. */
module Etags {
  import opened Strconv

  /** etagBaseAlphabet, in three pieces; the digit 6 ends the first and begins the second. */
  const LOW := "!%&()*,./0123456"
  const MIDDLE := "6789:;<=>?@ABCDEFGHIJKLMNOPQRSTUVWXYZ["
  const HIGH := "]^_`abcdefghijklmnopqrstuvwxyz{|}~"

  function Alphabet(): (s: string)
    ensures |s| == 88
  {
    LOW + MIDDLE + HIGH
  }

  const WORD: nat := 0x1_0000_0000_0000_0000

  /** Unsigned 64-bit multiplication. */
  function Mul64(a: nat, b: nat): nat {
    a * b % WORD
  }

  function Pow88(k: nat): (p: nat)
    ensures p > 0
  {
    if k == 0 then 1 else 88 * Pow88(k - 1)
  }

  /** 88 to the tenth wrapped to 64 bits: the first scale that is not a power of 88. */
  const WRAPPED_SCALE: nat := 9403353527230660608

  lemma Scales()
    ensures Pow88(9) == 316478381828866048 && Pow88(10) == 27850097600940212224
    ensures Mul64(Pow88(9), 88) == WRAPPED_SCALE
    ensures 0x8000_0000_0000_0000 < WRAPPED_SCALE
  {
    assert Pow88(3) == 681472;
    assert Pow88(6) == 464404086784;
    assert Pow88(9) == 316478381828866048;
  }

  /** The number as digit values, the first not 0 unless it is the only one. */
  function Digits(v: nat): (d: seq<nat>)
    ensures d != [] && forall i | 0 <= i < |d| :: d[i] < 88
  {
    if v < 88 then [v] else Digits(v / 88) + [v % 88]
  }

  function Value(d: seq<nat>): nat {
    if d == [] then 0 else Value(d[..|d| - 1]) * 88 + d[|d| - 1]
  }

  ghost predicate Canonical(d: seq<nat>) {
    d != [] && (forall i | 0 <= i < |d| :: d[i] < 88) && (d[0] == 0 ==> |d| == 1)
  }

  /** Digits are canonical and evaluate back. */
  lemma {:induction false} DigitsValue(v: nat)
    ensures Canonical(Digits(v)) && Value(Digits(v)) == v
    ensures v > 0 ==> Digits(v)[0] > 0
  {
    if v >= 88 {
      DigitsValue(v / 88);
      var d := Digits(v);
      assert d[..|d| - 1] == Digits(v / 88);
    } else {
      assert Digits(v)[..0] == [];
    }
  }

  /** There is no other canonical way to write a number. */
  lemma {:induction false} DigitsUnique(d: seq<nat>)
    requires Canonical(d)
    ensures Digits(Value(d)) == d
    ensures d[0] > 0 ==> Value(d) > 0
  {
    var front, last := d[..|d| - 1], d[|d| - 1];
    if |d| > 1 {
      DigitsUnique(front);
      assert Value(d) / 88 == Value(front) && Value(d) % 88 == last;
      assert d == front + [last];
    } else {
      assert Value(front) == 0;
    }
  }

  lemma {:induction false} DigitsLength(v: nat, n: nat)
    requires v < Pow88(n) && n > 0
    ensures |Digits(v)| <= n
  {
    if v >= 88 {
      DigitsLength(v / 88, n - 1);
    }
  }

  function Text(d: seq<nat>): string
    requires forall i | 0 <= i < |d| :: d[i] < 88
  {
    seq(|d|, i requires 0 <= i < |d| => Alphabet()[d[i]])
  }

  lemma PowStep(l: nat)
    requires 1 <= l <= 9
    ensures Mul64(Pow88(l - 1), 88) == Pow88(l) <= Pow88(9)
  {
    Scales();
    PowGrows(l, 9);
    assert Pow88(l) < WORD;
  }

  lemma {:induction false} PowGrows(a: nat, b: nat)
    requires a <= b
    ensures Pow88(a) <= Pow88(b)
    decreases b - a
  {
    if a < b {
      PowGrows(a + 1, b);
    }
  }

  /** The scale after k turns of the first loop. */
  function Scale(k: nat): nat {
    if k == 0 then 1 else Mul64(Scale(k - 1), 88)
  }

  /** The first loop stops after k turns. */
  predicate StopsAfter(v: nat, k: nat) {
    v < Scale(k + 1) && forall j | 1 <= j <= k :: v >= Scale(j)
  }

  lemma {:induction false} ScaleIsPower(k: nat)
    requires k <= 9
    ensures Scale(k) == Pow88(k)
  {
    if k > 0 {
      ScaleIsPower(k - 1);
      PowStep(k);
    }
  }

  lemma TenthScale()
    ensures Scale(10) == WRAPPED_SCALE
  {
    Scales();
    ScaleIsPower(9);
  }

  lemma ScaleStep(k: nat)
    ensures Scale(0) == 1 && Scale(k + 1) == Mul64(Scale(k), 88) < WORD
  {
  }

  /** 88 to the 13th wrapped to 64 bits: above every later scale. */
  const LAST_SCALE: nat := 18391607413867282432

  lemma ScaleValues()
    ensures Scale(10) == WRAPPED_SCALE && Scale(13) == LAST_SCALE
    ensures Scale(0) == 1
  {
    hide Scale;
    TenthScale();
    ScaleStep(10);
    ScaleStep(11);
    ScaleStep(12);
    assert Scale(11) == 15838371153077862400;
    assert Scale(12) == 10270855942635520000;
  }

  /** Where the first loop stops tells whether the scale is a power. */
  lemma ExactScale(n: nat, l: nat)
    requires 1 <= l <= 13 && n < Scale(l) && forall j | 1 <= j < l :: n >= Scale(j)
    ensures n < WRAPPED_SCALE ==> l <= 10 && ExactFor(n, Scale(l - 1), l)
    ensures n >= WRAPPED_SCALE ==> l > 10 && Scale(l - 1) < WORD
  {
    hide Scale, Pow88;
    TenthScale();
    Scales();
    if l <= 9 {
      ScaleIsPower(l);
      ScaleIsPower(l - 1);
      PowGrows(l, 9);
    } else if l == 10 {
      ScaleIsPower(9);
    } else {
      ScaleStep(l - 2);
    }
  }

  /** etagFormatUint64; None is a panic. It takes the numbers its first loop ends on (LoopEndsIff). */
  method FormatUint64(n: nat) returns (text: Option<string>)
    requires n < LAST_SCALE
    ensures n < WRAPPED_SCALE ==> text == Some(Text(Digits(n)))
    ensures n >= WRAPPED_SCALE ==> text == None
  {
    hide Alphabet, Pow88, Mul64, Digits, Scale;
    ScaleValues();
    var b := |Alphabet()|;
    var c, l := 1, 1;
    while n >= Mul64(c, b)
      invariant 1 <= l <= 13 && c == Scale(l - 1) && forall j | 1 <= j < l :: n >= Scale(j)
      decreases 13 - l
    {
      ScaleStep(l - 1);
      c := Mul64(c, b);
      l := l + 1;
    }
    ScaleStep(l - 1);
    ExactScale(n, l);
    text := WriteDigits(n, c, l);
  }

  /** The second loop of etagFormatUint64. A scale that is no power of 88 has shrunk to nothing before the
      last digit. */
  method WriteDigits(n: nat, scale: nat, l: nat) returns (text: Option<string>)
    requires l > 0 && (ExactFor(n, scale, l) || (l > 10 && scale < WORD))
    ensures ExactFor(n, scale, l) && l <= 10 ==> text == Some(Text(Digits(n)))
    ensures l > 10 && scale < WORD ==> text == None
  {
    hide Alphabet, Digits, Pow88, Value, ExactSoFar, ShrunkSoFar, ExactFor;
    ghost var exact := !(l > 10 && scale < WORD);
    var b := |Alphabet()|;
    var v: nat, c: nat := n, scale;
    var out := new char[l];
    ghost var digits: seq<nat> := [];
    Begin(n, scale, l);
    for i := 0 to l
      invariant |digits| == i && forall k | 0 <= k < i :: digits[k] < b && out[k] == Alphabet()[digits[k]]
      invariant exact ==> ExactSoFar(n, l, digits, v, c)
      invariant !exact ==> ShrunkSoFar(scale, i, c)
    {
      if exact {
        ExactStep(n, l, digits, v, c);
      } else {
        ShrunkStep(scale, i, c);
      }
      if c == 0 {
        return None;
      }
      var m := v / c;
      if m >= b {
        return None;
      }
      out[i] := Alphabet()[m];
      digits := digits + [m];
      v := v % c;
      c := c / b;
    }
    if exact {
      Finished(n, l, digits, v, c, out[..]);
    } else {
      ShrunkEnds(scale, l, c);
    }
    return Some(out[..]);
  }

  /** The digits written and what is left make up the number; the scale fits the next digit. */
  ghost predicate ExactSoFar(n: nat, l: nat, digits: seq<nat>, v: nat, c: nat) {
    var i := |digits|;
    && i <= l && l > 0
    && n == Value(digits) * Pow88(l - i) + v && v < Pow88(l - i)
    && (i < l ==> c == Pow88(l - 1 - i))
    && (i == 0 && l > 1 ==> v >= c)
    && (i > 0 && l > 1 ==> digits[0] > 0)
  }

  ghost predicate ShrunkSoFar(scale: nat, i: nat, c: nat) {
    scale < WORD && i <= 10 && c * Pow88(i) <= scale
  }

  lemma Begin(n: nat, scale: nat, l: nat)
    ensures ExactFor(n, scale, l) ==> ExactSoFar(n, l, [], n, scale)
    ensures scale < WORD ==> ShrunkSoFar(scale, 0, scale)
  {
    PowZero();
    if l > 0 {
      NoDigits(Pow88(l));
    }
  }

  lemma ExactStep(n: nat, l: nat, digits: seq<nat>, v: nat, c: nat)
    requires ExactSoFar(n, l, digits, v, c) && |digits| < l
    ensures c > 0 && 0 <= v / c < 88 && ExactSoFar(n, l, digits + [v / c], v % c, c / 88)
  {
    hide Value;
    PowDown(l - 1 - |digits|);
    Quotient(v, c);
    Horner(digits, v / c, v, c);
  }

  lemma ShrunkStep(scale: nat, i: nat, c: nat)
    requires ShrunkSoFar(scale, i, c)
    ensures c == 0 || ShrunkSoFar(scale, i + 1, c / 88)
  {
    hide Pow88;
    Shrinks(c, i, scale);
  }

  lemma ShrunkEnds(scale: nat, i: nat, c: nat)
    requires ShrunkSoFar(scale, i, c)
    ensures i <= 10
  {
  }

  predicate ExactFor(n: nat, scale: nat, l: nat) {
    l > 0 && scale == Pow88(l - 1) && n < Pow88(l) && (l > 1 ==> n >= scale)
  }

  lemma Shrinks(c: nat, i: nat, scale: nat)
    requires c * Pow88(i) <= scale < WORD && i <= 10
    ensures i == 10 ==> c == 0
    ensures c / 88 * Pow88(i + 1) <= scale
  {
    Scales();
    AtLeastOnce(c, Pow88(i));
    Multiply(c / 88 * 88, c, Pow88(i));
    assert c / 88 * Pow88(i + 1) == c / 88 * 88 * Pow88(i);
  }

  lemma AtLeastOnce(c: nat, p: nat)
    ensures c == 0 || c * p >= p
  {
    if c > 0 {
      Multiply(1, c, p);
    }
  }

  lemma Multiply(a: nat, b: nat, p: nat)
    requires a <= b
    ensures a * p <= b * p
  {
  }

  lemma Finished(n: nat, l: nat, digits: seq<nat>, v: nat, c: nat, text: string)
    requires ExactSoFar(n, l, digits, v, c) && |digits| == l
    requires |text| == l && forall k | 0 <= k < l :: digits[k] < 88 && text[k] == Alphabet()[digits[k]]
    ensures text == Text(Digits(n))
  {
    hide Alphabet, Digits, Value;
    PowZero();
    assert n == Value(digits) * Pow88(0) + v;
    DigitsUnique(digits);
  }

  lemma PowZero()
    ensures Pow88(0) == 1
  {
  }

  lemma PowDown(k: nat)
    ensures Pow88(k + 1) == 88 * Pow88(k)
    ensures k > 0 ==> Pow88(k) / 88 == Pow88(k - 1)
  {
  }

  lemma NoDigits(p: nat)
    ensures Value([]) * p == 0
  {
  }

  lemma Quotient(v: nat, c: nat)
    requires c > 0 && v < 88 * c
    ensures 0 <= v / c < 88 && v % c < c
    ensures v >= c ==> v / c > 0
  {
  }

  lemma Horner(digits: seq<nat>, m: nat, v: nat, c: nat)
    requires c > 0 && m == v / c
    ensures Value(digits) * (88 * c) + v == Value(digits + [m]) * c + v % c
  {
    assert (digits + [m])[..|digits|] == digits;
    var a := Value(digits);
    assert a * (88 * c) == a * 88 * c;
    assert (a * 88 + m) * c == a * 88 * c + m * c;
  }

  /** etagFormatInt64; the most negative number negates to itself, and is 2^63 unsigned. */
  method FormatInt64(v: int) returns (text: string)
    requires IsInt64(v)
    ensures text == if v < 0 then "-" + Text(Digits(-v)) else Text(Digits(v))
  {
    Scales();
    if v < 0 {
      var negated := Wrap64(-v);
      var digits := FormatUint64(if negated < 0 then negated + WORD else negated);
      return "-" + digits.value;
    }
    var digits := FormatUint64(v);
    return digits.value;
  }

  // ---------------------------------------------------------------- which numbers are written right

  /** The first loop stops on a power of 88 exactly for the numbers below the wrapped scale; for any other
      64-bit number it goes past 88 to the ninth. */
  lemma ExactIff(v: nat)
    requires v < WORD
    ensures v < WRAPPED_SCALE <==> exists k :: StopsAfter(v, k) && k <= 9
  {
    hide Scale, Pow88;
    TenthScale();
    Scales();
    if v < WRAPPED_SCALE {
      var k := FirstStop(v, 0, 9);
    }
    forall k: nat | StopsAfter(v, k) && k <= 9
      ensures v < WRAPPED_SCALE
    {
      if k < 9 {
        ScaleIsPower(k + 1);
        PowGrows(k + 1, 9);
      }
    }
  }

  lemma {:induction false} FirstStop(v: nat, from: nat, last: nat) returns (k: nat)
    requires v < Scale(last + 1) && from <= last && forall j | 1 <= j <= from :: v >= Scale(j)
    ensures StopsAfter(v, k) && k <= last
    decreases last - from
  {
    hide Scale;
    if v < Scale(from + 1) {
      k := from;
    } else {
      k := FirstStop(v, from + 1, last);
    }
  }

  lemma LaterScales()
    ensures forall k | 1 <= k <= 22 :: Scale(k) <= LAST_SCALE
    ensures Scale(22) == 0
  {
    hide Scale, Pow88;
    ScaleValues();
    Scales();
    forall k | 1 <= k <= 9
      ensures Scale(k) <= LAST_SCALE
    {
      ScaleIsPower(k);
      PowGrows(k, 9);
    }
    ScaleStep(10);
    ScaleStep(11);
    LastScales();
  }

  lemma LastScales()
    requires Scale(13) == LAST_SCALE
    ensures forall k | 14 <= k <= 22 :: Scale(k) <= LAST_SCALE
    ensures Scale(22) == 0
  {
    hide Scale, Mul64;
    Scales14To18();
    Scales19To22();
    forall k | 14 <= k <= 22
      ensures Scale(k) <= LAST_SCALE
    {
      assert k == 14 || k == 15 || k == 16 || k == 17 || k == 18 || k == 19 || k == 20 || k == 21 || k == 22;
    }
  }

  lemma Scales14To18()
    requires Scale(13) == LAST_SCALE
    ensures Scale(14) == 13594718007589863424 && Scale(15) == 15743563950496677888 && Scale(16) == 1927822115491282944
    ensures Scale(17) == 3627649499846934528 && Scale(18) == 5638506733467860992
  {
    hide Scale;
    ScaleStep(13);
    assert Scale(14) == 13594718007589863424;
    ScaleStep(14);
    assert Scale(15) == 15743563950496677888;
    ScaleStep(15);
    assert Scale(16) == 1927822115491282944;
    ScaleStep(16);
    assert Scale(17) == 3627649499846934528;
    ScaleStep(17);
  }

  lemma Scales19To22()
    requires Scale(18) == 5638506733467860992
    ensures Scale(19) == 16573246628723425280 && Scale(20) == 1152921504606846976
    ensures Scale(21) == 9223372036854775808 && Scale(22) == 0
  {
    hide Scale;
    ScaleStep(18);
    assert Scale(19) == 16573246628723425280;
    ScaleStep(19);
    assert Scale(20) == 1152921504606846976;
    ScaleStep(20);
    assert Scale(21) == 9223372036854775808;
    ScaleStep(21);
  }

  lemma {:induction false} ZeroScales(k: nat)
    requires k >= 22
    ensures Scale(k) == 0
  {
    if k == 22 {
      LaterScales();
    } else {
      ZeroScales(k - 1);
    }
  }

  /** The first loop ends exactly on the numbers below 88 to the 13th wrapped; on the others the scale comes
      down to 0 and stays there. */
  lemma LoopEndsIff(v: nat)
    requires v < WORD
    ensures v < LAST_SCALE <==> exists k :: StopsAfter(v, k)
  {
    hide Scale;
    LaterScales();
    ScaleValues();
    if v < LAST_SCALE {
      var k := FirstStop(v, 0, 12);
    }
    forall k: nat | StopsAfter(v, k)
      ensures v < LAST_SCALE
    {
      if k + 1 >= 22 {
        ZeroScales(k + 1);
      }
    }
  }

  /** No text has more than ten digits. */
  lemma TenDigits(v: nat)
    requires v < WRAPPED_SCALE
    ensures |Digits(v)| <= 10
  {
    Scales();
    DigitsLength(v, 10);
  }

  // ---------------------------------------------------------------- which numbers look alike

  const FIRST_SIX: nat := 15
  const SECOND_SIX: nat := 16

  /** The code of each character, run by run. */
  function CodeAt(i: nat): int {
    if i == 0 then 33 else if i <= 2 then 36 + i else if i <= 5 then 37 + i else if i == 6 then 44
    else if i <= 15 then 39 + i else if i <= 53 then 38 + i else 39 + i
  }

  lemma LowAt(i: nat)
    requires i < 16
    ensures LOW[i] as int == CodeAt(i)
  {
  }

  lemma MiddleAt(i: nat)
    requires i < 38
    ensures MIDDLE[i] as int == CodeAt(i + 16)
  {
  }

  lemma HighAt(i: nat)
    requires i < 34
    ensures HIGH[i] as int == CodeAt(i + 54)
  {
  }

  lemma AlphabetAt(i: nat)
    requires i < 88
    ensures Alphabet()[i] as int == CodeAt(i)
  {
    if i < 16 {
      LowAt(i);
    } else if i < 54 {
      MiddleAt(i - 16);
    } else {
      HighAt(i - 54);
    }
  }

  predicate Alike(a: nat, b: nat) {
    a == b || {a, b} == {FIRST_SIX, SECOND_SIX}
  }

  /** Two numbers get the same text exactly if their digits differ only between the two sixes. */
  lemma SameTextIff(v: nat, w: nat)
    ensures Text(Digits(v)) == Text(Digits(w)) <==>
            |Digits(v)| == |Digits(w)| && forall i | 0 <= i < |Digits(v)| :: Alike(Digits(v)[i], Digits(w)[i])
  {
    hide Digits, Alphabet;
    var d, e := Digits(v), Digits(w);
    assert |Text(d)| == |d| && |Text(e)| == |e|;
    if |d| == |e| {
      forall i | 0 <= i < |d|
        ensures Text(d)[i] == Text(e)[i] <==> Alike(d[i], e[i])
      {
        AlphabetAt(d[i]);
        AlphabetAt(e[i]);
        SameCode(d[i], e[i]);
      }
    }
  }

  lemma SameCode(a: nat, b: nat)
    requires a < 88 && b < 88
    ensures CodeAt(a) == CodeAt(b) <==> Alike(a, b)
  {
  }

  /** 15 and 16 are written alike, so files of these sizes with one modification time share a tag. */
  lemma TagsCollide()
    ensures Text(Digits(15)) == Text(Digits(16))
  {
    SameTextIff(15, 16);
  }
}
