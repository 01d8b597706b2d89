/** Numeric literals: scanNumber and scanRadixNumber. */
module Numbers {
  import opened Bytes

  const LOWER_B: byte := 98

  predicate IsRadixDigit(c: byte, radix: byte)
  {
    if radix == LOWER_B then c == ZERO || c == ZERO + 1
    else IsDigit(c) || 97 <= Lower(c) <= 102
  }

  /** The number of digits of a radix from k on. */
  function RadixRun(s: text, k: nat, radix: byte): (n: nat)
    requires k <= |s|
    ensures k + n <= |s|
    decreases |s| - k
  {
    if k == |s| || !IsRadixDigit(s[k], radix) then 0 else 1 + RadixRun(s, k + 1, radix)
  }

  /** The length of the radix-prefixed literal at i (0x1F, 0b1010), or 0. */
  function RadixLen(s: text, i: nat): (n: nat)
    requires i < |s|
    ensures i + n <= |s|
  {
    if s[i] != ZERO || i + 1 == |s| || Lower(s[i + 1]) !in {LOWER_X, LOWER_B} then 0
    else
      var n := RadixRun(s, i + 2, Lower(s[i + 1]));
      if n == 0 then 0 else 2 + n
  }

  function DigitRun(s: text, k: nat): (n: nat)
    requires k <= |s|
    ensures k + n <= |s|
    decreases |s| - k
  {
    if k == |s| || !IsDigit(s[k]) then 0 else 1 + DigitRun(s, k + 1)
  }

  /** The number of digits and points from k on. */
  function DecimalRun(s: text, k: nat): (n: nat)
    requires k <= |s|
    ensures k + n <= |s| && (k < |s| && IsDigit(s[k]) ==> n > 0)
    decreases |s| - k
  {
    if k == |s| || !(IsDigit(s[k]) || s[k] == DOT) then 0 else 1 + DecimalRun(s, k + 1)
  }

  predicate IsExponentMark(c: byte) { c == 69 || c == 101 }

  /** The length of the exponent e[+-]?digits at k, or 0. */
  function ExponentLen(s: text, k: nat): (n: nat)
    requires k <= |s|
    ensures k + n <= |s|
  {
    if k == |s| || !IsExponentMark(s[k]) then 0
    else
      var j := if k + 1 < |s| && (s[k + 1] == PLUS || s[k + 1] == DASH) then k + 2 else k + 1;
      if j < |s| && IsDigit(s[j]) then j - k + DigitRun(s, j) else 0
  }

  /** The length of the numeric literal that starts with the digit at i. */
  function NumberLen(s: text, i: nat): (n: nat)
    requires i < |s| && IsDigit(s[i])
    ensures 0 < n && i + n <= |s|
  {
    if RadixLen(s, i) > 0 then RadixLen(s, i)
    else
      var n := DecimalRun(s, i);
      n + ExponentLen(s, i + n)
  }

  /** scanRadixNumber */
  method ScanRadixNumber(s: text, i: nat) returns (end: nat, ok: bool)
    requires i < |s|
    ensures ok <==> RadixLen(s, i) > 0
    ensures end == if ok then i + RadixLen(s, i) else 0
  {
    if s[i] != ZERO || i + 1 >= |s| {
      return 0, false;
    }
    var radix := Lower(s[i + 1]);
    if radix != LOWER_X && radix != LOWER_B {
      return 0, false;
    }
    var j := i + 2;
    while j < |s| && IsRadixDigit(s[j], radix)
      invariant i + 2 <= j <= |s|
      invariant RadixRun(s, i + 2, radix) == j - i - 2 + RadixRun(s, j, radix)
    {
      j := j + 1;
    }
    if j == i + 2 {
      return 0, false;
    }
    return j, true;
  }

  /** scanNumber */
  method ScanNumber(s: text, i: nat) returns (end: nat)
    requires i < |s| && IsDigit(s[i])
    ensures end == i + NumberLen(s, i)
  {
    var r, ok := ScanRadixNumber(s, i);
    if ok {
      return r;
    }
    end := i;
    while end < |s| && (IsDigit(s[end]) || s[end] == DOT)
      invariant i <= end <= |s|
      invariant DecimalRun(s, i) == end - i + DecimalRun(s, end)
    {
      end := end + 1;
    }
    if end < |s| && IsExponentMark(s[end]) {
      var j := end + 1;
      if j < |s| && (s[j] == PLUS || s[j] == DASH) {
        j := j + 1;
      }
      if j < |s| && IsDigit(s[j]) {
        ghost var first := j;
        while j < |s| && IsDigit(s[j])
          invariant first <= j <= |s|
          invariant DigitRun(s, first) == j - first + DigitRun(s, j)
        {
          j := j + 1;
        }
        end := j;
      }
    }
  }

  // ---- numbers do not reach into literals ----

  /** The bytes a numeric literal can hold; no delimiter of a literal is among them. */
  predicate IsNumberByte(c: byte)
  {
    IsDigit(c) || IsLetter(c) || c == DOT || c == PLUS || c == DASH
  }

  lemma {:induction false} RadixRunBytes(s: text, k: nat, radix: byte)
    requires k <= |s|
    ensures forall p :: k <= p < k + RadixRun(s, k, radix) ==> IsNumberByte(s[p])
    decreases |s| - k
  {
    if k < |s| { RadixRunBytes(s, k + 1, radix); }
  }

  lemma {:induction false} DecimalRunBytes(s: text, k: nat)
    requires k <= |s|
    ensures forall p :: k <= p < k + DecimalRun(s, k) ==> IsNumberByte(s[p])
    ensures forall p :: k <= p < k + DigitRun(s, k) ==> IsNumberByte(s[p])
    decreases |s| - k
  {
    if k < |s| { DecimalRunBytes(s, k + 1); }
  }

  lemma NumberBytes(s: text, i: nat)
    requires i < |s| && IsDigit(s[i])
    ensures forall p :: i <= p < i + NumberLen(s, i) ==> IsNumberByte(s[p])
  {
    if RadixLen(s, i) > 0 {
      RadixRunBytes(s, i + 2, Lower(s[i + 1]));
    } else {
      DecimalRunBytes(s, i);
      var k := i + DecimalRun(s, i);
      if ExponentLen(s, k) > 0 {
        var j := if k + 1 < |s| && (s[k + 1] == PLUS || s[k + 1] == DASH) then k + 2 else k + 1;
        DecimalRunBytes(s, j);
      }
    }
  }

  /** u is the part of s from i to where s ends or has a byte no number can hold. */
  predicate NumberPart(u: text, s: text, i: nat)
  {
    i + |u| <= |s| && (forall p :: 0 <= p < |u| ==> u[p] == s[i + p]) &&
    (i + |u| < |s| ==> !IsNumberByte(s[i + |u|]))
  }

  lemma {:induction false} RunsInPart(u: text, s: text, i: nat, k: nat, radix: byte)
    requires NumberPart(u, s, i) && k <= |u|
    ensures RadixRun(u, k, radix) == RadixRun(s, i + k, radix)
    ensures DigitRun(u, k) == DigitRun(s, i + k)
    ensures DecimalRun(u, k) == DecimalRun(s, i + k)
    decreases |u| - k
  {
    if k < |u| { RunsInPart(u, s, i, k + 1, radix); }
  }

  lemma ExponentInPart(u: text, s: text, i: nat, k: nat)
    requires NumberPart(u, s, i) && k <= |u|
    ensures ExponentLen(u, k) == ExponentLen(s, i + k)
  {
    if k + 1 <= |u| { RunsInPart(u, s, i, k + 1, LOWER_X); }
    if k + 2 <= |u| { RunsInPart(u, s, i, k + 2, LOWER_X); }
  }

  /** A number is read the same from the part of the text that can hold it. */
  lemma NumberInPart(u: text, s: text, i: nat)
    requires NumberPart(u, s, i) && u != [] && IsDigit(u[0])
    ensures NumberLen(u, 0) == NumberLen(s, i)
  {
    assert RadixLen(u, 0) == RadixLen(s, i) by {
      if |u| >= 2 { RunsInPart(u, s, i, 2, Lower(u[1])); }
    }
    RunsInPart(u, s, i, 0, LOWER_X);
    ExponentInPart(u, s, i, DecimalRun(u, 0));
  }

  // ---- what a number is, in bytes ----

  /** 0x or 0b, in either case, stands at i and a digit of that radix behind it. */
  predicate OpensRadix(s: text, i: nat)
  {
    i + 2 < |s| && s[i] == 48 && s[i + 1] in {120, 88, 98, 66} && IsDigitOf(s[i + 1], s[i + 2])
  }

  /** A binary digit behind b or B, a hexadecimal one behind x or X. */
  predicate IsDigitOf(mark: byte, c: byte)
  {
    if mark == 98 || mark == 66 then 48 <= c <= 49 else 48 <= c <= 57 || 65 <= c <= 70 || 97 <= c <= 102
  }

  /** An exponent stands at m: e or E, an optional sign, and a digit at f. */
  predicate ExponentAt(s: text, m: nat, f: nat)
  {
    f < |s| && m < f && (s[m] == 101 || s[m] == 69) && 48 <= s[f] <= 57 &&
    (f == m + 1 || (f == m + 2 && (s[m + 1] == 43 || s[m + 1] == 45)))
  }

  lemma {:induction false} RunsAreMaximal(s: text, k: nat, radix: byte)
    requires k <= |s|
    ensures var j := k + RadixRun(s, k, radix);
      (forall p :: k <= p < j ==> IsRadixDigit(s[p], radix)) && (j < |s| ==> !IsRadixDigit(s[j], radix))
    ensures var j := k + DigitRun(s, k);
      (forall p :: k <= p < j ==> 48 <= s[p] <= 57) && (j < |s| ==> !(48 <= s[j] <= 57))
    ensures var j := k + DecimalRun(s, k);
      (forall p :: k <= p < j ==> 48 <= s[p] <= 57 || s[p] == 46) && (j < |s| ==> !(48 <= s[j] <= 57 || s[j] == 46))
    decreases |s| - k
  {
    if k < |s| { RunsAreMaximal(s, k + 1, radix); }
  }

  lemma RadixForm(s: text, i: nat)
    requires i < |s|
    ensures var n := RadixLen(s, i); var j := i + n;
      (n > 0 <==> OpensRadix(s, i)) &&
      (n > 0 ==> i + 2 < j && (forall p :: i + 2 <= p < j ==> IsDigitOf(s[i + 1], s[p])) &&
                 (j < |s| ==> !IsDigitOf(s[i + 1], s[j])))
  {
    hide RadixRun;
    if i + 2 <= |s| {
      var radix := Lower(s[i + 1]);
      RunsAreMaximal(s, i + 2, radix);
      if radix in {LOWER_X, LOWER_B} {
        forall c ensures IsRadixDigit(c, radix) <==> IsDigitOf(s[i + 1], c) { SameDigits(s[i + 1], c); }
      }
    }
  }

  lemma SameDigits(mark: byte, c: byte)
    requires Lower(mark) in {LOWER_X, LOWER_B}
    ensures IsRadixDigit(c, Lower(mark)) <==> IsDigitOf(mark, c)
  {
  }

  /** The exponent at m and all its digits, or nothing. */
  predicate ExponentEnds(s: text, m: nat, f: nat, j: nat)
  {
    if ExponentAt(s, m, f) then
      f < j <= |s| && (forall p :: f <= p < j ==> 48 <= s[p] <= 57) && (j < |s| ==> !(48 <= s[j] <= 57))
    else j == m && !ExponentAt(s, m, m + 1) && !ExponentAt(s, m, m + 2)
  }

  lemma ExponentForm(s: text, m: nat) returns (f: nat)
    requires m <= |s|
    ensures ExponentEnds(s, m, f, m + ExponentLen(s, m))
  {
    hide DigitRun;
    f := if m + 1 < |s| && (s[m + 1] == 43 || s[m + 1] == 45) then m + 2 else m + 1;
    if f <= |s| { RunsAreMaximal(s, f, LOWER_X); }
    if f < |s| && 48 <= s[f] <= 57 { SomeDigits(s, f); }
  }

  lemma SomeDigits(s: text, f: nat)
    requires f < |s| && 48 <= s[f] <= 57
    ensures DigitRun(s, f) > 0
  {
  }

  /** A number with a radix takes all digits of that radix; another one takes all digits and points up to m, and an
      exponent behind them, if one is there, with all its digits. */
  lemma NumberForm(s: text, i: nat) returns (m: nat, f: nat)
    requires i < |s| && 48 <= s[i] <= 57
    ensures var j := i + NumberLen(s, i);
      if OpensRadix(s, i) then
        i + 2 < j && (forall p :: i + 2 <= p < j ==> IsDigitOf(s[i + 1], s[p])) &&
        (j < |s| ==> !IsDigitOf(s[i + 1], s[j]))
      else
        i < m <= j && (forall p :: i <= p < m ==> 48 <= s[p] <= 57 || s[p] == 46) &&
        (m < |s| ==> !(48 <= s[m] <= 57 || s[m] == 46)) && ExponentEnds(s, m, f, j)
  {
    hide RadixLen, DecimalRun, ExponentLen, IsDigitOf, OpensRadix, ExponentEnds;
    RadixForm(s, i);
    m := i + DecimalRun(s, i);
    RunsAreMaximal(s, i, LOWER_X);
    f := ExponentForm(s, m);
  }
}
