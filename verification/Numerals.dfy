/** Natural numbers as decimal or hexadecimal digit strings: what toString prints and what
    parsing reads back. */
module Numerals {
  datatype Base = Dec | Hex {
    function Radix(): nat {
      if Dec? then 10 else 16
    }

    /** Multiplication by the radix, division and remainder. */
    function Times(n: nat): nat {
      if Dec? then 10 * n else 16 * n
    }

    function Over(n: nat): nat {
      if Dec? then n / 10 else n / 16
    }

    function Last(n: nat): (d: nat)
      ensures d < Radix()
    {
      if Dec? then n % 10 else n % 16
    }
  }

  function DigitChar(d: nat): (c: char)
    requires d < 16
    ensures DigitValue(c) == d
  {
    if d < 10 then '0' + d as char else 'a' + (d - 10) as char
  }

  /** The value of a digit character, or 16 for any other character. */
  function DigitValue(c: char): nat {
    if '0' <= c <= '9' then (c - '0') as nat
    else if 'a' <= c <= 'f' then (c - 'a') as nat + 10
    else if 'A' <= c <= 'F' then (c - 'A') as nat + 10
    else 16
  }

  predicate AllDigits(s: string, b: Base) {
    forall i | 0 <= i < |s| :: DigitValue(s[i]) < b.Radix()
  }

  predicate LowerCase(s: string) {
    forall i | 0 <= i < |s| :: !('A' <= s[i] <= 'F')
  }

  /** The shortest digit string of n. */
  function Print(n: nat, b: Base): (s: string)
    ensures |s| > 0 && AllDigits(s, b)
    ensures LowerCase(s)
  {
    if n < b.Radix() then [DigitChar(n)] else Print(b.Over(n), b) + [DigitChar(b.Last(n))]
  }

  /** What printing a possibly negative number in decimal gives. */
  function PrintInt(n: int): string {
    if n < 0 then "-" + Print(-n, Dec) else Print(n, Dec)
  }

  /** The number a digit string denotes; zero for the empty string. */
  function Value(s: string, b: Base): nat
    requires AllDigits(s, b)
  {
    if |s| == 0 then 0
    else b.Times(Value(s[..|s| - 1], b)) + DigitValue(s[|s| - 1])
  }

  lemma ValueAppend(s: string, c: char, b: Base)
    requires AllDigits(s, b) && DigitValue(c) < b.Radix()
    ensures AllDigits(s + [c], b) && Value(s + [c], b) == b.Times(Value(s, b)) + DigitValue(c)
  {
    assert (s + [c])[..|s|] == s;
  }

  /** n with k zeros appended. */
  function Shift(n: nat, k: nat, b: Base): nat {
    if k == 0 then n else b.Times(Shift(n, k - 1, b))
  }

  /** Printing and reading back. */
  lemma {:induction false} ValueOfPrint(n: nat, b: Base)
    ensures Value(Print(n, b), b) == n
  {
    if n >= b.Radix() {
      ValueOfPrint(b.Over(n), b);
      assert Print(n, b)[..|Print(n, b)| - 1] == Print(b.Over(n), b);
    }
  }

  /** No superfluous zero is printed. */
  lemma {:induction false} PrintLeadingDigit(n: nat, b: Base)
    ensures n > 0 ==> Print(n, b)[0] != '0'
    ensures n == 0 ==> Print(n, b) == "0"
  {
    if n >= b.Radix() {
      PrintLeadingDigit(b.Over(n), b);
    }
  }

  lemma PrintInjective(m: nat, n: nat, b: Base)
    ensures Print(m, b) == Print(n, b) ==> m == n
  {
    ValueOfPrint(m, b);
    ValueOfPrint(n, b);
  }

  /** A digit string without a superfluous zero is what its value prints as. */
  lemma {:induction false} PrintOfValue(s: string, b: Base)
    requires AllDigits(s, b) && |s| > 0 && (s[0] != '0' || |s| == 1)
    requires LowerCase(s)
    ensures Print(Value(s, b), b) == s
    ensures s[0] != '0' ==> Value(s, b) > 0
  {
    hide Print, DigitChar, DigitValue, Base.Times;
    var init, last := s[..|s| - 1], s[|s| - 1];
    CharOfValue(last);
    assert Value(s, b) == b.Times(Value(init, b)) + DigitValue(last);
    if |s| > 1 {
      PrintOfValue(init, b);
      PrintOneMore(Value(init, b), DigitValue(last), b);
      assert s == init + [last];
    } else {
      PrintOneDigit(s, b);
    }
  }

  lemma PrintOneDigit(s: string, b: Base)
    requires |s| == 1 && AllDigits(s, b) && LowerCase(s)
    ensures Value(s, b) == DigitValue(s[0]) && Print(Value(s, b), b) == s
    ensures s[0] != '0' ==> Value(s, b) > 0
  {
    CharOfValue(s[0]);
    assert Value(s[..0], b) == 0;
  }

  lemma PrintOneMore(n: nat, d: nat, b: Base)
    requires n > 0 && d < b.Radix()
    ensures Print(b.Times(n) + d, b) == Print(n, b) + [DigitChar(d)] && b.Times(n) + d > 0
  {
    OverTimes(n, d, b);
  }

  lemma CharOfValue(c: char)
    requires DigitValue(c) < 16 && !('A' <= c <= 'F')
    ensures DigitChar(DigitValue(c)) == c
    ensures DigitValue(c) == 0 <==> c == '0'
  {
  }

  lemma OverTimes(n: nat, d: nat, b: Base)
    requires d < b.Radix()
    ensures b.Over(b.Times(n) + d) == n && b.Last(b.Times(n) + d) == d
    ensures n > 0 ==> b.Times(n) + d >= b.Radix()
  {
  }

  /** The high part counts as if the low part were zeros. */
  lemma {:induction false} ValueConcat(s: string, t: string, b: Base)
    requires AllDigits(s, b) && AllDigits(t, b)
    ensures AllDigits(s + t, b) && Value(s + t, b) == Shift(Value(s, b), |t|, b) + Value(t, b)
  {
    if |t| == 0 {
      assert s + t == s;
    } else {
      ValueConcat(s, t[..|t| - 1], b);
      assert (s + t)[..|s + t| - 1] == s + t[..|t| - 1];
    }
  }

  lemma {:induction false} ValueBound(s: string, b: Base)
    requires AllDigits(s, b)
    ensures Value(s, b) < Shift(1, |s|, b)
  {
    if |s| > 0 {
      ValueBound(s[..|s| - 1], b);
    }
  }

  function Zeros(n: nat): (s: string)
    ensures |s| == n && forall i | 0 <= i < n :: s[i] == '0'
  {
    seq(n, _ => '0')
  }

  lemma {:induction false} ValueOfZeros(n: nat, b: Base)
    ensures Value(Zeros(n), b) == 0
  {
    if n > 0 {
      assert Zeros(n)[..n - 1] == Zeros(n - 1);
      ValueOfZeros(n - 1, b);
    }
  }

  lemma {:induction false} ShiftZero(k: nat, b: Base)
    ensures Shift(0, k, b) == 0
  {
    if k > 0 {
      ShiftZero(k - 1, b);
    }
  }

  /** Leading zeros do not count, and trailing zeros shift. */
  lemma ValueOfPadded(n: nat, s: string, b: Base)
    requires AllDigits(s, b)
    ensures Value(Zeros(n) + s, b) == Value(s, b)
    ensures Value(s + Zeros(n), b) == Shift(Value(s, b), n, b)
  {
    ValueOfZeros(n, b);
    ValueConcat(Zeros(n), s, b);
    ShiftZero(|s|, b);
    ValueConcat(s, Zeros(n), b);
  }

  // ---------- Arithmetic ----------

  function Min(x: nat, y: nat): nat {
    if x < y then x else y
  }

  lemma MulBounds(a: int, m: nat)
    ensures a >= 1 ==> a * m >= m
    ensures a <= -1 ==> a * m <= 0 - m
  {
  }

  lemma Remainder(w: int, x: int, m: nat, r: nat)
    requires w == x * m + r && r < m
    ensures w % m == r
  {
    assert w == m * (w / m) + w % m;
    assert (w / m - x) * m == r - w % m;
    MulBounds(w / m - x, m);
  }
}
