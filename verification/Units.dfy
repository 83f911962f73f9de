/** Amounts in wei as decimal strings in DUTN and Gwei, and back. */
module Units {
  import opened Types
  import opened Numerals
  import opened Text

  datatype Unit = Dutn | Gwei {
    /** Decimal places of the unit in wei. */
    function Places(): nat {
      if Dutn? then 18 else 9
    }

    function WeiPer(): nat {
      if Dutn? then 1_000_000_000_000_000_000 else 1_000_000_000
    }
  }

  function Power10(k: nat): (p: nat)
    ensures p > 0
  {
    if k == 0 then 1 else 10 * Power10(k - 1)
  }

  // ---------- From wei ----------

  function PadStart(s: string, n: nat): string {
    if |s| >= n then s else Zeros(n - |s|) + s
  }

  function PadEnd(s: string, n: nat): string {
    if |s| >= n then s else s + Zeros(n - |s|)
  }

  function TrimZeros(s: string): string {
    if |s| > 0 && s[|s| - 1] == '0' then TrimZeros(s[..|s| - 1]) else s
  }

  /** weiToDutn and weiToGwei: the whole part, and up to the given number of decimals without
      trailing zeros. */
  function FromWei(wei: nat, u: Unit, decimals: nat): string {
    var s := PadStart(Print(wei, Dec), u.Places() + 1);
    var integerPart := s[..|s| - u.Places()];
    var decimalPart := s[|s| - u.Places()..];
    var trimmed := TrimZeros(decimalPart[..Min(decimals, |decimalPart|)]);
    if trimmed == "" then integerPart else integerPart + "." + trimmed
  }

  // ---------- To wei ----------

  /** BigInt of a string of digits; other strings, which the runtime may or may not accept, are
      not modelled and give None. */
  function BigIntOf(s: string): Option<nat> {
    if AllDigits(s, Dec) then Some(Value(s, Dec)) else None
  }

  /** The text before the first dot. */
  function BeforeDot(s: string): string {
    if |s| == 0 || s[0] == '.' then "" else [s[0]] + BeforeDot(s[1..])
  }

  function AfterDot(s: string): string {
    if |s| == 0 then "" else if s[0] == '.' then s[1..] else AfterDot(s[1..])
  }

  /** So many units and so many wei. */
  function Amount(units: nat, wei: nat, u: Unit): nat {
    units * u.WeiPer() + wei
  }

  /** dutnToWei and gweiToWei on strings. */
  function ToWei(s: string, u: Unit): Option<nat> {
    if '.' in s then
      var integer, decimal := BeforeDot(s), BeforeDot(AfterDot(s));
      var padded := PadEnd(decimal, u.Places())[..u.Places()];
      match (BigIntOf(integer), BigIntOf(padded))
      case (Some(i), Some(d)) => Some(Amount(i, d, u))
      case _ => None
    else
      match BigIntOf(s)
      case Some(i) => Some(Amount(i, 0, u))
      case None => None
  }

  // ---------- Powers of ten ----------

  lemma {:induction false} ShiftMultiplies(n: nat, k: nat)
    ensures Shift(n, k, Dec) == n * Power10(k)
  {
    if k > 0 {
      ShiftMultiplies(n, k - 1);
      assert 10 * (n * Power10(k - 1)) == n * (10 * Power10(k - 1));
    }
  }

  lemma WeiPerIsPower(u: Unit)
    ensures u.WeiPer() == Power10(u.Places())
  {
    assert Power10(9) == 1_000_000_000;
    assert Power10(18) == 1_000_000_000_000_000_000;
  }

  lemma {:induction false} ShiftAdd(m: nat, n: nat, k: nat)
    ensures Shift(m + n, k, Dec) == Shift(m, k, Dec) + Shift(n, k, Dec)
  {
    if k > 0 {
      ShiftAdd(m, n, k - 1);
    }
  }

  lemma {:induction false} ShiftShift(n: nat, j: nat, k: nat)
    ensures Shift(Shift(n, j, Dec), k, Dec) == Shift(n, j + k, Dec)
  {
    if k > 0 {
      ShiftShift(n, j, k - 1);
    }
  }

  // ---------- Digits ----------

  lemma {:induction false} TrimZerosPads(s: string)
    ensures |TrimZeros(s)| <= |s| && TrimZeros(s) + Zeros(|s| - |TrimZeros(s)|) == s
  {
    if |s| > 0 && s[|s| - 1] == '0' {
      TrimZerosPads(s[..|s| - 1]);
    }
  }

  lemma DigitsSplit(s: string, t: string)
    ensures AllDigits(s + t, Dec) <==> AllDigits(s, Dec) && AllDigits(t, Dec)
  {
    hide DigitValue;
    var r := s + t;
    assert forall i | 0 <= i < |s| :: r[i] == s[i];
    assert forall i | 0 <= i < |t| :: r[|s| + i] == t[i];
  }

  lemma DigitIsNoDot(s: string)
    requires AllDigits(s, Dec)
    ensures '.' !in s && 'd' !in s && 'g' !in s && 'w' !in s && ' ' !in s
  {
    forall i | 0 <= i < |s| ensures '0' <= s[i] <= '9' {
      assert DigitValue(s[i]) < 10;
    }
  }

  lemma {:induction false} DotSplits(s: string, t: string)
    requires '.' !in s && '.' !in t
    ensures BeforeDot(s + "." + t) == s && AfterDot(s + "." + t) == t && BeforeDot(t) == t
    decreases |s| + |t|
  {
    var r := s + "." + t;
    if |s| > 0 {
      assert r[1..] == s[1..] + "." + t;
      DotSplits(s[1..], t);
    } else {
      assert r[1..] == t;
      if |t| > 0 {
        DotSplits("", t[1..]);
      }
    }
  }

  /** The printed amount in three parts: the whole units, the decimals that are shown and the ones
      that are cut off. */
  lemma Parts(wei: nat, u: Unit, decimals: nat) returns (whole: string, shown: string, cut: string)
    ensures |whole| > 0 && |shown| == Min(decimals, u.Places()) && |shown| + |cut| == u.Places()
    ensures AllDigits(whole + shown + cut, Dec) && Value(whole + shown + cut, Dec) == wei
    ensures
      var trimmed := TrimZeros(shown);
      FromWei(wei, u, decimals) == if trimmed == "" then whole else whole + "." + trimmed
  {
    hide Print, Value, TrimZeros, AllDigits, PadStart;
    var s := PadStart(Print(wei, Dec), u.Places() + 1);
    PaddedDigits(wei, u.Places() + 1);
    var n := |s| - u.Places();
    var k := Min(decimals, u.Places());
    whole, shown, cut := s[..n], s[n..][..k], s[n..][k..];
    assert s == whole + shown + cut;
  }

  lemma PaddedDigits(wei: nat, n: nat)
    ensures
      var s := PadStart(Print(wei, Dec), n);
      |s| >= n && AllDigits(s, Dec) && Value(s, Dec) == wei
  {
    hide Print, Value, DigitValue;
    var digits := Print(wei, Dec);
    ValueOfPrint(wei, Dec);
    if |digits| < n {
      ValueOfPadded(n - |digits|, digits, Dec);
      DigitsOfZeros(n - |digits|);
      DigitsSplit(Zeros(n - |digits|), digits);
    }
  }

  lemma DigitsOfZeros(n: nat)
    ensures AllDigits(Zeros(n), Dec)
  {
    assert DigitValue('0') == 0;
  }

  /** Padding what is left of the decimals restores them, followed by zeros. */
  lemma PaddedDecimals(shown: string, u: Unit)
    requires AllDigits(shown, Dec) && |shown| <= u.Places()
    ensures
      var trimmed, rest := TrimZeros(shown), u.Places() - |shown|;
      && AllDigits(trimmed, Dec)
      && PadEnd(trimmed, u.Places()) == shown + Zeros(rest) && |shown + Zeros(rest)| == u.Places()
      && AllDigits(shown + Zeros(rest), Dec)
      && Value(shown + Zeros(rest), Dec) == Shift(Value(shown, Dec), rest, Dec)
      && (trimmed == "" ==> Shift(Value(shown, Dec), rest, Dec) == 0)
  {
    hide Value, TrimZeros, Shift, AllDigits;
    var trimmed, rest := TrimZeros(shown), u.Places() - |shown|;
    TrimZerosPads(shown);
    DigitsOfZeros(|shown| - |trimmed|);
    DigitsSplit(trimmed, Zeros(|shown| - |trimmed|));
    DigitsOfZeros(rest);
    DigitsSplit(shown, Zeros(rest));
    ValueOfPadded(rest, shown, Dec);
    assert Zeros(u.Places() - |trimmed|) == Zeros(|shown| - |trimmed|) + Zeros(rest);
    assert PadEnd(trimmed, u.Places()) == shown + Zeros(rest);
    if trimmed == "" {
      assert shown + Zeros(rest) == Zeros(u.Places());
      ValueOfZeros(u.Places(), Dec);
    }
  }

  /** Reading back the whole units and the shown decimals. */
  lemma ToWeiOfParts(whole: string, shown: string, u: Unit)
    requires |whole| > 0 && AllDigits(whole, Dec) && AllDigits(shown, Dec) && |shown| <= u.Places()
    ensures
      var trimmed := TrimZeros(shown);
      var s := if trimmed == "" then whole else whole + "." + trimmed;
      ToWei(s, u)
        == Some(Shift(Value(whole, Dec), u.Places(), Dec) + Shift(Value(shown, Dec), u.Places() - |shown|, Dec))
  {
    hide Value, TrimZeros, Shift, AllDigits, ToWei, Amount, Unit.Places;
    PaddedDecimals(shown, u);
    var d := Value(PadEnd(TrimZeros(shown), u.Places()), Dec);
    Scaled(Value(whole, Dec), 0, u);
    Scaled(Value(whole, Dec), d, u);
    if TrimZeros(shown) == "" {
      ToWeiWhole(whole, u);
    } else {
      assert PadEnd(TrimZeros(shown), u.Places())[..u.Places()] == PadEnd(TrimZeros(shown), u.Places());
      ToWeiDotted(whole, TrimZeros(shown), u);
    }
  }

  lemma Scaled(n: nat, d: nat, u: Unit)
    ensures Amount(n, d, u) == Shift(n, u.Places(), Dec) + d
  {
    WeiPerIsPower(u);
    ShiftMultiplies(n, u.Places());
  }

  lemma ToWeiWhole(whole: string, u: Unit)
    requires AllDigits(whole, Dec)
    ensures ToWei(whole, u) == Some(Amount(Value(whole, Dec), 0, u))
  {
    hide Value, AllDigits, Amount;
    DigitIsNoDot(whole);
  }

  lemma ToWeiDotted(whole: string, decimals: string, u: Unit)
    requires AllDigits(whole, Dec) && AllDigits(decimals, Dec) && |PadEnd(decimals, u.Places())| >= u.Places()
    requires AllDigits(PadEnd(decimals, u.Places())[..u.Places()], Dec)
    ensures ToWei(whole + "." + decimals, u)
      == Some(Amount(Value(whole, Dec), Value(PadEnd(decimals, u.Places())[..u.Places()], Dec), u))
  {
    hide Value, AllDigits, Amount, BeforeDot, AfterDot, PadEnd;
    DigitIsNoDot(whole);
    DigitIsNoDot(decimals);
    DotSplits(whole, decimals);
    assert (whole + "." + decimals)[|whole|] == '.';
  }

  /** Printing an amount and reading it back loses exactly the decimals that were not asked for. */
  lemma RoundTrip(wei: nat, u: Unit, decimals: nat)
    ensures
      var unit := Power10(u.Places() - Min(decimals, u.Places()));
      ToWei(FromWei(wei, u, decimals), u) == Some(wei - wei % unit)
  {
    hide Value, TrimZeros, DigitValue, Shift, AllDigits, FromWei, ToWei;
    var whole, shown, cut := Parts(wei, u, decimals);
    DigitsSplit(whole + shown, cut);
    DigitsSplit(whole, shown);
    ToWeiOfParts(whole, shown, u);
    var k := |cut|;
    var high := Value(whole + shown, Dec);
    ValueConcat(whole + shown, cut, Dec);
    ValueConcat(whole, shown, Dec);
    ValueBound(cut, Dec);
    ShiftMultiplies(high, k);
    ShiftMultiplies(1, k);
    Remainder(wei, high, Power10(k), Value(cut, Dec));
    ShiftAdd(Shift(Value(whole, Dec), |shown|, Dec), Value(shown, Dec), k);
    ShiftShift(Value(whole, Dec), |shown|, k);
  }

  /** With all decimals nothing is lost. */
  lemma ExactRoundTrip(wei: nat, u: Unit, decimals: nat)
    requires decimals >= u.Places()
    ensures ToWei(FromWei(wei, u, decimals), u) == Some(wei)
  {
    RoundTrip(wei, u, decimals);
    assert Power10(0) == 1 && Min(decimals, u.Places()) == u.Places();
    hide FromWei, ToWei, Power10, Unit.Places;
  }

  // ---------- The shape of what is printed, and other texts that are read ----------

  lemma {:induction false} TrimZerosEnds(s: string)
    ensures TrimZeros(s) != "" ==> TrimZeros(s)[|TrimZeros(s)| - 1] != '0'
    ensures '.' !in s ==> '.' !in TrimZeros(s)
  {
    if |s| > 0 && s[|s| - 1] == '0' {
      TrimZerosEnds(s[..|s| - 1]);
    }
  }

  /** Decimals are printed only if there are any, at most as many as asked for, and the last is no zero. */
  lemma DecimalsEnd(wei: nat, u: Unit, decimals: nat)
    ensures
      var s := FromWei(wei, u, decimals);
      '.' in s ==> 0 < |AfterDot(s)| <= Min(decimals, u.Places()) && s[|s| - 1] != '0' && '.' !in AfterDot(s)
  {
    hide FromWei, TrimZeros, DigitValue, AllDigits, Value, AfterDot;
    var whole, shown, cut := Parts(wei, u, decimals);
    DigitsSplit(whole + shown, cut);
    DigitsSplit(whole, shown);
    DigitIsNoDot(whole);
    DigitIsNoDot(shown);
    TrimZerosPads(shown);
    TrimZerosEnds(shown);
    var trimmed := TrimZeros(shown);
    if trimmed != "" {
      DotSplits(whole, trimmed);
      var s := whole + "." + trimmed;
      assert s[|s| - 1] == trimmed[|trimmed| - 1];
    }
  }

  /** Whatever its number of decimals, a text of digits, a dot and digits is read as what it says, but for
      the decimals that the unit does not have, which are cut off. */
  lemma ToWeiReads(whole: string, kept: string, cut: string, u: Unit)
    requires AllDigits(whole, Dec) && AllDigits(kept, Dec) && AllDigits(cut, Dec)
    requires |kept| <= u.Places() && (cut == "" || |kept| == u.Places())
    ensures ToWei(whole + "." + (kept + cut), u)
      == Some(Shift(Value(whole, Dec), u.Places(), Dec) + Shift(Value(kept, Dec), u.Places() - |kept|, Dec))
  {
    var rest := u.Places() - |kept|;
    hide Value, DigitValue, AllDigits, Shift, Amount, ToWei, Unit.Places, PadEnd, Zeros;
    DigitsSplit(kept, cut);
    DigitsOfZeros(rest);
    DigitsSplit(kept, Zeros(rest));
    PadCut(kept, cut, u.Places());
    ToWeiDotted(whole, kept + cut, u);
    ValueOfPadded(rest, kept, Dec);
    Scaled(Value(whole, Dec), Value(kept + Zeros(rest), Dec), u);
  }

  lemma PadCut(kept: string, cut: string, n: nat)
    requires |kept| <= n && (cut == "" || |kept| == n)
    ensures |PadEnd(kept + cut, n)| >= n && PadEnd(kept + cut, n)[..n] == kept + Zeros(n - |kept|)
  {
  }

  // ---------- Formatting and parsing ----------

  datatype Format = InDutn | InGwei | InWei

  /** formatDutn; without a number of decimals 4 are shown in DUTN and 2 in Gwei. */
  function FormatAmount(amount: nat, f: Format, decimals: Option<nat>): string {
    match f
    case InDutn => FromWei(amount, Dutn, if decimals.Some? then decimals.value else 4) + " DUTN"
    case InGwei => FromWei(amount, Gwei, if decimals.Some? then decimals.value else 2) + " Gwei"
    case InWei => Print(amount, Dec) + " Wei"
  }

  /** parseDutn; the longer suffix is tried before the one it ends in. */
  function ParseAmount(input: string): Option<nat> {
    var s := ToLower(Trim(input));
    if EndsWith(s, "dutn") then ToWei(Trim(RemoveFirst(s, "dutn")), Dutn)
    else if EndsWith(s, "gwei") then ToWei(Trim(RemoveFirst(s, "gwei")), Gwei)
    else if EndsWith(s, "wei") then BigIntOf(Trim(RemoveFirst(s, "wei")))
    else ToWei(s, Dutn)
  }

  /** A string of digits and dots that neither begins nor ends with a dot. */
  predicate Numeric(s: string) {
    && |s| > 0 && '0' <= s[0] <= '9' && '0' <= s[|s| - 1] <= '9'
    && forall i | 0 <= i < |s| :: '0' <= s[i] <= '9' || s[i] == '.'
  }

  lemma DigitsNumeric(s: string)
    requires |s| > 0 && AllDigits(s, Dec)
    ensures Numeric(s)
  {
    forall i | 0 <= i < |s| ensures '0' <= s[i] <= '9' {
      assert DigitValue(s[i]) < 10;
    }
  }

  lemma FromWeiNumeric(wei: nat, u: Unit, decimals: nat)
    ensures Numeric(FromWei(wei, u, decimals))
  {
    hide FromWei, TrimZeros, DigitValue, AllDigits, Value;
    var whole, shown, cut := Parts(wei, u, decimals);
    DigitsSplit(whole + shown, cut);
    DigitsSplit(whole, shown);
    TrimZerosPads(shown);
    var trimmed := TrimZeros(shown);
    DigitsSplit(trimmed, Zeros(|shown| - |trimmed|));
    DigitsNumeric(whole);
    if trimmed != "" {
      DigitsNumeric(trimmed);
    }
  }

  /** What parsing makes of a number followed by a space and a unit. */
  lemma SuffixRemoved(s: string, name: string, lower: string)
    requires Numeric(s) && |name| == |lower| > 0 && ToLower(name) == lower
    requires lower[0] !in s && lower[0] != ' ' && !IsSpace(name[|name| - 1])
    ensures
      var t := ToLower(Trim(s + " " + name));
      t == s + " " + lower && Trim(RemoveFirst(t, lower)) == s
  {
    hide RemoveFirst;
    var input := s + " " + name;
    assert !IsSpace(input[0]) && !IsSpace(input[|input| - 1]);
    assert Trim(input) == input;
    assert ToLower(input) == s + " " + lower;
    RemoveFirstAfter(s + " ", lower);
    assert !IsSpace((s + " ")[0]);
    TrimEndOne(s, ' ');
    assert TrimStart(s + " ") == s + " " && TrimEnd(s) == s;
  }

  lemma NoLetters(s: string)
    requires Numeric(s)
    ensures 'd' !in s && 'g' !in s && 'w' !in s
  {
  }

  /** An amount without a unit is one in DUTN. */
  lemma BareIsDutn(s: string)
    requires Numeric(s)
    ensures ParseAmount(s) == ToWei(s, Dutn)
  {
    hide ToWei;
    assert !IsSpace(s[0]) && !IsSpace(s[|s| - 1]);
    assert Trim(s) == s && ToLower(s) == s;
    NotEnding(s, "dutn");
    NotEnding(s, "gwei");
    NotEnding(s, "wei");
  }

  lemma NotEnding(s: string, name: string)
    requires Numeric(s) && |name| > 0 && name[|name| - 1] > '9'
    ensures !EndsWith(s, name)
  {
    if |name| <= |s| {
      assert s[|s| - |name|..][|name| - 1] == s[|s| - 1];
    }
  }

  /** So what is printed in DUTN is also read back without its unit. */
  lemma BareRoundTrip(wei: nat, decimals: nat)
    ensures ParseAmount(FromWei(wei, Dutn, decimals)) == Some(wei - wei % Power10(18 - Min(decimals, 18)))
  {
    hide FromWei, ToWei, ParseAmount, Numeric, Power10;
    FromWeiNumeric(wei, Dutn, decimals);
    BareIsDutn(FromWei(wei, Dutn, decimals));
    RoundTrip(wei, Dutn, decimals);
  }

  lemma LowerNames()
    ensures ToLower("DUTN") == "dutn" && ToLower("Gwei") == "gwei" && ToLower("Wei") == "wei"
  {
  }

  lemma Endings(s: string)
    ensures EndsWith(s + " dutn", "dutn")
    ensures !EndsWith(s + " gwei", "dutn") && EndsWith(s + " gwei", "gwei")
    ensures !EndsWith(s + " wei", "dutn") && !EndsWith(s + " wei", "gwei") && EndsWith(s + " wei", "wei")
  {
    var g, w := s + " gwei", s + " wei";
    assert g[|g| - 4..] == "gwei" && g[|g| - 1] == 'i';
    assert w[|w| - 3..] == "wei" && w[|w| - 1] == 'i' && w[|w| - 4] == ' ';
    assert w[|w| - 4..][0] == w[|w| - 4];
    assert (s + " dutn")[|s| + 1..] == "dutn";
    assert g[|g| - 4..][3] == g[|g| - 1] && w[|w| - 4..][3] == w[|w| - 1];
  }

  /** Formatting an amount and parsing the text loses exactly the decimals that were not shown;
      with all decimals, and always in wei, it gives the amount back. */
  lemma FormatRoundTrip(wei: nat, f: Format, decimals: Option<nat>)
    ensures
      var shown := match f
        case InDutn => Power10(18 - Min(if decimals.Some? then decimals.value else 4, 18))
        case InGwei => Power10(9 - Min(if decimals.Some? then decimals.value else 2, 9))
        case InWei => 1;
      ParseAmount(FormatAmount(wei, f, decimals)) == Some(wei - wei % shown)
  {
    hide FromWei, ToWei, Trim, ToLower, RemoveFirst, EndsWith, Numeric, Print, Power10;
    LowerNames();
    match f
    case InDutn =>
      var d := if decimals.Some? then decimals.value else 4;
      var s := FromWei(wei, Dutn, d);
      FromWeiNumeric(wei, Dutn, d);
      NoLetters(s);
      SuffixRemoved(s, "DUTN", "dutn");
      Endings(s);
      RoundTrip(wei, Dutn, d);
      assert s + " DUTN" == s + " " + "DUTN" && s + " dutn" == s + " " + "dutn";
    case InGwei =>
      var d := if decimals.Some? then decimals.value else 2;
      var s := FromWei(wei, Gwei, d);
      FromWeiNumeric(wei, Gwei, d);
      NoLetters(s);
      SuffixRemoved(s, "Gwei", "gwei");
      Endings(s);
      RoundTrip(wei, Gwei, d);
      assert s + " Gwei" == s + " " + "Gwei" && s + " gwei" == s + " " + "gwei";
    case InWei =>
      var s := Print(wei, Dec);
      DigitsNumeric(s);
      NoLetters(s);
      SuffixRemoved(s, "Wei", "wei");
      Endings(s);
      ValueOfPrint(wei, Dec);
      assert s + " Wei" == s + " " + "Wei" && s + " wei" == s + " " + "wei";
  }
}
