/** units.ts: amounts typed in a unit to wei, and back. */
module Units {
  import opened Arithmetic
  import opened Decimal

  datatype Unit = Wei | Gwei | Eth {
    function Decimals(): nat {
      match this
      case Wei => 0
      case Gwei => 9
      case Eth => 18
    }
  }

  /** String.split('.'). */
  function Split(s: string): (parts: seq<string>)
    ensures parts != []
  {
    if s == "" then [""]
    else
      var rest := Split(s[1..]);
      if s[0] == '.' then [""] + rest else [[s[0]] + rest[0]] + rest[1..]
  }

  function Whole(value: string): string {
    Split(value)[0]
  }

  function Fraction(value: string): string {
    if |Split(value)| > 1 then Split(value)[1] else ""
  }

  /** What the input field lets through: digits, an optional dot, digits. */
  predicate IsInput(value: string) {
    |Split(value)| <= 2 && IsDigits(Whole(value)) && IsDigits(Fraction(value))
  }

  function WholeOrZero(value: string): (whole: string)
    ensures IsDigits(Whole(value)) ==> IsDigits(whole)
  {
    if Whole(value) == "" then "0" else Whole(value)
  }

  /** BigInt('1' + '0'.repeat(decimals)), the multiplier and divisor of both conversions. */
  lemma MultiplierIsPower(decimals: nat)
    ensures ValueOf("1" + Zeros(decimals)) == Pow10(decimals)
  {
    ValueAppend("1", Zeros(decimals));
    ZerosValue(decimals);
    assert "1"[..0] == "";
  }

  /** fraction.padEnd(decimals, '0').slice(0, decimals). */
  function Padded(fraction: string, decimals: nat): (digits: string)
    ensures |digits| == decimals && (IsDigits(fraction) ==> IsDigits(digits))
  {
    if |fraction| < decimals then fraction + Zeros(decimals - |fraction|) else fraction[..decimals]
  }

  function Combine(whole: nat, multiplier: nat, fraction: nat): nat {
    whole * multiplier + fraction
  }

  function ToWei(value: string, unit: Unit): string
    requires unit != Wei ==> IsInput(value)
  {
    if value == "" || value == "0" then "0"
    else if unit == Wei then value
    else
      Print(Combine(ValueOf(WholeOrZero(value)), Pow10(unit.Decimals()),
                    ValueOf(Padded(Fraction(value), unit.Decimals()))))
  }

  function ShowParts(whole: nat, remainder: nat, decimals: nat): string {
    if remainder == 0 then Print(whole)
    else Print(whole) + "." + TrimTrailing(PadStart(Print(remainder), decimals))
  }

  function ShowBy(wei: nat, divisor: nat, decimals: nat): string
    requires divisor > 0
  {
    ShowParts(wei / divisor, wei % divisor, decimals)
  }

  /** fromWei past its early returns. */
  function Show(wei: nat, decimals: nat): string {
    ShowBy(wei, Pow10(decimals), decimals)
  }

  function FromWei(wei: string, unit: Unit): string
    requires unit != Wei ==> IsDigits(wei)
  {
    if wei == "" || wei == "0" then "0"
    else if unit == Wei then wei
    else Show(ValueOf(wei), unit.Decimals())
  }

  lemma {:induction false} SplitPlain(s: string)
    requires '.' !in s
    ensures Split(s) == [s]
  {
    if s != "" {
      assert s[0] in s;
      SplitPlain(s[1..]);
      assert s == [s[0]] + s[1..];
    }
  }

  lemma {:induction false} SplitAtDot(a: string, b: string)
    requires '.' !in a && '.' !in b
    ensures Split(a + "." + b) == [a, b]
  {
    var s := a + "." + b;
    if a == "" {
      assert s[1..] == b && s[0] == '.';
      SplitPlain(b);
    } else {
      assert a[0] in a && s[0] == a[0];
      assert s[1..] == a[1..] + "." + b;
      SplitAtDot(a[1..], b);
      assert a == [a[0]] + a[1..];
    }
  }

  lemma ZeroNumeral()
    ensures ValueOf("0") == 0 && Print(0) == "0"
  {
    assert "0"[..0] == "";
  }

  // ----- what toWei computes -----

  lemma PaddedValue(fraction: string, decimals: nat)
    requires IsDigits(fraction) && |fraction| <= decimals
    ensures ValueOf(Padded(fraction, decimals)) == ValueOf(fraction) * Pow10(decimals - |fraction|)
  {
    assert Padded(fraction, decimals) == fraction + Zeros(decimals - |fraction|);
    ValueAppend(fraction, Zeros(decimals - |fraction|));
    ZerosValue(decimals - |fraction|);
  }

  /** Both early returns agree with the formula. */
  lemma ToWeiValue(value: string, unit: Unit)
    requires unit != Wei && IsInput(value)
    ensures ToWei(value, unit) ==
            Print(ValueOf(Whole(value)) * Pow10(unit.Decimals()) + ValueOf(Padded(Fraction(value), unit.Decimals())))
  {
    ZeroNumeral();
    if value == "" || value == "0" {
      SplitPlain(value);
      PaddedValue("", unit.Decimals());
    }
  }

  /** The value read as a rational is Numeral / 10^Places. */
  function Numeral(value: string): nat
    requires IsInput(value)
  {
    ValueAppend(Whole(value), Fraction(value));
    ValueOf(Whole(value) + Fraction(value))
  }

  function Places(value: string): nat {
    |Fraction(value)|
  }

  lemma Scaled(a: nat, b: nat, p: nat, q: nat)
    requires p > 0
    ensures (a * p + b) * (p * q) / p == a * (p * q) + b * q
  {
    assert (a * p + b) * (p * q) == p * (a * (p * q) + b * q);
    QuotientIs((a * p + b) * (p * q), p, a * (p * q) + b * q, 0);
  }

  lemma FloorWhenShort(a: nat, b: nat, n: nat, d: nat)
    requires n <= d
    ensures (a * Pow10(n) + b) * Pow10(d) / Pow10(n) == a * Pow10(d) + b * Pow10(d - n)
  {
    PowAdd(n, d - n);
    Scaled(a, b, Pow10(n), Pow10(d - n));
  }

  lemma DroppedProduct(a: nat, high: nat, low: nat, p: nat, q: nat)
    ensures (a * (q * p) + (high * q + low)) * p == (q * p) * (a * p + high) + low * p
  {
    calc {
      (a * (q * p) + (high * q + low)) * p;
    == { Distribute(p, a * (q * p), high * q + low); }
      a * (q * p) * p + (high * q + low) * p;
    == { Distribute(p, high * q, low); }
      a * (q * p) * p + high * q * p + low * p;
    == { assert a * (q * p) * p == (q * p) * (a * p); assert high * q * p == (q * p) * high; }
      (q * p) * (a * p) + (q * p) * high + low * p;
    == { Distribute(q * p, a * p, high); }
      (q * p) * (a * p + high) + low * p;
    }
  }

  lemma Dropped(a: nat, high: nat, low: nat, p: nat, q: nat)
    requires p > 0 && low < q
    ensures q * p > 0
    ensures (a * (q * p) + (high * q + low)) * p / (q * p) == a * p + high
  {
    MulMonotone(p, low + 1, q);
    assert p * (low + 1) == low * p + p && p * q == q * p;
    DroppedProduct(a, high, low, p, q);
    QuotientIs((a * (q * p) + (high * q + low)) * p, q * p, a * p + high, low * p);
  }

  lemma FloorWhenLong(a: nat, high: nat, low: nat, d: nat, m: nat)
    requires low < Pow10(m)
    ensures (a * Pow10(d + m) + (high * Pow10(m) + low)) * Pow10(d) / Pow10(d + m) == a * Pow10(d) + high
  {
    PowAdd(m, d);
    Dropped(a, high, low, Pow10(d), Pow10(m));
  }

  lemma FloorOfShort(a: string, b: string, d: nat)
    requires IsDigits(a) && IsDigits(b) && |b| <= d
    ensures IsDigits(a + b)
    ensures ValueOf(a + b) * Pow10(d) / Pow10(|b|) == ValueOf(a) * Pow10(d) + ValueOf(Padded(b, d))
  {
    ValueAppend(a, b);
    PaddedValue(b, d);
    FloorWhenShort(ValueOf(a), ValueOf(b), |b|, d);
  }

  lemma ValueOfLong(a: string, high: string, low: string)
    requires IsDigits(a) && IsDigits(high) && IsDigits(low)
    ensures IsDigits(a + (high + low))
    ensures ValueOf(a + (high + low))
         == ValueOf(a) * Pow10(|high| + |low|) + (ValueOf(high) * Pow10(|low|) + ValueOf(low))
  {
    ValueAppend(high, low);
    ValueAppend(a, high + low);
  }

  lemma FloorOfLong(a: string, high: string, low: string)
    requires IsDigits(a) && IsDigits(high) && IsDigits(low)
    ensures IsDigits(a + (high + low))
    ensures ValueOf(a + (high + low)) * Pow10(|high|) / Pow10(|high| + |low|)
         == ValueOf(a) * Pow10(|high|) + ValueOf(high)
  {
    ValueOfLong(a, high, low);
    ValueBelow(low);
    FloorWhenLong(ValueOf(a), ValueOf(high), ValueOf(low), |high|, |low|);
  }

  lemma FloorOfParts(a: string, b: string, d: nat)
    requires IsDigits(a) && IsDigits(b)
    ensures IsDigits(a + b)
    ensures ValueOf(a + b) * Pow10(d) / Pow10(|b|) == ValueOf(a) * Pow10(d) + ValueOf(Padded(b, d))
  {
    if |b| <= d {
      FloorOfShort(a, b, d);
    } else {
      assert b == b[..d] + b[d..] && Padded(b, d) == b[..d];
      FloorOfLong(a, b[..d], b[d..]);
    }
  }

  /** For every string the input field lets through, toWei prints exactly the value times 10^decimals,
      rounded down, in canonical decimal. */
  lemma ToWeiIsFloor(value: string, unit: Unit)
    requires unit != Wei && IsInput(value)
    ensures Canonical(ToWei(value, unit))
    ensures ValueOf(ToWei(value, unit)) == Numeral(value) * Pow10(unit.Decimals()) / Pow10(Places(value))
  {
    ToWeiValue(value, unit);
    FloorOfParts(Whole(value), Fraction(value), unit.Decimals());
  }

  // ----- what fromWei prints -----

  /** The text for a whole and a fraction of fixed length. */
  function Shown(whole: string, digits: string): string {
    var fraction := TrimTrailing(digits);
    if fraction == "" then whole else whole + "." + fraction
  }

  lemma {:induction false} ZeroDigits(s: string)
    requires IsDigits(s) && ValueOf(s) == 0
    ensures s == Zeros(|s|)
  {
    if s != "" {
      ZeroDigits(s[..|s| - 1]);
      assert s == s[..|s| - 1] + [s[|s| - 1]];
    }
  }

  lemma TrimsToNothing(digits: string)
    requires IsDigits(digits)
    ensures TrimTrailing(digits) == "" <==> ValueOf(digits) == 0
  {
    TrimTrailingRestores(digits);
    ZerosValue(|digits|);
    if ValueOf(digits) == 0 {
      ZeroDigits(digits);
      TrimIgnoresZeros("", |digits|);
      assert digits == "" + Zeros(|digits|);
    }
  }

  lemma ShowPartsOf(whole: nat, digits: string)
    requires IsDigits(digits)
    ensures ShowParts(whole, ValueOf(digits), |digits|) == Shown(Print(whole), digits)
  {
    TrimsToNothing(digits);
    if ValueOf(digits) > 0 {
      PadStartPrint(digits);
    }
  }

  lemma SplitNumber(n: nat, whole: nat, m: nat, rest: nat)
    requires rest < m && n == whole * m + rest
    ensures n / m == whole && n % m == rest
  {
    assert n == m * whole + rest;
    QuotientIs(n, m, whole, rest);
  }

  lemma ShowByOf(wei: nat, whole: nat, divisor: nat, digits: string)
    requires IsDigits(digits) && divisor > 0
    requires wei / divisor == whole && wei % divisor == ValueOf(digits)
    ensures ShowBy(wei, divisor, |digits|) == Shown(Print(whole), digits)
  {
    ShowPartsOf(whole, digits);
  }

  lemma ShowOf(wei: nat, whole: nat, digits: string)
    requires IsDigits(digits) && wei == whole * Pow10(|digits|) + ValueOf(digits)
    ensures Show(wei, |digits|) == Shown(Print(whole), digits)
  {
    ValueBelow(digits);
    SplitNumber(wei, whole, Pow10(|digits|), ValueOf(digits));
    ShowByOf(wei, whole, Pow10(|digits|), digits);
  }

  lemma ShowByZero(divisor: nat, d: nat)
    requires divisor > 0
    ensures ShowBy(0, divisor, d) == Print(0)
  {
    SplitNumber(0, 0, divisor, 0);
  }

  lemma ShowZero(d: nat)
    ensures Show(0, d) == "0"
  {
    ZeroNumeral();
    ShowByZero(Pow10(d), d);
  }

  /** The early return for "0" agrees with the formula. */
  lemma FromWeiPrinted(wei: nat, unit: Unit)
    requires unit != Wei
    ensures FromWei(Print(wei), unit) == Show(wei, unit.Decimals())
  {
    ZeroNumeral();
    if wei == 0 {
      ShowZero(unit.Decimals());
    }
  }

  /** fromWei splits off the last digits of a number. */
  lemma FromWeiOf(wei: nat, whole: nat, digits: string, unit: Unit)
    requires unit != Wei && IsDigits(digits) && |digits| == unit.Decimals()
    requires wei == whole * Pow10(|digits|) + ValueOf(digits)
    ensures FromWei(Print(wei), unit) == Shown(Print(whole), digits)
  {
    ShowOf(wei, whole, digits);
    FromWeiPrinted(wei, unit);
  }

  lemma {:induction false} DigitsOf(n: nat, d: nat) returns (digits: string)
    requires n < Pow10(d)
    ensures IsDigits(digits) && |digits| == d && ValueOf(digits) == n
  {
    if d == 0 {
      digits := "";
    } else {
      var high := DigitsOf(n / 10, d - 1);
      digits := high + [Digit(n % 10)];
      assert digits[..d - 1] == high;
    }
  }

  lemma DivideBy(n: nat, m: nat) returns (d: nat, r: nat)
    requires m > 0
    ensures n == d * m + r && r < m
  {
    d, r := Divide(n, m);
    assert d * m == m * d;
  }

  /** Every canonical amount is a whole and digits to the precision. */
  lemma Decompose(wei: string, d: nat) returns (w: nat, whole: nat, digits: string)
    requires Canonical(wei)
    ensures IsDigits(digits) && |digits| == d
    ensures wei == Print(w) && w == whole * Pow10(d) + ValueOf(digits)
  {
    w := ValueOf(wei);
    PrintValue(wei);
    var rest: nat;
    whole, rest := DivideBy(w, Pow10(d));
    digits := DigitsOf(rest, d);
  }

  lemma SplitShown(whole: string, fraction: string)
    requires Canonical(whole) && IsDigits(fraction)
    ensures Split(whole) == [whole] && Split(whole + "." + fraction) == [whole, fraction]
  {
    SplitPlain(whole);
    SplitAtDot(whole, fraction);
  }

  lemma PadUndoesTrim(digits: string)
    requires IsDigits(digits)
    ensures Padded(TrimTrailing(digits), |digits|) == digits
  {
    TrimTrailingRestores(digits);
    assert |TrimTrailing(digits)| == |digits| ==> TrimTrailing(digits) == digits;
  }

  lemma ShownIsInput(whole: string, digits: string)
    requires Canonical(whole) && IsDigits(digits)
    ensures IsInput(Shown(whole, digits)) && Whole(Shown(whole, digits)) == whole
    ensures Fraction(Shown(whole, digits)) == TrimTrailing(digits)
  {
    SplitShown(whole, TrimTrailing(digits));
  }

  /** toWei of the text for a whole and digits puts the number together again. */
  lemma ToWeiOfShown(whole: nat, digits: string, unit: Unit)
    requires unit != Wei && IsDigits(digits) && |digits| == unit.Decimals()
    ensures IsInput(Shown(Print(whole), digits))
    ensures ToWei(Shown(Print(whole), digits), unit) == Print(whole * Pow10(|digits|) + ValueOf(digits))
  {
    ShownIsInput(Print(whole), digits);
    PadUndoesTrim(digits);
    ToWeiValue(Shown(Print(whole), digits), unit);
  }

  /** Changing units loses nothing: toWei undoes fromWei on every canonical amount. */
  lemma RoundTrip(wei: string, unit: Unit)
    requires Canonical(wei)
    ensures unit != Wei ==> IsInput(FromWei(wei, unit))
    ensures ToWei(FromWei(wei, unit), unit) == wei
  {
    if unit != Wei {
      var w, whole, digits := Decompose(wei, unit.Decimals());
      FromWeiOf(w, whole, digits, unit);
      ToWeiOfShown(whole, digits, unit);
    }
  }

  predicate EndsWell(fraction: string, unit: Unit) {
    IsDigits(fraction) && 0 < |fraction| <= unit.Decimals() && fraction[|fraction| - 1] != '0'
  }

  /** fromWei prints a canonical whole, followed, if anything, by a dot and at most d digits of which the
      last is not zero: never a trailing zero and never a trailing dot. */
  lemma FromWeiShape(wei: string, unit: Unit)
    requires Canonical(wei) && unit != Wei
    ensures var shown := FromWei(wei, unit);
            || Canonical(shown)
            || exists whole, fraction: string ::
                 shown == whole + "." + fraction && Canonical(whole) && EndsWell(fraction, unit)
  {
    var w, whole, digits := Decompose(wei, unit.Decimals());
    FromWeiOf(w, whole, digits, unit);
    if TrimTrailing(digits) != "" {
      assert FromWei(wei, unit) == Print(whole) + "." + TrimTrailing(digits);
      assert EndsWell(TrimTrailing(digits), unit);
    }
  }

  /** The digits of a fraction within a precision. */
  function Clip(b: string, d: nat): string {
    if |b| <= d then b else b[..d]
  }

  /** v truncated to the unit's precision, without leading zeros in the whole or trailing zeros in the fraction. */
  function Truncated(value: string, unit: Unit): string {
    var d, b := unit.Decimals(), Fraction(value);
    Shown(if StripLeading(Whole(value)) == "" then "0" else StripLeading(Whole(value)),
          Clip(b, d))
  }

  lemma TypedShown(value: string, unit: Unit)
    requires unit != Wei && IsInput(value)
    ensures FromWei(ToWei(value, unit), unit)
         == Shown(Print(ValueOf(Whole(value))), Padded(Fraction(value), unit.Decimals()))
  {
    var whole, digits := ValueOf(Whole(value)), Padded(Fraction(value), unit.Decimals());
    ToWeiValue(value, unit);
    FromWeiOf(whole * Pow10(unit.Decimals()) + ValueOf(digits), whole, digits, unit);
  }

  lemma TrimPadded(b: string, d: nat)
    ensures TrimTrailing(Padded(b, d)) == TrimTrailing(Clip(b, d))
  {
    var n := if |b| < d then d - |b| else 0;
    TrimIgnoresZeros(Clip(b, d), n);
    assert Padded(b, d) == Clip(b, d) + Zeros(n);
  }

  lemma TruncatedIsShown(value: string, unit: Unit)
    requires IsInput(value)
    ensures Truncated(value, unit) == Shown(Print(ValueOf(Whole(value))), Padded(Fraction(value), unit.Decimals()))
  {
    PrintStrips(Whole(value));
    TrimPadded(Fraction(value), unit.Decimals());
  }

  /** Typing an amount and showing it again gives its canonical form, truncated to the unit's precision. */
  lemma TypedThenShown(value: string, unit: Unit)
    requires unit != Wei && IsInput(value)
    ensures FromWei(ToWei(value, unit), unit) == Truncated(value, unit)
  {
    TypedShown(value, unit);
    TruncatedIsShown(value, unit);
  }

  lemma PrintedZero(n: nat)
    requires n > 0
    ensures Print(n)[0] != '0'
  {
    if Print(n)[0] == '0' {
      assert Print(n) == "0";
      ZeroNumeral();
    }
  }

  lemma PrintCanonical(n: nat, zeros: string)
    requires n > 0 && IsDigits(zeros)
    ensures Canonical(Print(n) + zeros)
  {
    PrintedZero(n);
  }

  lemma PrintTimesPower(n: nat, d: nat)
    requires n > 0
    ensures Print(n * Pow10(d)) == Print(n) + Zeros(d)
  {
    ZerosValue(d);
    ValueAppend(Print(n), Zeros(d));
    PrintCanonical(n, Zeros(d));
    PrintValue(Print(n) + Zeros(d));
  }

  lemma PrintedIsInput(n: nat)
    ensures IsInput(Print(n)) && Whole(Print(n)) == Print(n) && Fraction(Print(n)) == ""
  {
    SplitPlain(Print(n));
  }

  lemma PaddedNothing(d: nat)
    ensures ValueOf(Padded("", d)) == 0
  {
    ZerosValue(d);
    assert Padded("", d) == Zeros(d);
  }

  lemma ToWeiOfWhole(value: string, unit: Unit)
    requires unit != Wei && IsInput(value) && Whole(value) == value && Fraction(value) == ""
    ensures ToWei(value, unit) == Print(ValueOf(value) * Pow10(unit.Decimals()))
  {
    ToWeiValue(value, unit);
    PaddedNothing(unit.Decimals());
  }

  lemma WholeAmount(n: nat, unit: Unit)
    requires n > 0 && unit != Wei
    ensures IsInput(Print(n))
    ensures ToWei(Print(n), unit) == Print(n) + Zeros(unit.Decimals())
  {
    PrintedIsInput(n);
    ToWeiOfWhole(Print(n), unit);
    PrintTimesPower(n, unit.Decimals());
  }

  /** A whole amount is followed by 9 zeros for gwei and by 18 for ETH; wei pass unchanged. */
  lemma WholeAmounts(n: nat)
    requires n > 0
    ensures IsInput(Print(n))
    ensures ToWei(Print(n), Wei) == Print(n)
    ensures ToWei(Print(n), Gwei) == Print(n) + "000000000"
    ensures ToWei(Print(n), Eth) == Print(n) + "000000000000000000"
  {
    assert Zeros(9) == "000000000" && Zeros(18) == "000000000000000000";
    WholeAmount(n, Gwei);
    WholeAmount(n, Eth);
  }
}
