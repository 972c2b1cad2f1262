/** Decimal numerals as strings: their values, canonical printing, and zero padding. */
module Decimal {
  import opened Arithmetic
  import opened Evm

  predicate IsDigit(c: char) {
    '0' <= c <= '9'
  }

  predicate IsDigits(s: string) {
    forall i :: 0 <= i < |s| ==> IsDigit(s[i])
  }

  /** BigInt of a digit string; the empty string is 0. */
  function ValueOf(s: string): nat
    requires IsDigits(s)
  {
    if s == "" then 0 else ValueOf(s[..|s| - 1]) * 10 + (s[|s| - 1] as int - '0' as int)
  }

  function Digit(d: nat): char
    requires d < 10
  {
    '0' + d as char
  }

  predicate Canonical(s: string) {
    IsDigits(s) && s != "" && (|s| > 1 ==> s[0] != '0')
  }

  /** BigInt.toString. */
  function Print(n: nat): (s: string)
    ensures Canonical(s) && ValueOf(s) == n
  {
    if n < 10 then
      var s := [Digit(n)];
      assert s[..0] == "";
      s
    else
      var s := Print(n / 10) + [Digit(n % 10)];
      assert s[..|s| - 1] == Print(n / 10);
      s
  }

  function Zeros(n: nat): (s: string)
    ensures |s| == n && IsDigits(s) && forall i :: 0 <= i < n ==> s[i] == '0'
  {
    if n == 0 then "" else Zeros(n - 1) + "0"
  }

  function StripLeading(s: string): (t: string)
    ensures IsDigits(s) ==> IsDigits(t)
    ensures |t| <= |s| && (t != "" ==> t[0] != '0')
  {
    if s != "" && s[0] == '0' then StripLeading(s[1..]) else s
  }

  function TrimTrailing(s: string): (t: string)
    ensures IsDigits(s) ==> IsDigits(t)
    ensures |t| <= |s| && (t != "" ==> t[|t| - 1] != '0')
  {
    if s != "" && s[|s| - 1] == '0' then TrimTrailing(s[..|s| - 1]) else s
  }

  lemma {:induction false} PowAdd(m: nat, n: nat)
    ensures Pow10(m + n) == Pow10(m) * Pow10(n)
  {
    if m > 0 {
      PowAdd(m - 1, n);
    }
  }

  lemma Shift(v: nat, p: nat, u: nat)
    ensures (v * p + u) * 10 == v * (10 * p) + u * 10
  {
  }

  lemma {:induction false} ValueAppend(s: string, t: string)
    requires IsDigits(s) && IsDigits(t)
    ensures IsDigits(s + t)
    ensures ValueOf(s + t) == ValueOf(s) * Pow10(|t|) + ValueOf(t)
  {
    if t == "" {
      assert s + t == s;
    } else {
      ValueAppend(s, t[..|t| - 1]);
      assert (s + t)[..|s + t| - 1] == s + t[..|t| - 1];
      Shift(ValueOf(s), Pow10(|t| - 1), ValueOf(t[..|t| - 1]));
    }
  }

  lemma {:induction false} ValueBelow(s: string)
    requires IsDigits(s)
    ensures ValueOf(s) < Pow10(|s|)
  {
    if s != "" {
      ValueBelow(s[..|s| - 1]);
    }
  }

  lemma {:induction false} ZerosValue(n: nat)
    ensures ValueOf(Zeros(n)) == 0
  {
    if n > 0 {
      ZerosValue(n - 1);
      assert Zeros(n)[..n - 1] == Zeros(n - 1);
    }
  }

  /** A canonical numeral with two digits or more is worth at least its leading digit's place. */
  lemma {:induction false} CanonicalAtLeast(s: string)
    requires Canonical(s) && s[0] != '0'
    ensures ValueOf(s) >= Pow10(|s| - 1)
  {
    if |s| == 1 {
      assert s[..0] == "";
    } else {
      CanonicalAtLeast(s[..|s| - 1]);
    }
  }

  /** Printing a value gives back the one canonical numeral it has. */
  lemma {:induction false} PrintValue(s: string)
    requires Canonical(s)
    ensures Print(ValueOf(s)) == s
  {
    if |s| == 1 {
      assert s[..0] == "";
    } else {
      var front := s[..|s| - 1];
      PrintValue(front);
      CanonicalAtLeast(front);
      assert ValueOf(s) / 10 == ValueOf(front);
      assert s == front + [s[|s| - 1]];
    }
  }

  lemma {:induction false} StripLeadingRestores(s: string)
    requires IsDigits(s)
    ensures s == Zeros(|s| - |StripLeading(s)|) + StripLeading(s)
  {
    if s != "" && s[0] == '0' {
      StripLeadingRestores(s[1..]);
      var t := StripLeading(s);
      var k := |s| - |t|;
      assert s[1..] == Zeros(k - 1) + t;
      assert s == ['0'] + s[1..];
    }
  }

  lemma {:induction false} StripKeepsValue(s: string)
    requires IsDigits(s)
    ensures ValueOf(StripLeading(s)) == ValueOf(s)
  {
    if s != "" && s[0] == '0' {
      StripKeepsValue(s[1..]);
      ValueAppend(s[..1], s[1..]);
      assert s == s[..1] + s[1..] && ValueOf(s[..1]) == 0;
    }
  }

  /** Printing the value of any digit string strips its leading zeros. */
  lemma PrintStrips(s: string)
    requires IsDigits(s)
    ensures Print(ValueOf(s)) == if StripLeading(s) == "" then "0" else StripLeading(s)
  {
    StripKeepsValue(s);
    if StripLeading(s) != "" {
      PrintValue(StripLeading(s));
    }
  }

  function PadStart(s: string, n: nat): string {
    if |s| < n then Zeros(n - |s|) + s else s
  }

  /** A positive value padded to a length is the digit string of that length with that value. */
  lemma PadStartPrint(s: string)
    requires IsDigits(s) && ValueOf(s) > 0
    ensures PadStart(Print(ValueOf(s)), |s|) == s
  {
    PrintStrips(s);
    StripKeepsValue(s);
    StripLeadingRestores(s);
  }

  lemma {:induction false} TrimTrailingRestores(s: string)
    requires IsDigits(s)
    ensures s == TrimTrailing(s) + Zeros(|s| - |TrimTrailing(s)|)
  {
    if s != "" && s[|s| - 1] == '0' {
      TrimTrailingRestores(s[..|s| - 1]);
      assert s == s[..|s| - 1] + "0";
    }
  }

  lemma {:induction false} TrimIgnoresZeros(s: string, n: nat)
    ensures TrimTrailing(s + Zeros(n)) == TrimTrailing(s)
  {
    if n == 0 {
      assert s + Zeros(0) == s;
    } else {
      TrimIgnoresZeros(s, n - 1);
      assert (s + Zeros(n))[..|s| + n - 1] == s + Zeros(n - 1);
    }
  }

  /** big.Int.SetString in base 10: an optional sign and at least one digit. */
  function ParseInt(s: string): Option<int> {
    var body := if s != "" && (s[0] == '+' || s[0] == '-') then s[1..] else s;
    if body == "" || !IsDigits(body) then None
    else
      var n: int := ValueOf(body);
      Some(if s[0] == '-' then -n else n)
  }

  lemma PrintParses(value: nat)
    ensures Print(value) != "" && ParseInt(Print(value)) == Some(value)
  {
    assert IsDigit(Print(value)[0]);
  }

  /** A text is an integer exactly when it is a nonempty run of digits, perhaps after one sign. */
  lemma ParsesExactly(s: string, n: int)
    ensures ParseInt(s) == Some(n) <==>
            exists digits: string ::
              && digits != "" && IsDigits(digits)
              && ((s == digits && n == ValueOf(digits))
                  || (s == "+" + digits && n == ValueOf(digits))
                  || (s == "-" + digits && 0 - n == ValueOf(digits)))
  {
    var body := if s != "" && (s[0] == '+' || s[0] == '-') then s[1..] else s;
    if ParseInt(s) == Some(n) {
      assert s == body || s == [s[0]] + body;
      assert body != "" && IsDigits(body);
    }
    forall digits: string
      | digits != "" && IsDigits(digits) && (s == digits || s == "+" + digits || s == "-" + digits)
      ensures body == digits
    {
      assert IsDigit(digits[0]);
    }
  }
}
