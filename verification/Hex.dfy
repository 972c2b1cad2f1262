/** ASCII text and hexadecimal addresses, as strings.EqualFold, strings.TrimSpace and HexToAddress read them. */
module Hex {
  import opened Evm

  function LowerChar(c: char): char {
    if 'A' <= c <= 'Z' then c + 32 as char else c
  }

  function Lower(s: string): (t: string)
    ensures |t| == |s| && forall i :: 0 <= i < |s| ==> t[i] == LowerChar(s[i])
  {
    seq(|s|, i requires 0 <= i < |s| => LowerChar(s[i]))
  }

  predicate EqualFold(a: string, b: string) {
    Lower(a) == Lower(b)
  }

  predicate IsSpace(c: char) {
    c == ' ' || '\t' <= c <= '\r'
  }

  function TrimSpace(s: string): string {
    if s == "" then s
    else if IsSpace(s[0]) then TrimSpace(s[1..])
    else if IsSpace(s[|s| - 1]) then TrimSpace(s[..|s| - 1])
    else s
  }

  /** Equal up to case: the same characters, but for letters 32 code points apart. */
  lemma EqualFoldExactly(a: string, b: string)
    ensures EqualFold(a, b) <==>
            && |a| == |b|
            && forall i :: 0 <= i < |a| ==>
                 || a[i] == b[i]
                 || ('A' <= a[i] <= 'Z' && a[i] as int + 32 == b[i] as int)
                 || ('A' <= b[i] <= 'Z' && b[i] as int + 32 == a[i] as int)
  {
    if EqualFold(a, b) {
      forall i | 0 <= i < |a|
        ensures LowerChar(a[i]) == LowerChar(b[i])
      {
        assert Lower(a)[i] == Lower(b)[i];
      }
    }
  }

  predicate AllSpace(s: string) {
    forall i :: 0 <= i < |s| ==> s[i] in [' ', '\t', '\n', 11 as char, 12 as char, '\r']
  }

  lemma {:induction false} TrimsLeft(left: string, s: string)
    requires AllSpace(left)
    ensures TrimSpace(left + s) == TrimSpace(s)
  {
    if left == "" {
      assert left + s == s;
    } else {
      assert (left + s)[1..] == left[1..] + s && IsSpace((left + s)[0]);
      TrimsLeft(left[1..], s);
    }
  }

  lemma {:induction false} TrimsRight(s: string, right: string)
    requires AllSpace(right) && s != "" && !IsSpace(s[0]) && !IsSpace(s[|s| - 1])
    ensures TrimSpace(s + right) == s
  {
    var t := s + right;
    if right == "" {
      assert t == s;
    } else {
      var rest := right[..|right| - 1];
      assert t[..|t| - 1] == s + rest && t[0] == s[0] && IsSpace(t[|t| - 1]);
      TrimsRight(s, rest);
    }
  }

  /** Trimming removes the spaces around a text and nothing else. */
  lemma TrimsAround(left: string, s: string, right: string)
    requires AllSpace(left) && AllSpace(right)
    requires s != "" ==> !IsSpace(s[0]) && !IsSpace(s[|s| - 1])
    ensures TrimSpace(left + s + right) == s
  {
    assert left + s + right == left + (s + right);
    TrimsLeft(left, s + right);
    if s == "" {
      TrimsLeft(right, "");
      assert right + "" == right && s + right == right;
    } else {
      TrimsRight(s, right);
    }
  }

  predicate IsHex(c: char) {
    '0' <= c <= '9' || 'a' <= c <= 'f' || 'A' <= c <= 'F'
  }

  function HexDigit(c: char): nat
    requires IsHex(c)
  {
    if c <= '9' then c as int - '0' as int
    else if c <= 'F' then c as int - 'A' as int + 10
    else c as int - 'a' as int + 10
  }

  predicate AllHex(s: string) {
    forall i :: 0 <= i < |s| ==> IsHex(s[i])
  }

  function HexValue(s: string): nat
    requires AllHex(s)
  {
    if s == "" then 0 else HexValue(s[..|s| - 1]) * 16 + HexDigit(s[|s| - 1])
  }

  /** The whole bytes hex decoding yields before the first bad pair. */
  function Decoded(s: string): (t: string)
    ensures AllHex(t)
  {
    if |s| < 2 || !IsHex(s[0]) || !IsHex(s[1]) then "" else s[..2] + Decoded(s[2..])
  }

  predicate HasPrefix0x(s: string) {
    |s| >= 2 && s[..2] == "0x"
  }

  const ADDRESS_LIMIT: nat := 0x1_0000_0000_0000_0000_0000_0000_0000_0000_0000_0000

  function AddressOf(n: nat): Address {
    if n == 0 then Null else Account(n)
  }

  /** common.HexToAddress: drops the prefix, pads an odd length, keeps the last 20 bytes. */
  function HexToAddress(s: string): Address {
    var body := if |s| >= 2 && (s[..2] == "0x" || s[..2] == "0X") then s[2..] else s;
    AddressOf(HexValue(Decoded(if |body| % 2 == 1 then "0" + body else body)) % ADDRESS_LIMIT)
  }

  /** "0x" and forty hexadecimal digits. */
  predicate WellFormed(s: string) {
    |s| == 42 && s[..2] == "0x" && AllHex(s[2..])
  }

  lemma {:induction false} DecodedAll(s: string)
    requires AllHex(s) && |s| % 2 == 0
    ensures Decoded(s) == s
  {
    if s != "" {
      DecodedAll(s[2..]);
      assert s == s[..2] + s[2..];
    }
  }

  function Pow16(n: nat): nat {
    if n == 0 then 1 else 16 * Pow16(n - 1)
  }

  lemma {:induction false} HexBelow(s: string)
    requires AllHex(s)
    ensures HexValue(s) < Pow16(|s|)
  {
    if s != "" {
      HexBelow(s[..|s| - 1]);
    }
  }

  lemma AddressLimit()
    ensures Pow16(40) == ADDRESS_LIMIT
  {
    assert Pow16(8) == 0x1_0000_0000;
    assert Pow16(16) == 0x1_0000_0000_0000_0000;
    assert Pow16(24) == 0x1_0000_0000_0000_0000_0000_0000;
    assert Pow16(32) == 0x1_0000_0000_0000_0000_0000_0000_0000_0000;
  }

  /** A well-formed address denotes its forty digits. */
  lemma WellFormedValue(s: string)
    requires WellFormed(s)
    ensures HexValue(s[2..]) < ADDRESS_LIMIT
    ensures HexToAddress(s) == AddressOf(HexValue(s[2..]))
  {
    DecodedAll(s[2..]);
    HexBelow(s[2..]);
    AddressLimit();
  }

  lemma HexPadded(s: string)
    requires AllHex(s)
    ensures AllHex("0" + s) && HexValue("0" + s) == HexValue(s)
  {
    if s != "" {
      HexPadded(s[..|s| - 1]);
      assert ("0" + s)[..|s|] == "0" + s[..|s| - 1];
    } else {
      assert ("0" + s)[..0] == "";
    }
  }

  lemma PaddedDecodes(digits: string)
    requires AllHex(digits)
    ensures HexValue(Decoded(if |digits| % 2 == 1 then "0" + digits else digits)) == HexValue(digits)
  {
    HexPadded(digits);
    DecodedAll(if |digits| % 2 == 1 then "0" + digits else digits);
  }

  /** Hexadecimal digits in any number, after a prefix in either case, denote their value modulo 2^160. */
  lemma DigitsDenote(prefix: string, digits: string)
    requires (prefix == "0x" || prefix == "0X") && AllHex(digits)
    ensures HexToAddress(prefix + digits) == AddressOf(HexValue(digits) % ADDRESS_LIMIT)
  {
    var s := prefix + digits;
    assert s[..2] == prefix && s[2..] == digits;
    PaddedDecodes(digits);
  }

  lemma DigitFold(c: char, d: char)
    requires IsHex(c) && IsHex(d)
    ensures HexDigit(c) == HexDigit(d) <==> LowerChar(c) == LowerChar(d)
  {
  }

  lemma LowerFront(s: string)
    requires s != ""
    ensures Lower(s) == Lower(s[..|s| - 1]) + [LowerChar(s[|s| - 1])]
  {
  }

  lemma {:induction false} HexFold(s: string, t: string)
    requires AllHex(s) && AllHex(t) && |s| == |t|
    ensures HexValue(s) == HexValue(t) <==> Lower(s) == Lower(t)
  {
    if s != "" {
      var n := |s| - 1;
      HexFold(s[..n], t[..n]);
      LowerFront(s);
      LowerFront(t);
      DigitFold(s[n], t[n]);
    } else {
      assert Lower(s) == Lower(t);
    }
  }

  /** Well-formed texts denote one address exactly when they differ only in case. */
  lemma SameAddress(s: string, t: string)
    requires WellFormed(s) && WellFormed(t)
    ensures HexToAddress(s) == HexToAddress(t) <==> EqualFold(s, t)
  {
    WellFormedValue(s);
    WellFormedValue(t);
    HexFold(s[2..], t[2..]);
    assert Lower(s)[2..] == Lower(s[2..]) && Lower(t)[2..] == Lower(t[2..]);
    assert Lower(s)[..2] == "0x" && Lower(t)[..2] == "0x";
    assert Lower(s) == Lower(s)[..2] + Lower(s)[2..] && Lower(t) == Lower(t)[..2] + Lower(t)[2..];
  }

  /** A well-formed address has no space to trim and is recognised by its prefix. */
  lemma WellFormedTrimmed(s: string)
    requires WellFormed(s)
    ensures TrimSpace(s) == s && HasPrefix0x(s)
  {
    assert s[0] == s[..2][0] && s[41] == s[2..][39];
  }

  lemma LowerWellFormed(s: string)
    requires WellFormed(s)
    ensures WellFormed(Lower(s)) && EqualFold(Lower(s), s) && HexToAddress(Lower(s)) == HexToAddress(s)
  {
    assert Lower(s)[..2] == "0x";
    assert AllHex(Lower(s)[2..]) by {
      forall i | 0 <= i < 40 ensures IsHex(Lower(s)[2..][i]) {
        assert Lower(s)[2..][i] == LowerChar(s[2..][i]);
      }
    }
    assert Lower(Lower(s)) == Lower(s);
    SameAddress(Lower(s), s);
  }

  function HexChar(d: nat): char
    requires d < 16
  {
    "0123456789abcdef"[d]
  }

  lemma {:induction false} HexDigitsOf(n: nat, d: nat) returns (s: string)
    requires n < Pow16(d)
    ensures AllHex(s) && |s| == d && HexValue(s) == n
  {
    if d == 0 {
      s := "";
    } else {
      var high := HexDigitsOf(n / 16, d - 1);
      s := high + [HexChar(n % 16)];
      assert s[..d - 1] == high && HexDigit(HexChar(n % 16)) == n % 16;
    }
  }

  /** Every 160-bit number is some well-formed text's address. */
  lemma TextOf(n: nat) returns (s: string)
    requires n < ADDRESS_LIMIT
    ensures WellFormed(s) && HexToAddress(s) == AddressOf(n)
  {
    AddressLimit();
    var digits := HexDigitsOf(n, 40);
    s := "0x" + digits;
    assert s[2..] == digits;
    WellFormedValue(s);
  }

  lemma {:induction false} CoveringNeedsLength(s: seq<nat>, k: nat)
    requires forall n :: 0 <= n < k ==> n in s
    ensures k <= |s|
  {
    if k > 0 {
      assert k - 1 in s;
      var i :| 0 <= i < |s| && s[i] == k - 1;
      var rest := s[..i] + s[i + 1..];
      forall n | 0 <= n < k - 1 ensures n in rest {
        assert n in s;
        var j :| 0 <= j < |s| && s[j] == n;
        assert rest[if j < i then j else j - 1] == n;
      }
      CoveringNeedsLength(rest, k - 1);
    }
  }

  /** Some number up to the length is missing from any list of numbers. */
  lemma Missing(s: seq<nat>) returns (n: nat)
    ensures n <= |s| && n !in s
  {
    if forall m :: 0 <= m < |s| + 1 ==> m in s {
      CoveringNeedsLength(s, |s| + 1);
    }
    n :| 0 <= n < |s| + 1 && n !in s;
  }
}
