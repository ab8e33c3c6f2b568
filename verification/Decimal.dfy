/** Decimal numerals: what an ostream writes for an unsigned value and what
    parseUnsignedIndex reads back. */
module Decimal {
  import opened Options

  const UINT_MAX: nat := 0xFFFF_FFFF

  predicate IsDigit(c: char) {
    '0' <= c <= '9'
  }

  ghost predicate AllDigits(s: string) {
    forall i :: 0 <= i < |s| ==> IsDigit(s[i])
  }

  function DigitValue(c: char): (d: nat)
    requires IsDigit(c)
    ensures d < 10
  {
    (c - '0') as nat
  }

  function DigitChar(d: nat): (c: char)
    requires d < 10
    ensures IsDigit(c) && DigitValue(c) == d
  {
    '0' + d as char
  }

  /** The number a numeral denotes, most significant digit first. */
  ghost function ValueOf(s: string): nat
    requires AllDigits(s)
  {
    if s == [] then 0 else 10 * ValueOf(s[..|s| - 1]) + DigitValue(s[|s| - 1])
  }

  function Render(n: nat): (s: string)
    ensures s != [] && AllDigits(s) && ValueOf(s) == n
  {
    if n < 10 then
      var s := [DigitChar(n)];
      assert s[..0] == [];
      s
    else
      var s := Render(n / 10) + [DigitChar(n % 10)];
      assert s[..|s| - 1] == Render(n / 10);
      s
  }

  /** parseUnsignedIndex: accepts exactly the non-empty digit strings whose value fits an
      unsigned, and returns that value; no intermediate step exceeds UINT_MAX. */
  method ParseUnsignedIndex(token: string) returns (r: Option<nat>)
    ensures r.Some? <==> token != [] && AllDigits(token) && ValueOf(token) <= UINT_MAX
    ensures r.Some? ==> r.value == ValueOf(token)
  {
    if token == [] {
      return None;
    }
    var value: nat := 0;
    for i := 0 to |token|
      invariant AllDigits(token[..i]) && value == ValueOf(token[..i]) <= UINT_MAX
    {
      assert token[..i + 1][..i] == token[..i];
      if !IsDigit(token[i]) {
        return None;
      }
      var digit := DigitValue(token[i]);
      assert value <= (UINT_MAX - digit) / 10 <==> 10 * value + digit <= UINT_MAX;
      if value > (UINT_MAX - digit) / 10 {
        if AllDigits(token) {
          PrefixValue(token, i + 1);
        }
        return None;
      }
      value := value * 10 + digit;
    }
    assert token[..|token|] == token;
    return Some(value);
  }

  lemma {:induction false} PrefixValue(s: string, n: nat)
    requires n <= |s| && AllDigits(s)
    ensures ValueOf(s[..n]) <= ValueOf(s)
    decreases |s|
  {
    if n == |s| {
      assert s[..n] == s;
    } else {
      PrefixValue(s[..|s| - 1], n);
      assert s[..|s| - 1][..n] == s[..n];
    }
  }
}
