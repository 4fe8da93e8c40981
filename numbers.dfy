/**
 * The integer type the API records use (`i32`) and its decimal rendering
 * (`i32::to_string`), together with a decimal reader that inverts it.
 */
module Numbers {
  import opened Wrappers

  /** Rust's 32-bit signed integer. */
  newtype i32 = x: int | -0x8000_0000 <= x < 0x8000_0000

  predicate IsDigit(c: char)
  {
    '0' <= c <= '9'
  }

  function DigitChar(d: nat): (c: char)
    requires d < 10
    ensures IsDigit(c)
  {
    ('0' as int + d) as char
  }

  function DigitValue(c: char): (d: nat)
    requires IsDigit(c)
    ensures d < 10
  {
    c as int - '0' as int
  }

  /** The decimal digits of `n`, most significant first, without leading zeros. */
  function NatToString(n: nat): (s: string)
    ensures |s| > 0 && forall k :: 0 <= k < |s| ==> IsDigit(s[k])
    ensures s[0] == '0' ==> n == 0 && |s| == 1
    decreases n
  {
    if n < 10 then [DigitChar(n)] else NatToString(n / 10) + [DigitChar(n % 10)]
  }

  /** `to_string` on an integer: a leading `-` for negative values, then the digits. */
  function IntToString(n: int): (s: string)
    ensures |s| > 0
    ensures (n < 0) == (s[0] == '-')
    ensures n < 0 ==> s[1..] == NatToString(-n)
  {
    if n < 0 then "-" + NatToString(-n) else NatToString(n)
  }

  /** Reads a non-empty run of decimal digits. */
  function ParseDigits(s: string): (r: Option<nat>)
    decreases |s|
  {
    if s == [] || !IsDigit(s[|s| - 1]) then None
    else if |s| == 1 then Some(DigitValue(s[0]))
    else
      match ParseDigits(s[..|s| - 1])
      case None => None
      case Some(v) => Some(10 * v + DigitValue(s[|s| - 1]))
  }

  /** Reads an optionally negative decimal integer. */
  function ParseInt(s: string): (r: Option<int>)
  {
    if |s| > 0 && s[0] == '-' then
      match ParseDigits(s[1..])
      case None => None
      case Some(v) => Some(-(v as int))
    else
      match ParseDigits(s)
      case None => None
      case Some(v) => Some(v as int)
  }

  lemma {:induction false} NatRoundTrip(n: nat)
    ensures ParseDigits(NatToString(n)) == Some(n)
    decreases n
  {
    if n >= 10 {
      var s := NatToString(n);
      assert s[..|s| - 1] == NatToString(n / 10);
      NatRoundTrip(n / 10);
    }
  }

  /** Reading back the rendering of any integer gives that integer. */
  lemma IntRoundTrip(n: int)
    ensures ParseInt(IntToString(n)) == Some(n)
  {
    if n < 0 {
      NegativeRoundTrip(-n);
    } else {
      NonNegativeRoundTrip(n);
    }
  }

  lemma NegativeRoundTrip(m: nat)
    ensures ParseInt("-" + NatToString(m)) == Some(-(m as int))
  {
    var t := NatToString(m);
    var s := "-" + t;
    assert s[0] == '-' && s[1..] == t;
    NatRoundTrip(m);
  }

  lemma NonNegativeRoundTrip(m: nat)
    ensures ParseInt(NatToString(m)) == Some(m as int)
  {
    var t := NatToString(m);
    assert IsDigit(t[0]);
    NatRoundTrip(m);
  }

  /** A run of decimal digits with no leading zero, as `to_string` writes one. */
  predicate CanonicalDigits(s: string)
  {
    |s| > 0 && (forall k :: 0 <= k < |s| ==> IsDigit(s[k])) && (s[0] == '0' ==> |s| == 1)
  }

  /** An optional `-` and canonical digits, with no `-0`. */
  predicate CanonicalInt(s: string)
  {
    if |s| > 0 && s[0] == '-' then CanonicalDigits(s[1..]) && s[1..] != "0" else CanonicalDigits(s)
  }

  lemma DigitCharValue(c: char)
    requires IsDigit(c)
    ensures DigitChar(DigitValue(c)) == c
  {
  }

  /** Canonical digits are the only ones that read back to their value. */
  lemma {:induction false} CanonicalDigitsUnique(s: string, n: nat)
    requires CanonicalDigits(s) && ParseDigits(s) == Some(n)
    ensures s == NatToString(n)
    decreases |s|
  {
    var c := s[|s| - 1];
    DigitCharValue(c);
    if |s| > 1 {
      var init := s[..|s| - 1];
      var v := ParseDigits(init).value;
      assert CanonicalDigits(init) by {
        assert init[0] == s[0];
        forall k | 0 <= k < |init| ensures IsDigit(init[k]) {
          assert init[k] == s[k];
        }
      }
      CanonicalDigitsUnique(init, v);
      assert init[0] != '0';
      assert n == 10 * v + DigitValue(c);
      assert n / 10 == v && n % 10 == DigitValue(c);
      assert s == init + [c];
    }
  }

  /**
   * `IntToString(n)` is the only canonical text that reads back to `n`: the
   * rendering never has a leading zero or a `-0`.
   */
  lemma IntToStringUnique(s: string, n: int)
    requires CanonicalInt(s) && ParseInt(s) == Some(n)
    ensures s == IntToString(n)
  {
    if |s| > 0 && s[0] == '-' {
      var m := ParseDigits(s[1..]).value;
      CanonicalDigitsUnique(s[1..], m);
      assert s == "-" + s[1..];
      assert m != 0;
    } else {
      CanonicalDigitsUnique(s, ParseDigits(s).value);
    }
  }

  /** The rendering of any integer is canonical. */
  lemma IntToStringCanonical(n: int)
    ensures CanonicalInt(IntToString(n))
  {
    if n < 0 {
      assert NatToString(-n) != "0";
    }
  }

  /** The rendering is injective: distinct integers render differently. */
  lemma IntToStringInjective(m: int, n: int)
    requires IntToString(m) == IntToString(n)
    ensures m == n
  {
    IntRoundTrip(m);
    IntRoundTrip(n);
  }
}
