/**
 * The two calls into Go's strconv package that the port resolver makes:
 * `strconv.ParseInt(s, 10, 64)` on host-port tokens and
 * `strconv.FormatInt(p, 10)` on candidate ports. Both are stated on ASCII
 * decimal text; integers are unbounded, so the int64 range is not modelled.
 */
module Strconv {
  import opened Wrappers

  predicate IsDigit(c: char) {
    '0' <= c <= '9'
  }

  predicate AllDigits(s: string) {
    forall i :: 0 <= i < |s| ==> IsDigit(s[i])
  }

  function DigitValue(c: char): nat
    requires IsDigit(c)
  {
    c as int - '0' as int
  }

  function DigitChar(d: nat): (c: char)
    requires d < 10
    ensures IsDigit(c) && DigitValue(c) == d
  {
    ('0' as int + d) as char
  }

  /** The number a run of decimal digits denotes, most significant digit first. */
  function DigitsValue(s: string): nat
    requires AllDigits(s)
    decreases |s|
  {
    if s == [] then 0 else 10 * DigitsValue(s[..|s| - 1]) + DigitValue(s[|s| - 1])
  }

  /**
   * `strconv.ParseInt(s, 10, 64)`: an optional leading '+', then one or more
   * decimal digits; any other text is an error (None). A leading '-' never
   * reaches this call in the resolver, because '-' is the range separator, so
   * every number it yields is a natural.
   */
  function ParseInt(s: string): Option<nat> {
    var body := if |s| > 0 && s[0] == '+' then s[1..] else s;
    if |body| > 0 && AllDigits(body) then Some(DigitsValue(body)) else None
  }

  /** `strconv.FormatInt(n, 10)` for n >= 0: the shortest decimal text of n. */
  function FormatNat(n: nat): (s: string)
    ensures |s| > 0 && AllDigits(s)
    ensures DigitsValue(s) == n
    ensures s[0] == '0' ==> n == 0
    decreases n
  {
    if n < 10 then [DigitChar(n)]
    else
      var init := FormatNat(n / 10);
      var s := init + [DigitChar(n % 10)];
      assert s[..|s| - 1] == init;
      s
  }

  /** `strconv.FormatInt(p, 10)`: a '-' sign, then the digits of |p|. */
  function FormatInt(p: int): (s: string)
    ensures p >= 0 ==> s == FormatNat(p)
    ensures p < 0 <==> (|s| > 0 && s[0] == '-')
  {
    if p < 0 then "-" + FormatNat(-p) else FormatNat(p)
  }

  /** Canonical decimal text: what FormatInt prints for a natural. */
  predicate Canonical(s: string) {
    |s| > 0 && AllDigits(s) && (s[0] == '0' ==> |s| == 1)
  }

  /** Parsing the printed form of a natural gives it back. */
  lemma ParseFormat(n: nat)
    ensures ParseInt(FormatInt(n)) == Some(n)
    ensures Canonical(FormatInt(n))
  {
  }

  lemma {:induction false} DigitsValuePositive(s: string)
    requires |s| > 0 && AllDigits(s) && s[0] != '0'
    ensures DigitsValue(s) >= 1
    decreases |s|
  {
    if |s| > 1 {
      DigitsValuePositive(s[..|s| - 1]);
    }
  }

  /** A digit's value names the digit. */
  lemma DigitRoundTrip(c: char)
    requires IsDigit(c)
    ensures DigitChar(DigitValue(c)) == c
  {
  }

  /** All but the last character of a canonical token of two or more digits is canonical. */
  lemma CanonicalInit(s: string)
    requires Canonical(s) && |s| > 1
    ensures Canonical(s[..|s| - 1])
  {
    var init := s[..|s| - 1];
    forall i | 0 <= i < |init| ensures IsDigit(init[i]) {
      assert init[i] == s[i];
    }
  }

  /** The printed form of 10 * n + d, for n >= 1, is that of n followed by the digit d. */
  lemma FormatAppend(n: nat, c: char)
    requires n >= 1 && IsDigit(c)
    ensures FormatNat(10 * n + DigitValue(c)) == FormatNat(n) + [c]
  {
    var v := 10 * n + DigitValue(c);
    assert v / 10 == n && v % 10 == DigitValue(c);
    DigitRoundTrip(c);
  }

  /** Printing the number a canonical token denotes gives the token back. */
  lemma {:induction false} FormatParse(s: string)
    requires Canonical(s)
    ensures ParseInt(s) == Some(DigitsValue(s))
    ensures FormatNat(DigitsValue(s)) == s
    decreases |s|
  {
    var init := s[..|s| - 1];
    var last := s[|s| - 1];
    if |s| == 1 {
      DigitRoundTrip(last);
      assert s == [last];
    } else {
      CanonicalInit(s);
      DigitsValuePositive(init);
      FormatParse(init);
      FormatAppend(DigitsValue(init), last);
      assert s == init + [last];
    }
    CanonicalParses(s);
  }

  /** A canonical token parses to the number its digits denote. */
  lemma CanonicalParses(s: string)
    requires Canonical(s)
    ensures ParseInt(s) == Some(DigitsValue(s))
  {
    assert s[0] != '+';
  }

  /** A '+' sign does not change the value: "+8080" parses as 8080. */
  lemma ParsePlusSign(s: string)
    requires |s| > 0 && s[0] != '+'
    ensures ParseInt("+" + s) == ParseInt(s)
  {
    assert ("+" + s)[1..] == s;
  }

  /** A '0' in front of digits is still digits. */
  lemma ZeroDigits(s: string)
    requires AllDigits(s)
    ensures AllDigits("0" + s)
  {
    var z := "0" + s;
    forall i | 0 <= i < |z| ensures IsDigit(z[i]) {
      if i > 0 {
        assert z[i] == s[i - 1];
      }
    }
  }

  /** A '0' in front does not change the number digits denote. */
  lemma {:induction false} ZeroValue(s: string)
    requires AllDigits(s)
    ensures AllDigits("0" + s) && DigitsValue("0" + s) == DigitsValue(s)
    decreases |s|
  {
    ZeroDigits(s);
    var z := "0" + s;
    if s == [] {
      assert z[..0] == [];
    } else {
      var init := s[..|s| - 1];
      assert AllDigits(init);
      assert z[..|z| - 1] == "0" + init;
      ZeroValue(init);
    }
  }

  /** Leading zeros do not change the value: "08080" parses as 8080. */
  lemma ParseLeadingZero(s: string)
    requires |s| > 0 && AllDigits(s)
    ensures ParseInt("0" + s) == ParseInt(s)
  {
    ZeroValue(s);
  }
}
