/** Decimal text of integers: what `fmt.Sprintf("%d", n)` prints and what
    `strconv.ParseInt(s, 10, 64)` and `strconv.Atoi` accept. */
module Decimal {
  import opened Common
  import opened GoInt

  predicate IsDigit(c: char) {
    '0' <= c <= '9'
  }

  predicate AllDigits(s: string) {
    forall i :: 0 <= i < |s| ==> IsDigit(s[i])
  }

  function DigitChar(d: nat): (c: char)
    requires d < 10
    ensures IsDigit(c)
  {
    (48 + d) as char
  }

  function DigitValue(c: char): (d: nat)
    requires IsDigit(c)
    ensures d < 10
  {
    c as int - 48
  }

  /** The digits of `n`, most significant first, with no leading zero. */
  function NatDigits(n: nat): (s: string)
    ensures |s| >= 1 && AllDigits(s)
    ensures n >= 10 ==> s[0] != '0'
    decreases n
  {
    if n < 10 then [DigitChar(n)] else NatDigits(n / 10) + [DigitChar(n % 10)]
  }

  /** `%d`: a minus sign for negative values, then the digits. */
  function FormatInt(n: int): (s: string)
    ensures |s| >= 1
    ensures s[0] == '-' <==> n < 0
    ensures n >= 0 ==> AllDigits(s)
  {
    if n < 0 then "-" + NatDigits(-n) else NatDigits(n)
  }

  /** The number a string of decimal digits denotes (leading zeros allowed). */
  function DigitsValue(s: string): nat
    requires AllDigits(s)
  {
    if s == [] then 0 else DigitsValue(s[..|s| - 1]) * 10 + DigitValue(s[|s| - 1])
  }

  /** `strconv.ParseInt(s, 10, 64)`; `strconv.Atoi` behaves the same where
      `int` is 64 bits: an optional sign, at least one digit and nothing else,
      and a value that fits in 64 bits. `None` stands for the returned error. */
  function ParseInt(s: string): (r: Option<int>)
    ensures r.Some? ==> InInt64(r.value)
    ensures r.Some? ==> |s| >= 1
    // digits alone, leading zeros allowed: "007" is 7
    ensures |s| >= 1 && AllDigits(s) ==>
      r == if DigitsValue(s) <= MaxInt64 then Some(DigitsValue(s) as int) else None
    // a '+' in front changes nothing, a '-' negates
    ensures |s| >= 2 && s[0] == '+' && AllDigits(s[1..]) ==>
      r == if DigitsValue(s[1..]) <= MaxInt64 then Some(DigitsValue(s[1..]) as int) else None
    ensures |s| >= 2 && s[0] == '-' && AllDigits(s[1..]) ==>
      r == if DigitsValue(s[1..]) <= -MinInt64 then Some(-(DigitsValue(s[1..]) as int)) else None
    // refused: the empty text, a lone sign, any other first character, and
    // any non-digit after the first character
    ensures s == "" || s == "+" || s == "-" ==> r == None
    ensures |s| >= 1 && !IsDigit(s[0]) && s[0] != '+' && s[0] != '-' ==> r == None
    ensures (exists i :: 1 <= i < |s| && !IsDigit(s[i])) ==> r == None
  {
    if |s| == 0 then None
    else
      var digits := if s[0] == '-' || s[0] == '+' then s[1..] else s;
      if |digits| == 0 || !AllDigits(digits) then None
      else
        var v: int := if s[0] == '-' then -(DigitsValue(digits) as int) else DigitsValue(digits);
        if InInt64(v) then Some(v) else None
  }

  lemma {:induction false} DigitsOfNatDigits(n: nat)
    ensures DigitsValue(NatDigits(n)) == n
    decreases n
  {
    if n >= 10 {
      var s := NatDigits(n);
      assert s[..|s| - 1] == NatDigits(n / 10);
      DigitsOfNatDigits(n / 10);
    }
  }

  /** Parsing what `%d` printed gives the number back. */
  lemma ParseFormatRoundTrip(n: int)
    requires InInt64(n)
    ensures ParseInt(FormatInt(n)) == Some(n)
  {
    var s := FormatInt(n);
    if n < 0 {
      var digits := NatDigits(-n);
      assert s == "-" + digits;
      assert s[0] == '-' && s[1..] == digits;
      DigitsOfNatDigits(-n);
      assert -(DigitsValue(digits) as int) == n;
    } else {
      assert s == NatDigits(n);
      assert IsDigit(s[0]);
      DigitsOfNatDigits(n);
      assert DigitsValue(s) == n;
    }
  }

  /** Distinct numbers print differently. */
  lemma FormatIntInjective(a: int, b: int)
    requires FormatInt(a) == FormatInt(b)
    ensures a == b
  {
    var s := FormatInt(a);
    if a < 0 {
      assert b < 0;
      assert s == "-" + NatDigits(-a) == "-" + NatDigits(-b);
      assert NatDigits(-a) == s[1..] == NatDigits(-b);
      DigitsOfNatDigits(-a);
      DigitsOfNatDigits(-b);
    } else {
      assert b >= 0;
      assert NatDigits(a) == s == NatDigits(b);
      DigitsOfNatDigits(a);
      DigitsOfNatDigits(b);
    }
  }
}
