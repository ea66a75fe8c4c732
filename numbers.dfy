/** The vote count as the page holds it: a JavaScript number that is either an integer
    or NaN, together with the two conversions the page applies to it, `toString()` when
    it persists the count and `parseInt` when it reads the count back. */
module Numbers {
  import opened Wrappers

  /** A JavaScript number restricted to the values the vote count can take. */
  datatype Num = Int(value: int) | NaN {
    /** The `++` operator: NaN stays NaN. */
    function Inc(): Num {
      match this
      case Int(n) => Int(n + 1)
      case NaN => NaN
    }
  }

  predicate IsDigit(c: char) {
    '0' <= c <= '9'
  }

  predicate AllDigits(s: string) {
    forall i :: 0 <= i < |s| ==> IsDigit(s[i])
  }

  function DigitValue(c: char): (d: nat)
    requires IsDigit(c)
    ensures d < 10
  {
    c as int - '0' as int
  }

  function DigitChar(d: nat): (c: char)
    requires d < 10
    ensures IsDigit(c) && DigitValue(c) == d
  {
    ('0' as int + d) as char
  }

  /** Decimal digits of a non-negative integer, most significant first, no leading zero. */
  function NatDigits(n: nat): (s: string)
    ensures |s| > 0 && AllDigits(s)
    ensures |s| > 1 ==> s[0] != '0'
  {
    if n < 10 then [DigitChar(n)] else NatDigits(n / 10) + [DigitChar(n % 10)]
  }

  /** `Number.prototype.toString()` on an integer value. */
  function IntToString(n: int): string {
    if n < 0 then "-" + NatDigits(-n) else NatDigits(n)
  }

  /** `Number.prototype.toString()` on the count. */
  function NumToString(x: Num): (s: string)
    ensures s != ""
  {
    match x
    case Int(n) => IntToString(n)
    case NaN => "NaN"
  }

  /** The longest prefix of `s` made of decimal digits. */
  function DigitPrefix(s: string): (p: string)
    ensures p <= s && AllDigits(p)
    ensures |p| < |s| ==> !IsDigit(s[|p|])
  {
    if s != [] && IsDigit(s[0]) then [s[0]] + DigitPrefix(s[1..]) else []
  }

  /** The value of a digit string read from left to right. */
  function DigitsValue(ds: string): nat
    requires AllDigits(ds)
  {
    if ds == [] then 0 else DigitsValue(ds[..|ds| - 1]) * 10 + DigitValue(ds[|ds| - 1])
  }

  /** The sign `parseInt` reads before the digits, and the text after it. */
  function SplitSign(s: string): (int, string) {
    if s != [] && s[0] == '-' then (-1, s[1..])
    else if s != [] && s[0] == '+' then (1, s[1..])
    else (1, s)
  }

  /** `parseInt(s)` in base ten: an optional sign, then as many digits as there are;
      None (NaN) when no digit follows the sign. Text after the digits is ignored. */
  function ParseInt(s: string): (r: Option<int>)
    ensures r.None? <==> DigitPrefix(SplitSign(s).1) == []
    ensures r.Some? && s != [] && '0' <= s[0] <= '9' ==> r.value >= 0
  {
    var (sign, rest) := SplitSign(s);
    var ds := DigitPrefix(rest);
    if ds == [] then None else Some(sign * DigitsValue(ds))
  }

  /** `parseInt(s)` as a number: NaN when it finds no digit. */
  function ParseNum(s: string): Num {
    match ParseInt(s)
    case Some(n) => Int(n)
    case None => NaN
  }

  lemma {:induction false} DigitPrefixOfDigits(ds: string, tail: string)
    requires AllDigits(ds)
    requires tail == [] || !IsDigit(tail[0])
    ensures DigitPrefix(ds + tail) == ds
  {
    if ds != [] {
      assert (ds + tail)[1..] == ds[1..] + tail;
      DigitPrefixOfDigits(ds[1..], tail);
    } else {
      assert ds + tail == tail;
    }
  }

  lemma {:induction false} DigitsValueOfNatDigits(n: nat)
    ensures DigitsValue(NatDigits(n)) == n
  {
    if n >= 10 {
      var s := NatDigits(n);
      assert s[..|s| - 1] == NatDigits(n / 10);
      DigitsValueOfNatDigits(n / 10);
    }
  }

  /** `parseInt` reads back what `toString()` wrote, and stops at the first character
      after it that is not a digit. */
  lemma IntToStringParses(n: int, tail: string)
    requires tail == [] || !IsDigit(tail[0])
    ensures ParseInt(IntToString(n) + tail) == Some(n)
  {
    var m := if n < 0 then -n else n;
    DigitPrefixOfDigits(NatDigits(m), tail);
    DigitsValueOfNatDigits(m);
    if n < 0 {
      assert ("-" + NatDigits(m) + tail)[1..] == NatDigits(m) + tail;
    } else {
      assert NatDigits(m)[0] != '-' && NatDigits(m)[0] != '+';
    }
  }

  /** Persisting the count and reading it back gives the same count, NaN included. */
  lemma NumRoundTrip(x: Num)
    ensures ParseNum(NumToString(x)) == x
  {
    if x.Int? {
      IntToStringParses(x.value, []);
      assert IntToString(x.value) + [] == IntToString(x.value);
    }
  }
}
