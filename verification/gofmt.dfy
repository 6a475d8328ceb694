/** The part of Go's `fmt` package the use cases rely on: `fmt.Sprint`
    applied to a string, an integer and a string. `Sprint` puts a space
    between two operands only when neither is a string, so such a call is
    plain concatenation around the integer's decimal rendering. */
module GoFmt {
  import opened Optional

  predicate IsDigit(c: char) {
    '0' <= c <= '9'
  }

  predicate AllDigits(s: string) {
    forall i :: 0 <= i < |s| ==> IsDigit(s[i])
  }

  function DigitChar(d: int): char
    requires 0 <= d < 10
  {
    (48 + d) as char
  }

  function DigitValue(c: char): int
    requires IsDigit(c)
  {
    c as int - 48
  }

  /** A digit string as the formatter writes it: at least one digit and no
      leading zero unless the string is "0" itself. */
  predicate Canonical(s: string) {
    |s| >= 1 && AllDigits(s) && (s[0] == '0' ==> |s| == 1)
  }

  /** The base-10 digits of `n`, most significant first. */
  function NatDigits(n: nat): (r: string)
    ensures Canonical(r)
    ensures n >= 10 ==> |r| >= 2
    decreases n
  {
    if n < 10 then [DigitChar(n)]
    else
      var p := NatDigits(n / 10);
      assert p[0] != '0';
      p + [DigitChar(n % 10)]
  }

  /** The decimal rendering `fmt` gives an integer: a '-' sign for a
      negative value, then the digits of its magnitude. */
  function Decimal(n: int): (r: string)
    ensures n >= 0 ==> Canonical(r)
    ensures n < 0 ==> |r| >= 2 && r[0] == '-' && r[1] != '0' && Canonical(r[1..])
    ensures r == "0" <==> n == 0
  {
    if n < 0 then "-" + NatDigits(-n) else NatDigits(n)
  }

  /** The value of a string of digits, read most significant first. */
  function DigitsValue(s: string): nat
    requires AllDigits(s)
    decreases |s|
  {
    if s == [] then 0 else DigitsValue(s[..|s| - 1]) * 10 + DigitValue(s[|s| - 1])
  }

  /** Reads back exactly the strings that `Decimal` produces. */
  function ParseDecimal(s: string): Option<int> {
    if |s| >= 2 && s[0] == '-' && s[1] != '0' && Canonical(s[1..]) then Some(-(DigitsValue(s[1..]) as int))
    else if Canonical(s) then Some(DigitsValue(s))
    else None
  }

  lemma {:induction false} DigitsValueOfNatDigits(n: nat)
    ensures DigitsValue(NatDigits(n)) == n
    decreases n
  {
    if n >= 10 {
      DigitsValueOfNatDigits(n / 10);
      var s := NatDigits(n);
      assert s[..|s| - 1] == NatDigits(n / 10);
    }
  }

  lemma {:induction false} LeadingDigitPositive(s: string)
    requires |s| >= 1 && AllDigits(s) && s[0] != '0'
    ensures DigitsValue(s) >= 1
    decreases |s|
  {
    if |s| > 1 {
      LeadingDigitPositive(s[..|s| - 1]);
    }
  }

  lemma {:induction false} NatDigitsOfDigitsValue(s: string)
    requires Canonical(s)
    ensures NatDigits(DigitsValue(s)) == s
    decreases |s|
  {
    if |s| > 1 {
      var p := s[..|s| - 1];
      var d := DigitValue(s[|s| - 1]);
      LeadingDigitPositive(p);
      NatDigitsOfDigitsValue(p);
      var n := DigitsValue(s);
      assert n == DigitsValue(p) * 10 + d;
      assert n / 10 == DigitsValue(p) && n % 10 == d;
      assert DigitChar(d) == s[|s| - 1];
      assert s == p + [s[|s| - 1]];
    } else {
      assert DigitsValue(s) == DigitValue(s[0]);
    }
  }

  /** Reading a rendering gives back the integer rendered. */
  lemma DecimalRoundTrip(n: int)
    ensures ParseDecimal(Decimal(n)) == Some(n)
  {
    var s := Decimal(n);
    if n < 0 {
      var d := NatDigits(-n);
      assert s == "-" + d;
      assert s[1..] == d;
      DigitsValueOfNatDigits(-n);
      assert ParseDecimal(s) == Some(-(DigitsValue(d) as int));
    } else {
      assert s == NatDigits(n);
      DigitsValueOfNatDigits(n);
      assert !(|s| >= 2 && s[0] == '-');
    }
  }

  /** Whatever `ParseDecimal` accepts is the rendering of what it returns. */
  lemma ParseDecimalSound(s: string, n: int)
    requires ParseDecimal(s) == Some(n)
    ensures Decimal(n) == s
  {
    if |s| >= 2 && s[0] == '-' && s[1] != '0' && Canonical(s[1..]) {
      LeadingDigitPositive(s[1..]);
      NatDigitsOfDigitsValue(s[1..]);
      assert s == "-" + s[1..];
    } else {
      NatDigitsOfDigitsValue(s);
    }
  }

  /** Distinct integers have distinct renderings. */
  lemma DecimalInjective(m: int, n: int)
    ensures Decimal(m) == Decimal(n) <==> m == n
  {
    DecimalRoundTrip(m);
    DecimalRoundTrip(n);
  }

  /** `fmt.Sprint(prefix, n, suffix)` for string operands around an integer. */
  function SprintCount(prefix: string, n: int, suffix: string): (r: string)
    ensures |prefix| + |suffix| < |r|
    ensures r[..|prefix|] == prefix && r[|r| - |suffix|..] == suffix
    ensures ParseDecimal(r[|prefix|..|r| - |suffix|]) == Some(n)
  {
    var r := prefix + Decimal(n) + suffix;
    assert r[|prefix|..|r| - |suffix|] == Decimal(n);
    DecimalRoundTrip(n);
    r
  }

  /** Recovers the integer from a message of the form
      `SprintCount(prefix, n, "")`. */
  function ParseCount(prefix: string, msg: string): Option<int> {
    if |prefix| <= |msg| && msg[..|prefix|] == prefix then ParseDecimal(msg[|prefix|..]) else None
  }

  /** The count in a message reads back, and a message that reads back as
      `n` is exactly the one rendered from `n`. */
  lemma CountMessageRoundTrip(prefix: string, n: int, msg: string)
    ensures ParseCount(prefix, SprintCount(prefix, n, "")) == Some(n)
    ensures ParseCount(prefix, msg) == Some(n) ==> msg == SprintCount(prefix, n, "")
  {
    var m := SprintCount(prefix, n, "");
    assert m[..|prefix|] == prefix;
    assert m[|prefix|..] == Decimal(n);
    DecimalRoundTrip(n);
    if ParseCount(prefix, msg) == Some(n) {
      ParseDecimalSound(msg[|prefix|..], n);
      assert msg == msg[..|prefix|] + msg[|prefix|..];
    }
  }
}
