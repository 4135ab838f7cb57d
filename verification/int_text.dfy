/** Python's `str(int(x))` on text: parse an optionally signed decimal integer
    and print it back in canonical form.  This is how the roster's SNC_ID and
    SDMS_ID values are brought to the form the database compares against. */
module IntText {
  import opened Cells

  predicate IsDigit(c: char)
  {
    '0' <= c <= '9'
  }

  /** A non-empty run of ASCII decimal digits. */
  predicate IsDigits(s: string)
  {
    |s| > 0 && forall i :: 0 <= i < |s| ==> IsDigit(s[i])
  }

  function DigitValue(c: char): nat
    requires IsDigit(c)
  {
    (c as int) - ('0' as int)
  }

  function Digit(d: nat): (c: char)
    requires d < 10
    ensures IsDigit(c) && DigitValue(c) == d
  {
    ('0' as int + d) as char
  }

  /** The value of a digit string read most-significant first. */
  function DigitsValue(s: string): nat
    requires forall i :: 0 <= i < |s| ==> IsDigit(s[i])
    decreases |s|
  {
    if |s| == 0 then 0 else 10 * DigitsValue(s[..|s| - 1]) + DigitValue(s[|s| - 1])
  }

  /** Text that Python's `int()` accepts in this model: an optional '+' or '-'
      followed by one or more decimal digits. */
  predicate IsIntText(s: string)
  {
    IsDigits(s) || (|s| >= 2 && (s[0] == '+' || s[0] == '-') && IsDigits(s[1..]))
  }

  /** `int(s)`, or None where Python raises ValueError. */
  function ParseInt(s: string): (r: Option<int>)
    ensures r.Some? <==> IsIntText(s)
  {
    if IsDigits(s) then Some(DigitsValue(s))
    else if |s| >= 2 && s[0] == '+' && IsDigits(s[1..]) then Some(DigitsValue(s[1..]))
    else if |s| >= 2 && s[0] == '-' && IsDigits(s[1..]) then Some(-(DigitsValue(s[1..]) as int))
    else None
  }

  /** `str(n)` for a natural number: digits only, no leading zero except "0" itself. */
  function NatText(n: nat): (s: string)
    ensures IsDigits(s)
    ensures s[0] == '0' <==> n == 0
    ensures n == 0 ==> s == "0"
    decreases n
  {
    if n < 10 then [Digit(n)] else NatText(n / 10) + [Digit(n % 10)]
  }

  /** `str(i)` for any integer. */
  function IntText(i: int): (s: string)
    ensures |s| > 0 && (s[0] == '-' <==> i < 0)
    ensures i >= 0 ==> IsDigits(s)
    ensures i < 0 ==> IsDigits(s[1..])
  {
    if i < 0 then
      var t := NatText(-i);
      assert ("-" + t)[1..] == t;
      "-" + t
    else NatText(i)
  }

  /** The texts that `str(int(...))` can produce: "0", or digits with a non-zero
      lead, optionally behind a minus sign. */
  predicate IsCanonical(s: string)
  {
    || s == "0"
    || (IsDigits(s) && s[0] != '0')
    || (|s| >= 2 && s[0] == '-' && IsDigits(s[1..]) && s[1] != '0')
  }

  /** `str(int(s))`, or None where `int(s)` raises. */
  function Canonical(s: string): (r: Option<string>)
    ensures r.Some? <==> IsIntText(s)
    ensures r.Some? ==> IsCanonical(r.value) && ParseInt(r.value) == ParseInt(s)
  {
    match ParseInt(s)
    case None => None
    case Some(v) =>
      IntTextRoundTrip(v);
      Some(IntText(v))
  }

  /** Reading back the digits of `str(n)` gives n. */
  lemma {:induction false} NatTextValue(n: nat)
    ensures DigitsValue(NatText(n)) == n
    decreases n
  {
    if n >= 10 {
      var t := NatText(n / 10);
      var s := NatText(n);
      assert s == t + [Digit(n % 10)];
      assert s[..|s| - 1] == t;
      NatTextValue(n / 10);
    }
  }

  /** A digit string with a non-zero lead (or "0") has a positive value (or 0). */
  lemma {:induction false} LeadingDigitValue(s: string)
    requires IsDigits(s) && s[0] != '0'
    ensures DigitsValue(s) > 0
    decreases |s|
  {
    if |s| > 1 {
      var init := s[..|s| - 1];
      assert init[0] == s[0];
      LeadingDigitValue(init);
    }
  }

  /** Printing the value of a digit string with no superfluous leading zero
      gives the string back. */
  lemma {:induction false} DigitsText(s: string)
    requires IsDigits(s) && (s[0] != '0' || s == "0")
    ensures NatText(DigitsValue(s)) == s
    decreases |s|
  {
    if |s| > 1 {
      var init := s[..|s| - 1];
      assert init[0] == s[0];
      LeadingDigitValue(init);
      DigitsText(init);
      var n := DigitsValue(s);
      assert n / 10 == DigitsValue(init) && n % 10 == DigitValue(s[|s| - 1]);
      assert Digit(n % 10) == s[|s| - 1];
      assert s == init + [s[|s| - 1]];
    } else if s[0] != '0' {
      assert DigitsValue(s) == DigitValue(s[0]) by {
        assert s[..0] == [];
      }
    }
  }

  /** `int(str(i)) == i`, and `str(i)` is canonical. */
  lemma IntTextRoundTrip(i: int)
    ensures ParseInt(IntText(i)) == Some(i)
    ensures IsCanonical(IntText(i))
  {
    if i < 0 {
      var t := NatText(-i);
      assert IntText(i)[1..] == t;
      NatTextValue(-i);
    } else {
      NatTextValue(i);
    }
  }

  /** `str(int(s)) == s` holds exactly for canonical integer text, so the
      normalisation is idempotent. */
  lemma CanonicalFixpoint(s: string)
    ensures IsCanonical(s) <==> Canonical(s) == Some(s)
  {
    if IsCanonical(s) {
      if s == "0" || (IsDigits(s) && s[0] != '0') {
        DigitsText(s);
      } else {
        var d := s[1..];
        DigitsText(d);
        LeadingDigitValue(d);
        assert s == "-" + d;
      }
    }
  }
}
