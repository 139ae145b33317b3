/** Python's `int(text)` on a string (base 10) and `str(n)` on an int:
    the conversion that `comma_separated_ints` and `KeyValuePairsType`
    apply to each piece of their argument. */
module IntLiteral {
  import opened Wrappers
  import opened Strings

  /** The ASCII characters `int()` skips before and after the digits. */
  const Whitespace: set<char> := {' ', '\t', '\n', '\r', '\U{0B}', '\U{0C}'}

  predicate IsDigit(c: char) { '0' <= c <= '9' }

  function DigitChar(d: nat): (c: char)
    requires d < 10
    ensures IsDigit(c) && c as int - '0' as int == d
  {
    ('0' as int + d) as char
  }

  /** Decimal digits with single underscores between them, Python's
      `digit (["_"] digit)*`: no leading, trailing or doubled underscore. */
  predicate IsDigitRun(s: string)
    decreases |s|
  {
    && |s| > 0
    && IsDigit(s[|s| - 1])
    && var p := s[..|s| - 1];
       (p == [] || IsDigitRun(p) || (p[|p| - 1] == '_' && IsDigitRun(p[..|p| - 1])))
  }

  /** The value of a digit run, underscores ignored. */
  function DigitsValue(s: string): nat
    requires IsDigitRun(s)
    decreases |s|
  {
    var p := s[..|s| - 1];
    var d := s[|s| - 1] as int - '0' as int;
    if p == [] then d
    else if IsDigitRun(p) then DigitsValue(p) * 10 + d
    else DigitsValue(p[..|p| - 1]) * 10 + d
  }

  /** `int(s)`: surrounding whitespace, then an optional sign, then a digit
      run; anything else is a ValueError, here None. */
  function ParseInt(s: string): (r: Option<int>)
    ensures r.Some? <==>
              var t := Strip(s, Whitespace);
              IsDigitRun(t) || (|t| > 0 && (t[0] == '-' || t[0] == '+') && IsDigitRun(t[1..]))
    ensures r.Some? && r.value < 0 ==> Strip(s, Whitespace)[0] == '-'
  {
    ParseStripped(Strip(s, Whitespace))
  }

  /** `int()` once the surrounding whitespace is gone. */
  function ParseStripped(t: string): Option<int>
  {
    if |t| > 0 && t[0] == '-' && IsDigitRun(t[1..]) then Some(-(DigitsValue(t[1..]) as int))
    else if |t| > 0 && t[0] == '+' && IsDigitRun(t[1..]) then Some(DigitsValue(t[1..]))
    else if IsDigitRun(t) then Some(DigitsValue(t))
    else None
  }

  /** `str(n)` for n >= 0: decimal digits, no leading zero. */
  function ShowNat(n: nat): (r: string)
    ensures |r| >= 1 && forall i :: 0 <= i < |r| ==> IsDigit(r[i])
    ensures r[0] == '0' <==> n == 0
  {
    if n < 10 then [DigitChar(n)] else ShowNat(n / 10) + [DigitChar(n % 10)]
  }

  /** `str(n)`: a minus sign exactly for a negative number, then decimal
      digits with no leading zero unless the number is 0. */
  function Show(n: int): (r: string)
    ensures |r| >= (if n < 0 then 2 else 1) && (r[0] == '-' <==> n < 0)
    ensures forall i :: (if n < 0 then 1 else 0) <= i < |r| ==> IsDigit(r[i])
    ensures r == "0" || r[if n < 0 then 1 else 0] != '0'
  {
    if n < 0 then "-" + ShowNat(-n) else ShowNat(n)
  }

  /** The decimal rendering of a natural number is a digit run worth that number. */
  lemma {:induction false} ShowNatIsDigitRun(n: nat)
    ensures IsDigitRun(ShowNat(n)) && DigitsValue(ShowNat(n)) == n
    ensures forall i :: 0 <= i < |ShowNat(n)| ==> IsDigit(ShowNat(n)[i])
    decreases n
  {
    var s := ShowNat(n);
    if n >= 10 {
      ShowNatIsDigitRun(n / 10);
      assert s[..|s| - 1] == ShowNat(n / 10);
    }
  }

  /** `int(str(n)) == n` for every integer. */
  lemma ParseShow(n: int)
    ensures ParseInt(Show(n)) == Some(n)
  {
    var m := if n < 0 then -n else n;
    ShowNatIsDigitRun(m);
    var s := Show(n);
    assert s[0] !in Whitespace && s[|s| - 1] !in Whitespace by {
      if n < 0 {
        assert s[|s| - 1] == ShowNat(m)[|ShowNat(m)| - 1];
      }
    }
    StripUnchanged(s, Whitespace);
    ParseStrippedShow(n);
  }

  lemma ParseStrippedShow(n: int)
    ensures ParseStripped(Show(n)) == Some(n)
  {
    var m := if n < 0 then -n else n;
    ShowNatIsDigitRun(m);
    if n < 0 {
      assert Show(n)[1..] == ShowNat(m);
    }
  }
}
