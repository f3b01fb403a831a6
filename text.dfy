/**
  The string operations the application relies on, over Unicode code points:
  Python's `str.strip()` with no argument, the decimal rendering of an integer
  that `str.format` produces for `{}`, and the string grammar of `int()`
  restricted to an optional sign and ASCII digits.
*/
module Text {
  import opened Wrappers

  /** The characters for which Python's `str.isspace()` holds: exactly those `str.strip()` removes. */
  predicate IsSpace(c: char) {
    || ('\t' <= c <= '\r')
    || ('\U{1C}' <= c <= '\U{1F}')
    || c == ' '
    || c == '\U{85}'
    || c == '\U{A0}'
    || c == '\U{1680}'
    || ('\U{2000}' <= c <= '\U{200A}')
    || c == '\U{2028}'
    || c == '\U{2029}'
    || c == '\U{202F}'
    || c == '\U{205F}'
    || c == '\U{3000}'
  }

  predicate AllSpace(s: string) {
    forall i :: 0 <= i < |s| ==> IsSpace(s[i])
  }

  /** Neither end of `s` is whitespace. */
  predicate IsStripped(s: string) {
    s == [] || (!IsSpace(s[0]) && !IsSpace(s[|s| - 1]))
  }

  /**
    Python's `s.strip()`: whitespace is removed from both ends until neither
    end is whitespace.
  */
  function Strip(s: string): (r: string)
    ensures IsStripped(r)
    ensures |r| <= |s|
  {
    if s == [] then []
    else if IsSpace(s[0]) then Strip(s[1..])
    else if IsSpace(s[|s| - 1]) then Strip(s[..|s| - 1])
    else s
  }

  /** Whitespace cut off on either side of a slice of `s`. */
  ghost predicate TrimmedSlice(s: string, i: int, j: int, r: string) {
    0 <= i <= j <= |s| && s[i..j] == r && AllSpace(s[..i]) && AllSpace(s[j..])
  }

  lemma SliceAfterLeadingSpace(s: string, i: int, j: int, r: string)
    requires s != [] && IsSpace(s[0]) && TrimmedSlice(s[1..], i, j, r)
    ensures TrimmedSlice(s, i + 1, j + 1, r)
  {
    var t := s[1..];
    assert s[i + 1..j + 1] == t[i..j];
    assert s[..i + 1] == [s[0]] + t[..i];
    assert s[j + 1..] == t[j..];
  }

  lemma SliceBeforeTrailingSpace(s: string, i: int, j: int, r: string)
    requires s != [] && IsSpace(s[|s| - 1]) && TrimmedSlice(s[..|s| - 1], i, j, r)
    ensures TrimmedSlice(s, i, j, r)
  {
    var t := s[..|s| - 1];
    assert s[i..j] == t[i..j];
    assert s[..i] == t[..i];
    assert s[j..] == t[j..] + [s[|s| - 1]];
  }

  /** `Strip` only removes: its result is a slice of `s`, and everything cut off on either side is whitespace. */
  lemma {:induction false} StripIsSlice(s: string) returns (i: nat, j: nat)
    ensures TrimmedSlice(s, i, j, Strip(s))
  {
    if s == [] {
      i, j := 0, 0;
    } else if IsSpace(s[0]) {
      var i', j' := StripIsSlice(s[1..]);
      SliceAfterLeadingSpace(s, i', j', Strip(s));
      i, j := i' + 1, j' + 1;
    } else if IsSpace(s[|s| - 1]) {
      i, j := StripIsSlice(s[..|s| - 1]);
      SliceBeforeTrailingSpace(s, i, j, Strip(s));
    } else {
      i, j := 0, |s|;
      assert s[..0] == [] && s[|s|..] == [];
    }
  }

  /**
    The converse of `Strip`'s contract: whitespace around a string with no
    whitespace at its ends is exactly what `Strip` removes.
  */
  lemma {:induction false} StripOfPadded(a: string, r: string, b: string)
    requires AllSpace(a) && AllSpace(b) && IsStripped(r)
    ensures Strip(a + r + b) == r
    decreases |a| + |b|
  {
    var s := a + r + b;
    if a != [] {
      assert s[0] == a[0];
      assert s[1..] == a[1..] + r + b;
      StripOfPadded(a[1..], r, b);
    } else if b != [] {
      var b' := b[..|b| - 1];
      assert s == r + b;
      assert s[|s| - 1] == b[|b| - 1];
      assert s[..|s| - 1] == [] + r + b';
      if r == [] {
        assert s[0] == b[0];
        assert s[1..] == [] + [] + b[1..];
        StripOfPadded([], [], b[1..]);
      } else {
        assert s[0] == r[0];
        StripOfPadded([], r, b');
      }
    } else {
      assert s == r;
    }
  }

  /** Stripping twice is stripping once. */
  lemma StripIdempotent(s: string)
    ensures Strip(Strip(s)) == Strip(s)
  {
  }

  /** A string strips to the empty string exactly when it is all whitespace. */
  lemma {:induction false} StripEmptyIffBlank(s: string)
    ensures Strip(s) == [] <==> AllSpace(s)
  {
    if AllSpace(s) {
      assert s + [] + [] == s;
      StripOfPadded(s, [], []);
    }
    if Strip(s) == [] {
      var i, j := StripIsSlice(s);
      assert s == s[..i] + s[j..];
    }
  }

  predicate IsDigit(c: char) {
    '0' <= c <= '9'
  }

  predicate AllDigits(s: string) {
    forall i :: 0 <= i < |s| ==> IsDigit(s[i])
  }

  function DigitChar(d: nat): (c: char)
    requires d < 10
    ensures IsDigit(c) && c as int - '0' as int == d
  {
    ('0' as int + d) as char
  }

  /** The decimal digits of `n`: at least one digit, and no leading zero unless `n` is 0 itself. */
  function NatToDecimal(n: nat): (r: string)
    ensures |r| >= 1 && AllDigits(r)
    ensures r[0] == '0' ==> n == 0 && r == "0"
  {
    if n < 10 then [DigitChar(n)] else NatToDecimal(n / 10) + [DigitChar(n % 10)]
  }

  /** What Python's `str(i)` (and so `"{}".format(i)`) yields for an integer `i`. */
  function IntToDecimal(i: int): (r: string)
    ensures |r| >= (if i < 0 then 2 else 1) && (r[0] == '-' <==> i < 0)
    ensures AllDigits(if i < 0 then r[1..] else r)
  {
    if i < 0 then "-" + NatToDecimal(-i) else NatToDecimal(i)
  }

  /** The number a string of decimal digits denotes (leading zeros allowed, as `int()` allows them). */
  function DigitsValue(s: string): nat
    requires AllDigits(s)
  {
    if s == [] then 0 else DigitsValue(s[..|s| - 1]) * 10 + (s[|s| - 1] as int - '0' as int)
  }

  /**
    The whitespace `int()` skips around a number: CPython turns every
    non-ASCII `str.isspace()` character into a space and leaves ASCII alone,
    then skips only tab, line feed, vertical tab, form feed, carriage return
    and space. So U+001C to U+001F, which `str.strip()` removes, are not
    skipped.
  */
  predicate IsIntSpace(c: char) {
    ('\t' <= c <= '\r') || c == ' ' || (c as int > 127 && IsSpace(c))
  }

  /** `s` without the whitespace `int()` skips at either end. */
  function StripIntSpace(s: string): (r: string)
    ensures r == [] || (!IsIntSpace(r[0]) && !IsIntSpace(r[|r| - 1]))
    ensures |r| <= |s|
  {
    if s == [] then []
    else if IsIntSpace(s[0]) then StripIntSpace(s[1..])
    else if IsIntSpace(s[|s| - 1]) then StripIntSpace(s[..|s| - 1])
    else s
  }

  predicate AllIntSpace(s: string) {
    forall k :: 0 <= k < |s| ==> IsIntSpace(s[k])
  }

  lemma {:induction false} StripIntSpaceDropsLeading(a: string, u: string)
    requires AllIntSpace(a)
    ensures StripIntSpace(a + u) == StripIntSpace(u)
  {
    if a != [] {
      assert (a + u)[0] == a[0];
      assert (a + u)[1..] == a[1..] + u;
      StripIntSpaceDropsLeading(a[1..], u);
    } else {
      assert a + u == u;
    }
  }

  lemma {:induction false} StripIntSpaceDropsTrailing(t: string, b: string)
    requires AllIntSpace(b)
    ensures StripIntSpace(t + b) == StripIntSpace(t)
    decreases |t| + |b|
  {
    var s := t + b;
    if t != [] && IsIntSpace(t[0]) {
      assert s[0] == t[0];
      assert s[1..] == t[1..] + b;
      StripIntSpaceDropsTrailing(t[1..], b);
    } else if b != [] && t == [] {
      assert s == b;
      assert s[1..] == [] + b[1..];
      StripIntSpaceDropsTrailing([], b[1..]);
    } else if b != [] {
      assert s[0] == t[0];
      assert s[|s| - 1] == b[|b| - 1];
      assert s[..|s| - 1] == t + b[..|b| - 1];
      StripIntSpaceDropsTrailing(t, b[..|b| - 1]);
    } else {
      assert s == t;
    }
  }

  /**
    Python's `int(s)` on a string, restricted to its ASCII digits: the
    whitespace of `IsIntSpace` is skipped at both ends, then an optional `+`
    or `-`, then one or more digits. Anything else is a `ValueError`,
    modelled as `None`.
  */
  function ParseInt(s: string): Option<int> {
    ParseSigned(StripIntSpace(s))
  }

  /** An optional sign followed by one or more decimal digits, and nothing else. */
  function ParseSigned(t: string): Option<int> {
    if t != [] && (t[0] == '+' || t[0] == '-') then
      var digits := t[1..];
      if digits != [] && AllDigits(digits) then
        var magnitude: int := DigitsValue(digits);
        Some(if t[0] == '-' then -magnitude else magnitude)
      else
        None
    else if t != [] && AllDigits(t) then
      Some(DigitsValue(t))
    else
      None
  }

  lemma {:induction false} DecimalDigitsRoundTrip(n: nat)
    ensures DigitsValue(NatToDecimal(n)) == n
  {
    if n >= 10 {
      var s := NatToDecimal(n);
      assert s[..|s| - 1] == NatToDecimal(n / 10);
      DecimalDigitsRoundTrip(n / 10);
    }
  }

  /** A decimal rendering starts with a sign or a digit and ends with a digit, so no whitespace is skipped around it. */
  lemma StripOfDecimal(i: int)
    ensures StripIntSpace(IntToDecimal(i)) == IntToDecimal(i)
  {
    var s := IntToDecimal(i);
    assert s[|s| - 1] == NatToDecimal(if i < 0 then -i else i)[|s| - 1 - (if i < 0 then 1 else 0)];
    assert !IsIntSpace(s[0]) && !IsIntSpace(s[|s| - 1]);
  }

  lemma NegativeDecimal(n: nat)
    requires n > 0
    ensures ParseSigned("-" + NatToDecimal(n)) == Some(-(n as int))
  {
    var s := "-" + NatToDecimal(n);
    assert s[1..] == NatToDecimal(n);
    DecimalDigitsRoundTrip(n);
  }

  lemma NonNegativeDecimal(n: nat)
    ensures ParseSigned(NatToDecimal(n)) == Some(n)
  {
    var s := NatToDecimal(n);
    assert IsDigit(s[0]);
    DecimalDigitsRoundTrip(n);
  }

  /** Surrounding `int()` whitespace changes nothing: `int(" 7\n") == int("7")`. */
  lemma ParseIntIgnoresPadding(a: string, t: string, b: string)
    requires AllIntSpace(a) && AllIntSpace(b)
    ensures ParseInt(a + t + b) == ParseInt(t)
  {
    assert a + t + b == a + (t + b);
    StripIntSpaceDropsLeading(a, t + b);
    StripIntSpaceDropsTrailing(t, b);
  }

  /** The decimal rendering of any integer reads back as that integer under `int()`. */
  lemma ParseIntOfDecimal(i: int)
    ensures ParseInt(IntToDecimal(i)) == Some(i)
  {
    StripOfDecimal(i);
    if i < 0 {
      NegativeDecimal(-i);
    } else {
      NonNegativeDecimal(i);
    }
  }
}
