/**
 * The two pieces of Python's string handling that the request handlers rely on:
 * `str.strip()` on every form field and `int()` on the numeric ones.
 */
module Text {
  import opened Wrappers

  /** Python's `str.isspace` for one character: what `str.strip()` removes by default. */
  predicate IsSpace(c: char) {
    || c == ' '
    || ('\t' <= c <= '\r')
    || ('\U{1c}' <= c <= '\U{1f}')
    || c == '\U{85}' || c == '\U{a0}' || c == '\U{1680}'
    || ('\U{2000}' <= c <= '\U{200a}')
    || c == '\U{2028}' || c == '\U{2029}' || c == '\U{202f}' || c == '\U{205f}' || c == '\U{3000}'
  }

  /** Every character of `s` is white space (true of the empty string). */
  predicate AllSpace(s: string) {
    forall i :: 0 <= i < |s| ==> IsSpace(s[i])
  }

  /** `s.lstrip()`: drops white space from the front. */
  function StripLeft(s: string): string {
    if |s| > 0 && IsSpace(s[0]) then StripLeft(s[1..]) else s
  }

  /** `lstrip` keeps a suffix, cuts off only white space, and stops at the first other character. */
  lemma {:induction false} StripLeftCuts(s: string)
    ensures var r := StripLeft(s);
      && |r| <= |s| && r == s[|s| - |r|..]
      && AllSpace(s[..|s| - |r|])
      && (r == [] || !IsSpace(r[0]))
    decreases |s|
  {
    if |s| > 0 && IsSpace(s[0]) {
      StripLeftCuts(s[1..]);
      var r := StripLeft(s[1..]);
      assert s[1..][..|s| - 1 - |r|] == s[1..|s| - |r|];
    }
  }

  /** `s.rstrip()`: drops white space from the end. */
  function StripRight(s: string): string {
    if |s| > 0 && IsSpace(s[|s| - 1]) then StripRight(s[..|s| - 1]) else s
  }

  /** `rstrip` keeps a prefix, cuts off only white space, and stops at the last other character. */
  lemma {:induction false} StripRightCuts(s: string)
    ensures var r := StripRight(s);
      && |r| <= |s| && r == s[..|r|]
      && AllSpace(s[|r|..])
      && (r == [] || !IsSpace(r[|r| - 1]))
    decreases |s|
  {
    if |s| > 0 && IsSpace(s[|s| - 1]) {
      StripRightCuts(s[..|s| - 1]);
      var r := StripRight(s[..|s| - 1]);
      assert s[..|s| - 1][|r|..] == s[|r|..|s| - 1];
      forall i | 0 <= i < |s| - |r| ensures IsSpace(s[|r|..][i]) {
        if i < |s| - 1 - |r| {
          assert s[|r|..][i] == s[|r|..|s| - 1][i];
        }
      }
    }
  }

  /** Both halves of a concatenation are white space exactly when the whole is. */
  lemma AllSpaceConcat(p: string, q: string)
    ensures AllSpace(p + q) <==> AllSpace(p) && AllSpace(q)
  {
    if AllSpace(p + q) {
      forall i | 0 <= i < |p| ensures IsSpace(p[i]) {
        assert p[i] == (p + q)[i];
      }
      forall i | 0 <= i < |q| ensures IsSpace(q[i]) {
        assert q[i] == (p + q)[|p| + i];
      }
    }
    if AllSpace(p) && AllSpace(q) {
      forall i | 0 <= i < |p + q| ensures IsSpace((p + q)[i]) {
        if i < |p| {
          assert (p + q)[i] == p[i];
        } else {
          assert (p + q)[i] == q[i - |p|];
        }
      }
    }
  }

  /** `s` neither starts nor ends with white space: what `strip()` returns. */
  predicate Trimmed(s: string) {
    s == [] || (!IsSpace(s[0]) && !IsSpace(s[|s| - 1]))
  }

  /**
   * `s.strip()`: `s` without its leading and trailing white space. What is cut
   * off on either side is white space, the result is empty exactly when `s` is
   * all white space, and otherwise it neither starts nor ends with white space.
   */
  function Strip(s: string): (r: string)
    ensures exists p, q :: AllSpace(p) && AllSpace(q) && s == p + r + q
    ensures r == [] <==> AllSpace(s)
    ensures Trimmed(r)
  {
    StripBothEnds(s);
    StripRight(StripLeft(s))
  }

  /** The facts behind the contract of `Strip`, one `strip` after the other. */
  lemma StripBothEnds(s: string)
    ensures var r := StripRight(StripLeft(s));
      && (exists p, q :: AllSpace(p) && AllSpace(q) && s == p + r + q)
      && (r == [] <==> AllSpace(s))
      && Trimmed(r)
  {
    StripCutsSpace(s);
    StripEmpty(s);
    var l := StripLeft(s);
    var r := StripRight(l);
    StripLeftCuts(s);
    StripRightCuts(l);
    if r != [] {
      assert r[0] == l[0];
    }
  }

  lemma StripCutsSpace(s: string)
    ensures var r := StripRight(StripLeft(s));
      exists p, q :: AllSpace(p) && AllSpace(q) && s == p + r + q
  {
    var l := StripLeft(s);
    var r := StripRight(l);
    StripLeftCuts(s);
    StripRightCuts(l);
    assert s == s[..|s| - |l|] + l && l == r + l[|r|..];
    var p, q := s[..|s| - |l|], l[|r|..];
    assert s == p + (r + q) == p + r + q;
    assert AllSpace(p) && AllSpace(q);
  }

  lemma StripEmpty(s: string)
    ensures StripRight(StripLeft(s)) == [] <==> AllSpace(s)
  {
    var l := StripLeft(s);
    var r := StripRight(l);
    StripLeftCuts(s);
    StripRightCuts(l);
    assert s == s[..|s| - |l|] + l && l == r + l[|r|..];
    AllSpaceConcat(s[..|s| - |l|], l);
    AllSpaceConcat(r, l[|r|..]);
  }

  /** Text that neither starts nor ends with white space is left as it is by `strip()`. */
  lemma {:induction false} StripTrimmed(s: string)
    requires Trimmed(s)
    ensures Strip(s) == s
  {
    if s != [] {
      assert StripLeft(s) == s;
      assert StripRight(s) == s;
    }
  }

  /** `strip()` is idempotent. */
  lemma StripIdempotent(s: string)
    ensures Strip(Strip(s)) == Strip(s)
  {
    StripTrimmed(Strip(s));
  }

  predicate IsDigit(c: char) {
    '0' <= c <= '9'
  }

  /**
   * The digits of a Python integer literal in base 10: ASCII digits, where a
   * single underscore may separate two digits (`"1_000"`).
   */
  predicate IsDigitGroups(t: string) {
    && |t| > 0
    && IsDigit(t[0])
    && IsDigit(t[|t| - 1])
    && (forall i :: 0 <= i < |t| ==> IsDigit(t[i]) || t[i] == '_')
    && (forall i :: 0 <= i < |t| - 1 && t[i] == '_' ==> t[i + 1] != '_')
  }

  /** The value of a string of digits and underscores, reading the underscores as nothing. */
  function DigitsValue(t: string): (n: nat)
  {
    if t == [] then 0
    else if t[|t| - 1] == '_' then DigitsValue(t[..|t| - 1])
    else
      var d := t[|t| - 1] as int - '0' as int;
      DigitsValue(t[..|t| - 1]) * 10 + (if 0 <= d <= 9 then d else 0)
  }

  /**
   * Python's `int(s)` for a string argument: white space around the number is
   * ignored, then one optional sign and base-10 digit groups. `None` stands for
   * the `ValueError` that `int` raises on anything else.
   */
  function ParseInt(s: string): (r: Option<int>)
    ensures AllSpace(s) ==> r.None?
  {
    ParseNumeral(Strip(s))
  }

  /** An optional sign followed by digit groups, and nothing else. */
  function ParseNumeral(t: string): (r: Option<int>)
  {
    if |t| > 0 && (t[0] == '-' || t[0] == '+') then
      if IsDigitGroups(t[1..]) then
        var v: int := DigitsValue(t[1..]);
        Some(if t[0] == '-' then -v else v)
      else None
    else if IsDigitGroups(t) then Some(DigitsValue(t))
    else None
  }

  /** The decimal numeral of `n` without sign or leading zeros, as Python's `str` writes it. */
  function NatString(n: nat): (t: string)
    ensures |t| > 0 && forall i :: 0 <= i < |t| ==> IsDigit(t[i])
  {
    var d := ['0' + ((n % 10) as char)];
    if n < 10 then d else NatString(n / 10) + d
  }

  /** Python's `str(n)` for an integer: a minus sign exactly for a negative `n`, then only digits. */
  function IntString(n: int): (t: string)
    ensures |t| > 0 && (t[0] == '-' <==> n < 0)
    ensures forall i :: (if n < 0 then 1 else 0) <= i < |t| ==> IsDigit(t[i])
  {
    if n < 0 then "-" + NatString(-n) else NatString(n)
  }

  lemma {:induction false} NatStringValue(n: nat)
    ensures DigitsValue(NatString(n)) == n
  {
    var t := NatString(n);
    assert t[..|t| - 1] == if n < 10 then [] else NatString(n / 10);
    if n >= 10 {
      NatStringValue(n / 10);
    }
  }

  /** `str(n)` is a numeral denoting `n` that neither starts nor ends with white space. */
  lemma NumeralString(n: int)
    ensures ParseNumeral(IntString(n)) == Some(n)
    ensures Trimmed(IntString(n))
  {
    var m: nat := if n < 0 then -n else n;
    var d := NatString(m);
    var t := IntString(n);
    NatStringValue(m);
    assert IsDigitGroups(d);
    if n < 0 {
      assert t[1..] == d;
      assert t[|t| - 1] == d[|d| - 1];
    }
  }

  /** `int(str(n)) == n`: the parser reads back every integer the way Python writes it. */
  lemma ParseIntString(n: int)
    ensures ParseInt(IntString(n)) == Some(n)
  {
    NumeralString(n);
    StripTrimmed(IntString(n));
  }
}
