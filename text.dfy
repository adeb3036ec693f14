/**
 * The two pieces of text handling the pipelines rely on: Python's
 * `str.strip()` with no argument, and `float()` on the trimmed text of a
 * temperature.
 */
module Text {
  import opened Wrappers

  /** The characters for which Python's `str.isspace()` holds. */
  predicate IsSpace(c: char) {
    || c == ' '
    || ('\t' <= c <= '\r')              // \t \n \x0b \x0c \r
    || ('\U{1C}' <= c <= '\U{1F}')      // file, group, record and unit separators
    || c == '\U{85}' || c == '\U{A0}' || c == '\U{1680}'
    || ('\U{2000}' <= c <= '\U{200A}')
    || c == '\U{2028}' || c == '\U{2029}' || c == '\U{202F}' || c == '\U{205F}' || c == '\U{3000}'
  }

  predicate AllSpace(s: string) {
    forall k :: 0 <= k < |s| ==> IsSpace(s[k])
  }

  /**
   * Python's `s.strip()`: while one end of the text is blank, drop it. The
   * result is no longer than `s` and is blank-free at both ends.
   */
  function Strip(s: string): (t: string)
    ensures |t| <= |s|
    ensures t == [] || (!IsSpace(t[0]) && !IsSpace(t[|t| - 1]))
  {
    if s == [] then []
    else if IsSpace(s[0]) then Strip(s[1..])
    else if IsSpace(s[|s| - 1]) then Strip(s[..|s| - 1])
    else s
  }

  /** Stripping leaves nothing exactly when the text is all whitespace. */
  lemma {:induction false} StripEmptyIff(s: string)
    ensures Strip(s) == [] <==> AllSpace(s)
  {
    if s != [] {
      var n := |s| - 1;
      if IsSpace(s[0]) {
        StripEmptyIff(s[1..]);
        assert forall k :: 0 < k < |s| ==> s[1..][k - 1] == s[k];
      } else if IsSpace(s[n]) {
        StripEmptyIff(s[..n]);
        assert s[..n][0] == s[0];
      }
    }
  }

  lemma {:induction false} AllSpaceAppend(a: string, b: string)
    ensures AllSpace(a + b) <==> AllSpace(a) && AllSpace(b)
  {
    if AllSpace(a + b) {
      forall k | 0 <= k < |a| ensures IsSpace(a[k]) { assert (a + b)[k] == a[k]; }
      forall k | 0 <= k < |b| ensures IsSpace(b[k]) { assert (a + b)[|a| + k] == b[k]; }
    }
    if AllSpace(a) && AllSpace(b) {
      forall k | 0 <= k < |a + b| ensures IsSpace((a + b)[k]) {
        if k < |a| { assert (a + b)[k] == a[k]; } else { assert (a + b)[k] == b[k - |a|]; }
      }
    }
  }

  /** Blank bounds inside `s[1..]` are blank bounds inside `s` when `s[0]` is blank. */
  lemma {:induction false} BoundsAfterFront(s: string, i: nat, j: nat)
    requires 0 < |s| && IsSpace(s[0]) && i <= j <= |s| - 1
    requires AllSpace(s[1..][..i]) && AllSpace(s[1..][j..])
    ensures AllSpace(s[..i + 1]) && AllSpace(s[j + 1..]) && s[i + 1..j + 1] == s[1..][i..j]
  {
    assert s[..i + 1] == [s[0]] + s[1..][..i];
    AllSpaceAppend([s[0]], s[1..][..i]);
    assert s[j + 1..] == s[1..][j..];
    assert s[i + 1..j + 1] == s[1..][i..j];
  }

  /** Blank bounds inside `s[..n]` are blank bounds inside `s` when its last character `s[n]` is blank. */
  lemma {:induction false} BoundsBeforeBack(s: string, i: nat, j: nat)
    requires 0 < |s| && IsSpace(s[|s| - 1]) && i <= j <= |s| - 1
    requires AllSpace(s[..|s| - 1][..i]) && AllSpace(s[..|s| - 1][j..])
    ensures AllSpace(s[..i]) && AllSpace(s[j..]) && s[i..j] == s[..|s| - 1][i..j]
  {
    var n := |s| - 1;
    assert s[j..] == s[..n][j..] + [s[n]];
    AllSpaceAppend(s[..n][j..], [s[n]]);
    assert s[..n][..i] == s[..i];
  }

  /** The bounds of what `strip` keeps: everything before `i` and from `j` on is blank. */
  lemma {:induction false} StripBounds(s: string) returns (i: nat, j: nat)
    ensures i <= j <= |s| && Strip(s) == s[i..j] && AllSpace(s[..i]) && AllSpace(s[j..])
  {
    if s == [] {
      i, j := 0, 0;
    } else if IsSpace(s[0]) {
      var i', j' := StripBounds(s[1..]);
      BoundsAfterFront(s, i', j');
      i, j := i' + 1, j' + 1;
    } else if IsSpace(s[|s| - 1]) {
      i, j := StripBounds(s[..|s| - 1]);
      BoundsBeforeBack(s, i, j);
    } else {
      i, j := 0, |s|;
      assert s[..0] == [] && s[|s|..] == [];
    }
  }

  /**
   * What `strip` removes is whitespace: the result is the part of `s`
   * between a blank prefix and a blank suffix.
   */
  lemma {:induction false} StripInfix(s: string)
    ensures exists i, j :: 0 <= i <= j <= |s| && Strip(s) == s[i..j] && AllSpace(s[..i]) && AllSpace(s[j..])
  {
    var i, j := StripBounds(s);
  }

  /** Stripping `pre + t + post`, where `pre` and `post` are whitespace and `t` has no blank end, gives back `t`. */
  lemma {:induction false} StripPadded(pre: string, t: string, post: string)
    requires AllSpace(pre) && AllSpace(post)
    requires t == [] || (!IsSpace(t[0]) && !IsSpace(t[|t| - 1]))
    ensures Strip(pre + t + post) == t
    decreases |pre| + |post|
  {
    var s := pre + t + post;
    if pre != [] {
      assert s[0] == pre[0];
      assert s[1..] == pre[1..] + t + post;
      StripPadded(pre[1..], t, post);
    } else if post != [] {
      var m := |post| - 1;
      assert s == t + post;
      assert s[|s| - 1] == post[m];
      assert s[..|s| - 1] == [] + t + post[..m];
      StripPadded([], t, post[..m]);
      if t == [] {
        assert s[0] == post[0];
        assert s[1..] == [] + t + post[1..];
        StripPadded([], t, post[1..]);
      }
    } else {
      assert s == t;
    }
  }

  /** Stripping twice is stripping once. */
  lemma {:induction false} StripIdempotent(s: string)
    ensures Strip(Strip(s)) == Strip(s)
  {
  }

  predicate IsDigit(c: char) { '0' <= c <= '9' }

  predicate AllDigits(s: string) {
    forall k :: 0 <= k < |s| ==> IsDigit(s[k])
  }

  /** The number written by the decimal digits `s`, most significant first. */
  function DigitsValue(s: string): nat
    requires AllDigits(s)
  {
    if |s| == 0 then 0 else 10 * DigitsValue(s[..|s| - 1]) + (s[|s| - 1] as int - '0' as int)
  }

  /** The fraction written by the digits `s` after a decimal point. */
  function FracValue(s: string): (v: real)
    requires AllDigits(s)
    ensures 0.0 <= v
  {
    if |s| == 0 then 0.0 else ((s[0] as int - '0' as int) as real + FracValue(s[1..])) / 10.0
  }

  /** The index of the first `c` in `s`, or `|s|` when `s` holds no `c`. */
  function IndexOf(s: string, c: char): (i: nat)
    ensures i <= |s|
    ensures i < |s| ==> s[i] == c
    ensures forall k :: 0 <= k < i ==> s[k] != c
  {
    if |s| == 0 then 0
    else if s[0] == c then 0
    else 1 + IndexOf(s[1..], c)
  }

  /** `IndexOf` finds the first `c` wherever it is, and reports `|s|` when there is none. */
  lemma {:induction false} IndexOfAt(s: string, c: char, i: nat)
    requires i <= |s| && (i == |s| || s[i] == c)
    requires forall k :: 0 <= k < i ==> s[k] != c
    ensures IndexOf(s, c) == i
  {
    if i > 0 {
      IndexOfAt(s[1..], c, i - 1);
    }
  }

  /** An unsigned decimal `digits[.digits]` with at least one digit in all. */
  function ParseUnsigned(s: string): (v: Option<real>)
    ensures v.Some? ==> 0.0 <= v.value
  {
    var p := IndexOf(s, '.');
    var whole := s[..p];
    var frac := if p < |s| then s[p + 1..] else [];
    if AllDigits(whole) && AllDigits(frac) && 0 < |whole| + |frac| then
      Some(DigitsValue(whole) as real + FracValue(frac))
    else None
  }

  /**
   * The temperature text parsed as a number: `[+|-]digits[.digits]`, with
   * digits on at least one side of the point. `None` stands for the
   * `ValueError` that Python's `float()` raises.
   */
  function ParseTemp(s: string): (v: Option<real>)
    ensures v.Some? ==> s != []
    ensures v.Some? && s[0] == '-' ==> v.value <= 0.0
    ensures v.Some? && s[0] != '-' ==> 0.0 <= v.value
  {
    assert ParseNumber(s, false) == ParseUnsigned(s);
    assert 0 < |s| ==> ParseNumber(s[1..], false) == ParseUnsigned(s[1..]);
    ParseNumber(s, true)
  }

  /** An optional sign, when `signed`, then an unsigned numeral. */
  function ParseNumber(s: string, signed: bool): (v: Option<real>)
    decreases |s|, if signed then 1 else 0
  {
    if !signed then ParseUnsigned(s)
    else if 0 < |s| && (s[0] == '-' || s[0] == '+') then
      match ParseNumber(s[1..], false)
      case None => None
      case Some(x) => Some(if s[0] == '-' then -x else x)
    else ParseNumber(s, false)
  }

  /** A numeral `whole.frac` parses to the whole part plus the fraction. */
  lemma {:induction false} ParseDecimal(whole: string, frac: string)
    requires 0 < |whole| && AllDigits(whole) && AllDigits(frac)
    ensures ParseTemp(whole + "." + frac) == Some(DigitsValue(whole) as real + FracValue(frac))
  {
    var s := whole + "." + frac;
    assert forall k :: 0 <= k < |whole| ==> s[k] == whole[k] && s[k] != '.';
    IndexOfAt(s, '.', |whole|);
    assert s[..|whole|] == whole && s[|whole| + 1..] == frac;
    assert IsDigit(s[0]);
    assert ParseNumber(s, false) == ParseUnsigned(s);
  }

  /** A numeral of digits alone parses to its value. */
  lemma {:induction false} ParseDigits(whole: string)
    requires 0 < |whole| && AllDigits(whole)
    ensures ParseTemp(whole) == Some(DigitsValue(whole) as real)
  {
    assert forall k :: 0 <= k < |whole| ==> whole[k] != '.';
    IndexOfAt(whole, '.', |whole|);
    assert whole[..|whole|] == whole;
    assert IsDigit(whole[0]);
    assert ParseNumber(whole, false) == ParseUnsigned(whole);
  }

  /** The decimal numeral of `n`, as `str(n)` writes it. */
  function NatText(n: nat): (s: string)
    ensures 0 < |s| && AllDigits(s)
  {
    var d := ['0' + (n % 10) as char];
    if n < 10 then d else NatText(n / 10) + d
  }

  /** The numeral of an integer, with a leading `-` when negative. */
  function IntText(n: int): string {
    if n < 0 then "-" + NatText(-n) else NatText(n)
  }

  lemma {:induction false} NatTextValue(n: nat)
    ensures DigitsValue(NatText(n)) == n
  {
    var s := NatText(n);
    if n >= 10 {
      NatTextValue(n / 10);
      assert s[..|s| - 1] == NatText(n / 10);
    }
  }

  /** Parsing the numeral of an integer gives back that integer. */
  lemma {:induction false} ParseIntText(n: int)
    ensures ParseTemp(IntText(n)) == Some(n as real)
  {
    var m: nat := if n < 0 then -n else n;
    NatTextValue(m);
    ParseDigits(NatText(m));
    if n < 0 {
      assert IntText(n)[1..] == NatText(m);
    } else {
      assert IsDigit(NatText(m)[0]);
    }
  }
}
