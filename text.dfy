/**
 * Text handling shared by both scrapers: Python's `str.strip()` with no
 * argument, and the parts of `int(...)` that decide whether a typed count is
 * a number.
 */
module Text {

  datatype Option<T> = None | Some(value: T)

  /** The characters for which Python's `str.isspace()` holds. */
  predicate IsSpace(c: char) {
    var n := c as int;
    n == 0x20 || 0x09 <= n <= 0x0D || 0x1C <= n <= 0x1F || n == 0x85 || n == 0xA0 ||
    n == 0x1680 || 0x2000 <= n <= 0x200A || n == 0x2028 || n == 0x2029 ||
    n == 0x202F || n == 0x205F || n == 0x3000
  }

  predicate AllSpace(s: string) {
    forall i :: 0 <= i < |s| ==> IsSpace(s[i])
  }

  /** True when `s` neither starts nor ends with whitespace. */
  predicate Trimmed(s: string) {
    s == [] || (!IsSpace(s[0]) && !IsSpace(s[|s| - 1]))
  }

  /** The first position from `i` on that does not hold whitespace, or `|s|`. */
  function SkipSpace(s: string, i: nat): (j: nat)
    requires i <= |s|
    ensures i <= j <= |s|
    ensures forall k :: i <= k < j ==> IsSpace(s[k])
    ensures j == |s| || !IsSpace(s[j])
    decreases |s| - i
  {
    if i < |s| && IsSpace(s[i]) then SkipSpace(s, i + 1) else i
  }

  /** The position just after the last character before `j` that is not whitespace, or 0. */
  function SkipSpaceBack(s: string, j: nat): (i: nat)
    requires j <= |s|
    ensures i <= j
    ensures forall k :: i <= k < j ==> IsSpace(s[k])
    ensures i == 0 || !IsSpace(s[i - 1])
  {
    if j > 0 && IsSpace(s[j - 1]) then SkipSpaceBack(s, j - 1) else j
  }

  /** Drops the leading whitespace: what is left is a suffix of `s`. */
  function TrimStart(s: string): (r: string)
    ensures |r| <= |s| && r == s[|s| - |r|..]
    ensures AllSpace(s[..|s| - |r|])
    ensures r == [] || !IsSpace(r[0])
  {
    s[SkipSpace(s, 0)..]
  }

  /** Drops the trailing whitespace: what is left is a prefix of `s`. */
  function TrimEnd(s: string): (r: string)
    ensures |r| <= |s| && r == s[..|r|]
    ensures AllSpace(s[|r|..])
    ensures r == [] || !IsSpace(r[|r| - 1])
  {
    s[..SkipSpaceBack(s, |s|)]
  }

  /** Python's `s.strip()`. */
  function Strip(s: string): (r: string)
    ensures Trimmed(r) && |r| <= |s|
  {
    var t := TrimStart(s);
    var r := TrimEnd(t);
    assert r != [] ==> r[0] == t[0];
    r
  }

  /** `strip` removes only whitespace, and only from the two ends. */
  lemma StripRemovesOuterSpace(s: string)
    ensures exists pre, post :: s == pre + Strip(s) + post && AllSpace(pre) && AllSpace(post)
  {
    var pre, post := StripSplit(s);
  }

  /** The whitespace `strip` removes from the front and from the back of `s`. */
  lemma StripSplit(s: string) returns (pre: string, post: string)
    ensures s == pre + Strip(s) + post && AllSpace(pre) && AllSpace(post)
  {
    var t := TrimStart(s);
    pre := LeadingSpace(s);
    post := TrailingSpace(t);
    SplitThree(s, pre, t, TrimEnd(t), post);
  }

  lemma LeadingSpace(s: string) returns (pre: string)
    ensures s == pre + TrimStart(s) && AllSpace(pre)
  {
    pre := s[..|s| - |TrimStart(s)|];
    assert s == pre + s[|s| - |TrimStart(s)|..];
  }

  lemma TrailingSpace(t: string) returns (post: string)
    ensures t == TrimEnd(t) + post && AllSpace(post)
  {
    post := t[|TrimEnd(t)|..];
    assert t == t[..|TrimEnd(t)|] + post;
  }

  lemma SplitThree(s: string, pre: string, t: string, r: string, post: string)
    requires s == pre + t && t == r + post
    ensures s == pre + r + post
  {
  }

  /** Whitespace around a string whose ends are not whitespace is all `strip` removes. */
  lemma StripPadded(pre: string, t: string, post: string)
    requires AllSpace(pre) && AllSpace(post) && Trimmed(t)
    ensures Strip(pre + t + post) == t
  {
    if t == [] {
      assert pre + t + post == pre + post;
      TrimStartBlank(pre + post);
    } else {
      assert (pre + t + post) == pre + (t + post);
      TrimStartPadded(pre, t + post);
      TrimEndPadded(t, post);
    }
  }

  /** The scan from the left stops at the first non-whitespace position and nowhere else. */
  lemma SkipSpaceAt(s: string, i: nat, m: nat)
    requires i <= m <= |s| && forall k :: i <= k < m ==> IsSpace(s[k])
    requires m == |s| || !IsSpace(s[m])
    ensures SkipSpace(s, i) == m
  {
  }

  /** The scan from the right stops just after the last non-whitespace position and nowhere else. */
  lemma SkipSpaceBackAt(s: string, j: nat, m: nat)
    requires m <= j <= |s| && forall k :: m <= k < j ==> IsSpace(s[k])
    requires m == 0 || !IsSpace(s[m - 1])
    ensures SkipSpaceBack(s, j) == m
  {
  }

  lemma TrimStartBlank(s: string)
    requires AllSpace(s)
    ensures TrimStart(s) == []
  {
    SkipSpaceAt(s, 0, |s|);
  }

  lemma TrimStartPadded(pre: string, u: string)
    requires AllSpace(pre) && (u == [] || !IsSpace(u[0]))
    ensures TrimStart(pre + u) == u
  {
    var s := pre + u;
    assert forall k :: 0 <= k < |pre| ==> s[k] == pre[k];
    assert |pre| < |s| ==> s[|pre|] == u[0];
    SkipSpaceAt(s, 0, |pre|);
    assert s[|pre|..] == u;
  }

  lemma TrimEndPadded(t: string, post: string)
    requires AllSpace(post) && t != [] && !IsSpace(t[|t| - 1])
    ensures TrimEnd(t + post) == t
  {
    var s := t + post;
    assert forall k :: |t| <= k < |s| ==> s[k] == post[k - |t|];
    assert s[|t| - 1] == t[|t| - 1];
    SkipSpaceBackAt(s, |s|, |t|);
    assert s[..|t|] == t;
  }

  /** A field is empty after `strip` exactly when it held only whitespace. */
  lemma StripEmptyIffBlank(s: string)
    ensures Strip(s) == [] <==> AllSpace(s)
  {
    if AllSpace(s) {
      StripPadded(s, [], []);
      assert s + [] + [] == s;
    }
  }

  /** Stripping twice changes nothing more than stripping once. */
  lemma StripIdempotent(s: string)
    ensures Strip(Strip(s)) == Strip(s)
  {
    var t := Strip(s);
    StripPadded([], t, []);
    assert [] + t + [] == t;
  }

  /** `strip` leaves a string unchanged exactly when it neither starts nor ends with whitespace. */
  lemma StripFixedIffTrimmed(s: string)
    ensures Strip(s) == s <==> Trimmed(s)
  {
    if Trimmed(s) {
      StripPadded([], s, []);
      assert [] + s + [] == s;
    }
  }

  /** A character that is not whitespace survives `strip`. */
  lemma StripKeepsNonSpace(s: string, c: char)
    requires c in s && !IsSpace(c)
    ensures c in Strip(s)
  {
    var pre, post := StripSplit(s);
    NonSpaceInMiddle(s, pre, Strip(s), post, c);
  }

  lemma NonSpaceInMiddle(s: string, pre: string, r: string, post: string, c: char)
    requires s == pre + r + post && AllSpace(pre) && AllSpace(post)
    requires c in s && !IsSpace(c)
    ensures c in r
  {
    assert s == pre + (r + post);
    NonSpaceAfterSpaces(pre, r + post, c);
    NonSpaceBeforeSpaces(r, post, c);
  }

  lemma NonSpaceAfterSpaces(a: string, b: string, c: char)
    requires c in a + b && AllSpace(a) && !IsSpace(c)
    ensures c in b
  {
    var i :| 0 <= i < |a + b| && (a + b)[i] == c;
    assert forall j :: 0 <= j < |a| ==> (a + b)[j] == a[j];
    assert i >= |a|;
    assert b[i - |a|] == c;
  }

  lemma NonSpaceBeforeSpaces(a: string, b: string, c: char)
    requires c in a + b && AllSpace(b) && !IsSpace(c)
    ensures c in a
  {
    var i :| 0 <= i < |a + b| && (a + b)[i] == c;
    assert forall j :: |a| <= j < |a + b| ==> (a + b)[j] == b[j - |a|];
    assert i < |a|;
    assert a[i] == c;
  }

  predicate IsDigit(c: char) {
    '0' <= c <= '9'
  }

  predicate AllDigits(s: string) {
    forall i :: 0 <= i < |s| ==> IsDigit(s[i])
  }

  function DigitValue(c: char): nat
    requires IsDigit(c)
  {
    c as int - '0' as int
  }

  function DigitChar(d: nat): (c: char)
    requires d < 10
    ensures IsDigit(c) && DigitValue(c) == d
  {
    ('0' as int + d) as char
  }

  /** The value of a string of decimal digits, most significant first. */
  function DigitsValue(ds: string): nat
    requires AllDigits(ds)
  {
    if ds == [] then 0 else 10 * DigitsValue(ds[..|ds| - 1]) + DigitValue(ds[|ds| - 1])
  }

  /** The decimal digits of `n`, without leading zeros. */
  function NatDigits(n: nat): (ds: string)
    ensures ds != [] && AllDigits(ds)
    ensures DigitsValue(ds) == n
  {
    if n < 10 then
      [DigitChar(n)]
    else
      var ds := NatDigits(n / 10) + [DigitChar(n % 10)];
      assert ds[..|ds| - 1] == NatDigits(n / 10);
      ds
  }

  /** Python's `str(n)` for an integer. */
  function IntToString(n: int): string {
    if n < 0 then "-" + NatDigits(-n) else NatDigits(n)
  }

  /**
   * The most digits `int()` reads from a decimal string: the default of
   * CPython's integer string conversion length limit (CPython 3.11 and later,
   * and the 3.10.7, 3.9.14, 3.8.14 and 3.7.14 releases).
   */
  const MaxStrDigits := 4300

  /** The number of decimal digits `str(n)` writes, the sign not included. */
  function DecimalLength(n: int): nat {
    |NatDigits(if n < 0 then -n else n)|
  }

  /**
   * Whether `int(s)` accepts an already stripped `s`, and its value: an
   * optional sign followed by at least one and at most `MaxStrDigits`
   * decimal digits.
   */
  function ParseInt(s: string): (r: Option<int>)
    ensures r.Some? ==>
              s != [] &&
              var k := if s[0] == '+' || s[0] == '-' then 1 else 0;
              k < |s| && AllDigits(s[k..]) && |s| - k <= MaxStrDigits
  {
    var signed := s != [] && (s[0] == '-' || s[0] == '+');
    var digits := if signed then s[1..] else s;
    if digits == [] || !AllDigits(digits) || |digits| > MaxStrDigits then
      None
    else
      var v: int := DigitsValue(digits);
      Some(if signed && s[0] == '-' then -v else v)
  }

  /**
   * Every integer written out in decimal reads back as itself, unless it has
   * more digits than the conversion limit allows.
   */
  lemma ParseIntToString(n: int)
    ensures ParseInt(IntToString(n)) == if DecimalLength(n) <= MaxStrDigits then Some(n) else None
  {
    var s := IntToString(n);
    if n < 0 {
      assert s[1..] == NatDigits(-n);
    } else {
      assert s[0] == NatDigits(n)[0];
    }
  }

  /**
   * Any text made of a sign of length `k` (none, `+` or `-`) and then decimal
   * digits is a number: leading zeros, `+` and `-0` included, as long as the
   * digits are within the limit.
   */
  lemma ParseIntDigits(s: string, k: nat)
    requires k <= 1 && k < |s|
    requires k == 1 ==> s[0] == '+' || s[0] == '-'
    requires AllDigits(s[k..])
    ensures ParseInt(s) ==
            if |s| - k > MaxStrDigits then None
            else Some(if k == 1 && s[0] == '-' then -(DigitsValue(s[k..]) as int) else DigitsValue(s[k..]) as int)
  {
    if k == 0 {
      assert s[k..] == s;
      assert IsDigit(s[0]);
    }
  }

  /** A string holding a character that is neither a digit nor a sign is not a number. */
  lemma ParseIntRejects(s: string, c: char)
    requires c in s && !IsDigit(c) && c != '+' && c != '-'
    ensures ParseInt(s) == None
  {
  }
}
