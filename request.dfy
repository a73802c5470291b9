/**
 * The result-count field shared by both scrapers: the typed text is stripped;
 * nothing typed means the default, a number means that number, and anything
 * else means the default together with a warning. A bad count never stops a
 * run.
 */
module Request {

  import opened Text

  const DefaultCount := 10

  /** The count the search is asked for, and whether the user was told the input was not a number. */
  datatype CountChoice = CountChoice(count: int, invalid: bool)

  function ResolveCount(raw: string): (r: CountChoice)
    ensures r.invalid ==> r.count == DefaultCount
    ensures r.invalid <==> Strip(raw) != [] && ParseInt(Strip(raw)) == None
    ensures ParseInt(Strip(raw)).Some? ==> r == CountChoice(ParseInt(Strip(raw)).value, false)
  {
    var t := Strip(raw);
    if t == [] then
      CountChoice(DefaultCount, false)
    else
      match ParseInt(t)
      case Some(n) => CountChoice(n, false)
      case None => CountChoice(DefaultCount, true)
  }

  /** A field left blank, or holding only whitespace, gives the default without a warning. */
  lemma ResolveCountBlank(raw: string)
    requires AllSpace(raw)
    ensures ResolveCount(raw) == CountChoice(DefaultCount, false)
  {
    StripEmptyIffBlank(raw);
  }

  /**
   * Any integer typed in decimal is used unchanged: a sign of length `k`
   * (none, `+` or `-`), then digits (leading zeros, `+` and `-0` included),
   * with whitespace around it allowed. One with more digits than the
   * conversion limit is refused like any other bad input.
   */
  lemma ResolveCountNumeral(pre: string, t: string, k: nat, post: string)
    requires AllSpace(pre) && AllSpace(post)
    requires k <= 1 && k < |t|
    requires k == 1 ==> t[0] == '+' || t[0] == '-'
    requires AllDigits(t[k..])
    ensures ResolveCount(pre + t + post) ==
            if |t| - k > MaxStrDigits then CountChoice(DefaultCount, true)
            else CountChoice(if k == 1 && t[0] == '-' then -(DigitsValue(t[k..]) as int) else DigitsValue(t[k..]) as int, false)
  {
    StripNumeral(pre, t, k, post);
    ParseIntDigits(t, k);
  }

  /** A sign with no digits after it is not a number: the default with a warning. */
  lemma ResolveCountLoneSign(pre: string, c: char, post: string)
    requires AllSpace(pre) && AllSpace(post)
    requires c == '+' || c == '-'
    ensures ResolveCount(pre + [c] + post) == CountChoice(DefaultCount, true)
  {
    StripPadded(pre, [c], post);
    assert ParseInt([c]) == None;
  }

  /** Stripping a typed numeral removes exactly the whitespace around it. */
  lemma StripNumeral(pre: string, t: string, k: nat, post: string)
    requires AllSpace(pre) && AllSpace(post)
    requires k <= 1 && k < |t|
    requires k == 1 ==> t[0] == '+' || t[0] == '-'
    requires AllDigits(t[k..])
    ensures Strip(pre + t + post) == t
  {
    assert t[|t| - 1] == t[k..][|t| - 1 - k];
    assert k == 0 ==> t[0] == t[k..][0];
    StripPadded(pre, t, post);
  }

  /** A field holding something other than whitespace, digits and signs falls back to the default with a warning. */
  lemma ResolveCountNotANumber(raw: string, c: char)
    requires c in raw && !IsSpace(c) && !IsDigit(c) && c != '+' && c != '-'
    ensures ResolveCount(raw) == CountChoice(DefaultCount, true)
  {
    StripKeepsNonSpace(raw, c);
    ParseIntRejects(Strip(raw), c);
  }
}
