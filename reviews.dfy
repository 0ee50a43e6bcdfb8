/**
 * The review-count pattern of `extract_reviews`, `\((\d+)\)`, searched
 * leftmost-first as `re.search` does, and the integer of its group.
 */
module Reviews {
  import opened Wrappers
  import opened Text

  /** The end of the run of digits that starts at `j`. */
  function DigitRunEnd(s: string, j: nat): (k: nat)
    requires j <= |s|
    ensures j <= k <= |s|
    ensures forall m :: j <= m < k ==> IsDigit(s[m])
    ensures k < |s| ==> !IsDigit(s[k])
    decreases |s| - j
  {
    if j < |s| && IsDigit(s[j]) then DigitRunEnd(s, j + 1) else j
  }

  /**
   * The pattern matches `s` at `i` with its closing parenthesis at `k`:
   * `(`, one or more digits, `)`. The group is `s[i + 1..k]`.
   */
  predicate CountMatchesAt(s: string, i: nat, k: nat) {
    && i + 1 < k < |s|
    && s[i] == '(' && s[k] == ')'
    && forall m :: i < m < k ==> IsDigit(s[m])
  }

  /** The regex engine's attempt at `i`: the index of the closing parenthesis. */
  function CountAt(s: string, i: nat): Option<nat>
    requires i <= |s|
  {
    if i < |s| && s[i] == '(' then
      var k := DigitRunEnd(s, i + 1);
      if k > i + 1 && k < |s| && s[k] == ')' then Some(k) else None
    else None
  }

  /** The attempt at `i` succeeds exactly with the match of the pattern at `i`, which is unique. */
  lemma CountAtSpec(s: string, i: nat)
    requires i <= |s|
    ensures forall k: nat :: CountMatchesAt(s, i, k) <==> CountAt(s, i) == Some(k)
  {
  }

  /** A match found by `re.search`: the opening and closing parentheses. */
  datatype CountHit = CountHit(open: nat, close: nat)

  function SearchCountFrom(s: string, i: nat): Option<CountHit>
    requires i <= |s|
    decreases |s| - i
  {
    match CountAt(s, i)
    case Some(k) => Some(CountHit(i, k))
    case None => if i == |s| then None else SearchCountFrom(s, i + 1)
  }

  lemma {:induction false} SearchCountFromLeftmost(s: string, i: nat)
    requires i <= |s|
    ensures var r := SearchCountFrom(s, i);
      && (r.Some? ==> i <= r.value.open && CountMatchesAt(s, r.value.open, r.value.close))
      && (r.Some? ==> forall j: nat, k: nat :: i <= j < r.value.open ==> !CountMatchesAt(s, j, k))
      && (r.None? ==> forall j: nat, k: nat :: i <= j <= |s| ==> !CountMatchesAt(s, j, k))
    decreases |s| - i
  {
    CountAtSpec(s, i);
    if CountAt(s, i).None? && i < |s| {
      SearchCountFromLeftmost(s, i + 1);
    }
  }

  function SearchCount(s: string): Option<CountHit> {
    SearchCountFrom(s, 0)
  }

  /**
   * The review count a text yields: the integer of the group of the leftmost
   * match, or `None` when the pattern occurs nowhere (the source then falls
   * off the end of its `try` block).
   */
  function ReviewsOfText(t: string): Option<nat> {
    match SearchCount(t)
    case Some(h) =>
      if h.open + 1 <= h.close <= |t| && AllDigits(t[h.open + 1..h.close])
      then Some(DecimalValue(t[h.open + 1..h.close]))
      else None
    case None => None
  }

  /**
   * `ReviewsOfText` is `None` exactly when no `(digits)` group occurs in the text;
   * otherwise it is the value of the digits of the leftmost one.
   */
  lemma ReviewsOfTextSpec(t: string)
    ensures ReviewsOfText(t).None? <==> forall j: nat, k: nat :: j <= |t| ==> !CountMatchesAt(t, j, k)
    ensures ReviewsOfText(t).Some? ==>
      exists j: nat, k: nat :: CountMatchesAt(t, j, k) && (forall j': nat, k': nat :: j' < j ==> !CountMatchesAt(t, j', k'))
        && AllDigits(t[j + 1..k]) && ReviewsOfText(t) == Some(DecimalValue(t[j + 1..k]))
  {
    SearchCountFromLeftmost(t, 0);
    match SearchCount(t)
    case Some(h) =>
      assert AllDigits(t[h.open + 1..h.close]);
      assert CountMatchesAt(t, h.open, h.close);
    case None =>
  }

  /**
   * A count written as `(n)` after text holding no `(` reads back as `n`,
   * whatever follows it.
   */
  lemma ReviewsRoundTrip(pre: string, n: nat, post: string)
    requires forall m :: 0 <= m < |pre| ==> pre[m] != '('
    ensures ReviewsOfText(pre + "(" + Numeral(n) + ")" + post) == Some(n)
  {
    var d := Numeral(n);
    var t := pre + "(" + d + ")" + post;
    var i := |pre|;
    var k := i + 1 + |d|;
    assert t[i + 1..k] == d;
    assert CountMatchesAt(t, i, k);
    forall j: nat, k': nat | j < i ensures !CountMatchesAt(t, j, k') {
      assert t[j] == pre[j];
    }
    ReviewsOfTextSpec(t);
    SearchCountFromLeftmost(t, 0);
    CountAtSpec(t, i);
    DecimalValueOfNumeral(n);
  }
}
