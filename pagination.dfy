/**
  Page-count resolution (`get_total_pages`).

  The parsed page 1 of a search is given as the `href` values of its anchors;
  `None` stands for a request that failed, for which the source returns 0.
  Otherwise the count starts at 1 and is raised to every page number found:
  an href that contains `?p=` or `&p=` is searched for the leftmost match of
  `[?&]p=(\d+)`, and the digit run is read as a decimal number.  Digits are
  the ASCII digits.  Python's `int()` refuses a decimal string of more than
  4300 digits (the default `int_max_str_digits`) with a `ValueError`, which
  the bare `except` around the search swallows: such an href contributes
  nothing.
 */
module Pagination {
  import opened Wrappers
  import opened Text

  predicate IsDigit(c: char) {
    '0' <= c <= '9'
  }

  function DigitValue(c: char): nat {
    if IsDigit(c) then c as int - '0' as int else 0
  }

  /** `int(ds)` for a string of ASCII digits (leading zeros are allowed). */
  function DecimalValue(ds: string): nat
    decreases |ds|
  {
    if ds == [] then 0 else 10 * DecimalValue(ds[..|ds| - 1]) + DigitValue(ds[|ds| - 1])
  }

  /** `[?&]p=\d` matches at index `i`; the digit group then starts at `i + 3`. */
  predicate PageParamAt(h: string, i: int) {
    0 <= i && i + 3 < |h| && (h[i] == '?' || h[i] == '&')
    && h[i + 1] == 'p' && h[i + 2] == '=' && IsDigit(h[i + 3])
  }

  /** End of the longest run of digits that starts at `j` (what the greedy `\d+` takes). */
  function DigitRunEnd(h: string, j: nat): (e: nat)
    requires j <= |h|
    ensures j <= e <= |h|
    ensures forall x :: j <= x < e ==> IsDigit(h[x])
    ensures e < |h| ==> !IsDigit(h[e])
    decreases |h| - j
  {
    if j < |h| && IsDigit(h[j]) then DigitRunEnd(h, j + 1) else j
  }

  /** Leftmost index at or after `from` where `[?&]p=\d` matches. */
  function FirstParamFrom(h: string, from: nat): (r: Option<nat>)
    ensures r.Some? ==> from <= r.value && PageParamAt(h, r.value)
    ensures r.Some? ==> forall i :: from <= i < r.value ==> !PageParamAt(h, i)
    ensures r.None? ==> forall i :: from <= i ==> !PageParamAt(h, i)
    decreases |h| - from
  {
    if from + 3 >= |h| then None
    else if PageParamAt(h, from) then Some(from)
    else FirstParamFrom(h, from + 1)
  }

  /** The longest decimal string `int()` converts under the default limit. */
  const IntMaxStrDigits := 4300

  /** `[?&]p=\d` matches at `i` and at no earlier index. */
  predicate LeftmostParamAt(h: string, i: int) {
    PageParamAt(h, i) && forall i' :: 0 <= i' < i ==> !PageParamAt(h, i')
  }

  /**
    `re.search(r'[?&]p=(\d+)', h)` followed by `int(match.group(1))`; a digit
    group longer than the limit raises, and the href is skipped.
   */
  function PageParam(h: string): Option<nat> {
    match FirstParamFrom(h, 0)
    case None => None
    case Some(i) =>
      var e := DigitRunEnd(h, i + 3);
      if e - (i + 3) > IntMaxStrDigits then None else Some(DecimalValue(h[i + 3..e]))
  }

  /** The page number one href contributes: the substring pre-check, then the search. */
  function PageNumber(h: string): Option<nat> {
    if Contains(h, "?p=") || Contains(h, "&p=") then PageParam(h) else None
  }

  /**
    An href contributes `n` exactly when the leftmost match of `[?&]p=(\d+)`
    starts at some `i` and its digit group, at most 4300 digits long, reads as
    `n`; it contributes nothing exactly when no `?p=` or `&p=` is followed by a
    digit or the leftmost match's digit group is too long for `int()`.  In
    particular the substring pre-check never rejects an href the search
    would accept.
   */
  lemma PageNumberIsLeftmostMatch(h: string, n: nat)
    ensures PageNumber(h) == Some(n) <==>
      exists i :: LeftmostParamAt(h, i) && DigitRunEnd(h, i + 3) - (i + 3) <= IntMaxStrDigits
        && n == DecimalValue(h[i + 3..DigitRunEnd(h, i + 3)])
    ensures PageNumber(h).None? <==>
      (forall i :: !PageParamAt(h, i))
      || exists i :: LeftmostParamAt(h, i) && DigitRunEnd(h, i + 3) - (i + 3) > IntMaxStrDigits
  {
    var first := FirstParamFrom(h, 0);
    if first.Some? {
      var i := first.value;
      if h[i] == '?' {
        assert OccursAt(h, "?p=", i);
      } else {
        assert OccursAt(h, "&p=", i);
      }
      assert PageNumber(h) == PageParam(h);
      assert LeftmostParamAt(h, i);
      forall j | LeftmostParamAt(h, j)
        ensures j == i
      {
      }
    }
  }

  /** What `get_total_pages` computes from the hrefs of a fetched page. */
  function MaxPage(hrefs: seq<string>): nat
    decreases |hrefs|
  {
    if hrefs == [] then 1
    else
      var m := MaxPage(hrefs[..|hrefs| - 1]);
      match PageNumber(hrefs[|hrefs| - 1])
      case None => m
      case Some(v) => if m < v then v else m
  }

  /**
    The page count is at least 1, at least every page number an href
    contributes, and is either 1 or one of those numbers.
   */
  lemma {:induction false} MaxPageIsMaximum(hrefs: seq<string>)
    ensures MaxPage(hrefs) >= 1
    ensures forall i :: 0 <= i < |hrefs| && PageNumber(hrefs[i]).Some? ==>
      PageNumber(hrefs[i]).value <= MaxPage(hrefs)
    ensures MaxPage(hrefs) == 1 ||
      exists i :: 0 <= i < |hrefs| && PageNumber(hrefs[i]) == Some(MaxPage(hrefs))
    decreases |hrefs|
  {
    if hrefs != [] {
      var p := hrefs[..|hrefs| - 1];
      MaxPageIsMaximum(p);
      assert forall i :: 0 <= i < |p| ==> p[i] == hrefs[i];
    }
  }

  /** A page without any pagination link counts as exactly one page. */
  lemma NoPageLinksMeansOnePage(hrefs: seq<string>)
    requires forall i :: 0 <= i < |hrefs| ==> PageNumber(hrefs[i]).None?
    ensures MaxPage(hrefs) == 1
  {
    MaxPageIsMaximum(hrefs);
  }

  /**
    An href whose leftmost page parameter has more digits than `int()`
    accepts leaves the page count where it was.
   */
  lemma OverlongPageParamIsSkipped(hrefs: seq<string>, h: string, i: nat)
    requires LeftmostParamAt(h, i) && DigitRunEnd(h, i + 3) - (i + 3) > IntMaxStrDigits
    ensures MaxPage(hrefs + [h]) == MaxPage(hrefs)
  {
    PageNumberIsLeftmostMatch(h, 0);
    assert (hrefs + [h])[..|hrefs|] == hrefs;
  }

  /**
    `get_total_pages`, given the anchors' hrefs of the fetched page 1
    (`None` when the request failed).
   */
  method GetTotalPages(fetched: Option<seq<string>>) returns (maxPage: nat)
    ensures fetched.None? ==> maxPage == 0
    ensures fetched.Some? ==> maxPage == MaxPage(fetched.value)
  {
    if fetched.None? {
      return 0;
    }
    var hrefs := fetched.value;
    maxPage := 1;
    for n := 0 to |hrefs|
      invariant maxPage == MaxPage(hrefs[..n])
    {
      var href := hrefs[n];
      assert hrefs[..n + 1][..n] == hrefs[..n];
      if Contains(href, "?p=") || Contains(href, "&p=") {
        var found := PageParam(href);
        if found.Some? {
          var pageNum := found.value;
          maxPage := if maxPage < pageNum then pageNum else maxPage;
        }
      }
    }
    assert hrefs[..|hrefs|] == hrefs;
  }
}
