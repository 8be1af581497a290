/**
  Card-link extraction from one search-results page (`search_pokemon_cards`).

  The parsed page is given as the `href` values of its anchors, in document
  order; `None` stands for a request that failed, for which the source returns
  an empty list.  An href is kept when it matches, from its first character,
  the pattern `^/[^/]+-Expansion/[^/]+-Card-[^#]+` (nothing anchors the end);
  the kept href loses everything from its first `#`, is prefixed with the
  site origin, and is appended unless the list already holds it.
 */
module CardLinks {
  import opened Wrappers
  import opened Text

  /** The origin the source prefixes to every kept href. */
  const Origin := "https://www.pokellector.com"

  // ---------------------------------------------------------------------------
  // The pattern, as the regular expression defines it
  // ---------------------------------------------------------------------------

  /** `-Card-` starts at `k`, no `/` lies in `h[lo..k]`, and one non-`#` character follows it. */
  ghost predicate CardMarkerAt(h: string, lo: int, k: int) {
    0 <= lo <= k && OccursAt(h, "-Card-", k) && '/' !in h[lo..k]
    && k + 6 < |h| && h[k + 6] != '#'
  }

  /**
    One way for `h` to match the pattern: `h[1..i]` is the `[^/]+` before
    `-Expansion/` (which starts at `i`), and the `[^/]+` before `-Card-` runs
    from `i + 11` up to `k`.
   */
  ghost predicate ShapeAt(h: string, i: int, k: int) {
    |h| > 0 && h[0] == '/'
    && 2 <= i && OccursAt(h, "-Expansion/", i) && '/' !in h[1..i]
    && i + 12 <= k && CardMarkerAt(h, i + 11, k)
  }

  /** `re.match(r'^/[^/]+-Expansion/[^/]+-Card-[^#]+', h)` succeeds. */
  ghost predicate MatchesCardPattern(h: string) {
    exists i, k :: ShapeAt(h, i, k)
  }

  // ---------------------------------------------------------------------------
  // The matcher
  // ---------------------------------------------------------------------------

  /** Scans for `-Card-` followed by a non-`#`, from `k`, stopping at the first `/`. */
  predicate CardMarkerFrom(h: string, k: nat)
    decreases |h| - k
  {
    if k + 6 >= |h| then false
    else if OccursAt(h, "-Card-", k) && h[k + 6] != '#' then true
    else if h[k] == '/' then false
    else CardMarkerFrom(h, k + 1)
  }

  /**
    The href filter: the first segment (up to the second `/`) must be a
    non-empty stem followed by `-Expansion`, and the next segment must hold a
    non-empty stem followed by `-Card-` and one non-`#` character.
   */
  predicate IsCardHref(h: string) {
    |h| > 0 && h[0] == '/' &&
    var j := IndexFrom(h, '/', 1);
    12 <= j && j + 1 < |h| && OccursAt(h, "-Expansion/", j - 10)
    && h[j + 1] != '/' && CardMarkerFrom(h, j + 2)
  }

  lemma {:induction false} CardMarkerFromCorrect(h: string, k: nat)
    ensures CardMarkerFrom(h, k) <==> exists m :: CardMarkerAt(h, k, m)
    decreases |h| - k
  {
    if k + 6 >= |h| {
    } else if OccursAt(h, "-Card-", k) && h[k + 6] != '#' {
      assert CardMarkerAt(h, k, k);
    } else if h[k] == '/' {
    } else {
      CardMarkerFromCorrect(h, k + 1);
      if CardMarkerFrom(h, k + 1) {
        var m :| CardMarkerAt(h, k + 1, m);
        assert h[k..m] == [h[k]] + h[k + 1..m];
        assert CardMarkerAt(h, k, m);
      } else {
        forall m | CardMarkerAt(h, k, m) ensures false {
          assert m != k;
          assert h[k + 1..m] == h[k..m][1..];
          assert CardMarkerAt(h, k + 1, m);
        }
      }
    }
  }

  /** The matcher accepts exactly the hrefs the regular expression matches. */
  lemma CardHrefMatchesPattern(h: string)
    ensures IsCardHref(h) <==> MatchesCardPattern(h)
  {
    if IsCardHref(h) {
      AcceptedHrefMatches(h);
    }
    if MatchesCardPattern(h) {
      MatchingHrefAccepted(h);
    }
  }

  lemma AcceptedHrefMatches(h: string)
    requires IsCardHref(h)
    ensures MatchesCardPattern(h)
  {
    var j := IndexFrom(h, '/', 1);
    CardMarkerFromCorrect(h, j + 2);
    var m :| CardMarkerAt(h, j + 2, m);
    assert h[j + 1..m] == [h[j + 1]] + h[j + 2..m];
    assert CardMarkerAt(h, j + 1, m);
    assert ShapeAt(h, j - 10, m);
  }

  lemma MatchingHrefAccepted(h: string)
    requires MatchesCardPattern(h)
    ensures IsCardHref(h)
  {
    var i, k :| ShapeAt(h, i, k);
    assert h[i + 10] == "-Expansion/"[10];
    forall x | 1 <= x < i + 10 ensures h[x] != '/' {
      if x < i {
        assert h[1..i][x - 1] == h[x];
      } else {
        assert h[x] == "-Expansion/"[x - i];
      }
    }
    var j := IndexFrom(h, '/', 1);
    assert j == i + 10;
    assert h[j + 1] == h[i + 11..k][0];
    assert h[j + 2..k] == h[i + 11..k][1..];
    assert CardMarkerAt(h, j + 2, k);
    CardMarkerFromCorrect(h, j + 2);
  }

  // ---------------------------------------------------------------------------
  // The list the source builds
  // ---------------------------------------------------------------------------

  /** `"https://www.pokellector.com" + href.split('#')[0]`. */
  function CardUrl(h: string): string {
    Origin + BeforeFirst(h, '#')
  }

  /** The cleaned URL of every qualifying href, in document order, repeats included. */
  function Candidates(hrefs: seq<string>): seq<string>
    decreases |hrefs|
  {
    if hrefs == [] then []
    else
      var last := hrefs[|hrefs| - 1];
      Candidates(hrefs[..|hrefs| - 1]) + (if IsCardHref(last) then [CardUrl(last)] else [])
  }

  /** `s` with every element after its first occurrence dropped (an append-if-absent loop). */
  function Dedupe(s: seq<string>): seq<string>
    decreases |s|
  {
    if s == [] then []
    else
      var d := Dedupe(s[..|s| - 1]);
      if s[|s| - 1] in d then d else d + [s[|s| - 1]]
  }

  /** What `search_pokemon_cards` returns for a page whose anchors carry `hrefs`. */
  function CardLinks(hrefs: seq<string>): seq<string> {
    Dedupe(Candidates(hrefs))
  }

  predicate NoDuplicates(s: seq<string>) {
    forall i, j :: 0 <= i < j < |s| ==> s[i] != s[j]
  }

  /** Position of the first occurrence of `x` in `s`. */
  function FirstIndex(s: seq<string>, x: string): (r: nat)
    requires x in s
    ensures r < |s| && s[r] == x && x !in s[..r]
  {
    if s[0] == x then 0
    else
      var r := 1 + FirstIndex(s[1..], x);
      assert s[..r] == [s[0]] + s[1..][..r - 1];
      r
  }

  lemma FirstIndexUnique(s: seq<string>, x: string, r: nat)
    requires r < |s| && s[r] == x && x !in s[..r]
    ensures FirstIndex(s, x) == r
  {
  }

  lemma FirstIndexExtend(s: seq<string>, y: string, x: string)
    requires x in s
    ensures x in s + [y] && FirstIndex(s + [y], x) == FirstIndex(s, x)
  {
    var f := FirstIndex(s, x);
    assert (s + [y])[..f] == s[..f];
    FirstIndexUnique(s + [y], x, f);
  }

  // ---------------------------------------------------------------------------
  // Properties of the dedupe
  // ---------------------------------------------------------------------------

  /** The deduplicated list holds exactly the elements of `s`, each once. */
  lemma {:induction false} DedupeElements(s: seq<string>)
    ensures NoDuplicates(Dedupe(s))
    ensures forall x :: x in Dedupe(s) <==> x in s
    decreases |s|
  {
    if s != [] {
      var p := s[..|s| - 1];
      DedupeElements(p);
      assert s == p + [s[|s| - 1]];
    }
  }

  /** Elements keep the order of their first occurrences in `s`. */
  lemma {:induction false} DedupeKeepsFirstOccurrenceOrder(s: seq<string>)
    ensures forall i, j :: 0 <= i < j < |Dedupe(s)| ==>
      Dedupe(s)[i] in s && Dedupe(s)[j] in s &&
      FirstIndex(s, Dedupe(s)[i]) < FirstIndex(s, Dedupe(s)[j])
    decreases |s|
  {
    if s != [] {
      var p, x := s[..|s| - 1], s[|s| - 1];
      assert s == p + [x];
      DedupeElements(p);
      DedupeKeepsFirstOccurrenceOrder(p);
      var d', d := Dedupe(p), Dedupe(s);
      assert d == if x in d' then d' else d' + [x];
      forall i, j | 0 <= i < j < |Dedupe(s)|
        ensures Dedupe(s)[i] in s && Dedupe(s)[j] in s &&
          FirstIndex(s, Dedupe(s)[i]) < FirstIndex(s, Dedupe(s)[j])
      {
        assert d'[i] in d';
        FirstIndexExtend(p, x, d'[i]);
        if j < |d'| {
          assert d'[j] in d';
          FirstIndexExtend(p, x, d'[j]);
        } else {
          assert d[j] == x && x !in p;
          assert s[..|p|] == p;
          FirstIndexUnique(s, x, |p|);
        }
      }
    } else {
      assert Dedupe(s) == [];
    }
  }

  // ---------------------------------------------------------------------------
  // Properties of the card-link list
  // ---------------------------------------------------------------------------

  /** A URL is a candidate exactly when some qualifying href cleans to it. */
  lemma {:induction false} CandidatesFromQualifyingHrefs(hrefs: seq<string>, u: string)
    ensures u in Candidates(hrefs) <==>
      exists n :: 0 <= n < |hrefs| && IsCardHref(hrefs[n]) && CardUrl(hrefs[n]) == u
    decreases |hrefs|
  {
    if hrefs != [] {
      var p := hrefs[..|hrefs| - 1];
      CandidatesFromQualifyingHrefs(p, u);
      assert forall n :: 0 <= n < |p| ==> p[n] == hrefs[n];
    }
  }

  /**
    The returned list has no repeats, and a URL is in it exactly when some
    href on the page matches the pattern and cleans to that URL.
   */
  lemma CardLinksSoundAndComplete(hrefs: seq<string>)
    ensures NoDuplicates(CardLinks(hrefs))
    ensures forall u :: u in CardLinks(hrefs) <==>
      exists n :: 0 <= n < |hrefs| && MatchesCardPattern(hrefs[n]) && CardUrl(hrefs[n]) == u
  {
    DedupeElements(Candidates(hrefs));
    forall n | 0 <= n < |hrefs| {
      CardHrefMatchesPattern(hrefs[n]);
    }
    forall u {
      CandidatesFromQualifyingHrefs(hrefs, u);
    }
  }

  /** The list keeps the order in which each URL first appears among the candidates. */
  lemma CardLinksKeepFirstAppearanceOrder(hrefs: seq<string>)
    ensures forall i, j :: 0 <= i < j < |CardLinks(hrefs)| ==>
      CardLinks(hrefs)[i] in Candidates(hrefs) && CardLinks(hrefs)[j] in Candidates(hrefs) &&
      FirstIndex(Candidates(hrefs), CardLinks(hrefs)[i]) < FirstIndex(Candidates(hrefs), CardLinks(hrefs)[j])
  {
    DedupeKeepsFirstOccurrenceOrder(Candidates(hrefs));
  }

  /** The candidates of the first `n` hrefs are a prefix of all the candidates. */
  lemma {:induction false} CandidatesOfPrefix(hrefs: seq<string>, n: nat)
    requires n <= |hrefs|
    ensures |Candidates(hrefs[..n])| <= |Candidates(hrefs)|
    ensures Candidates(hrefs)[..|Candidates(hrefs[..n])|] == Candidates(hrefs[..n])
    decreases |hrefs|
  {
    if n < |hrefs| {
      var p := hrefs[..|hrefs| - 1];
      CandidatesOfPrefix(p, n);
      assert p[..n] == hrefs[..n];
    } else {
      assert hrefs[..n] == hrefs;
    }
  }

  /**
    A URL's first position among the candidates is fixed by the first href
    that yields it: it equals the number of candidates before that href.  So
    the list's order is the order of those hrefs on the page.
   */
  lemma FirstIndexIsFirstHref(hrefs: seq<string>, n: nat)
    requires n < |hrefs| && IsCardHref(hrefs[n])
    requires forall m :: 0 <= m < n && IsCardHref(hrefs[m]) ==> CardUrl(hrefs[m]) != CardUrl(hrefs[n])
    ensures CardUrl(hrefs[n]) in Candidates(hrefs)
    ensures FirstIndex(Candidates(hrefs), CardUrl(hrefs[n])) == |Candidates(hrefs[..n])|
  {
    var u := CardUrl(hrefs[n]);
    var c, c' := Candidates(hrefs[..n]), Candidates(hrefs[..n + 1]);
    assert hrefs[..n + 1][..n] == hrefs[..n];
    assert c' == c + [u];
    CandidatesOfPrefix(hrefs, n + 1);
    assert c'[..|c|] == c;
    CandidatesFromQualifyingHrefs(hrefs[..n], u);
    assert u !in c;
    FirstIndexUnique(Candidates(hrefs), u, |c|);
  }

  /** A qualifying href at `m` puts more candidates before any later position `n`. */
  lemma CandidateCountGrows(hrefs: seq<string>, m: nat, n: nat)
    requires m < n <= |hrefs| && IsCardHref(hrefs[m])
    ensures |Candidates(hrefs[..m])| < |Candidates(hrefs[..n])|
  {
    var q := hrefs[..n];
    CandidatesOfPrefix(q, m + 1);
    assert q[..m + 1] == hrefs[..m + 1];
    assert hrefs[..m + 1][..m] == hrefs[..m];
  }

  /** A qualifying href yields an absolute URL on the site, with no fragment. */
  lemma CardUrlShape(h: string)
    requires IsCardHref(h)
    ensures |CardUrl(h)| > |Origin| && CardUrl(h)[..|Origin| + 1] == Origin + "/"
    ensures '#' !in CardUrl(h)
  {
    var clean := BeforeFirst(h, '#');
    assert clean[0] == '/';
    assert CardUrl(h)[..|Origin| + 1] == Origin + [clean[0]];
    assert '#' !in Origin;
  }

  /** Every returned URL starts with `https://www.pokellector.com/` and has no `#`. */
  lemma CardLinksAreSiteUrls(hrefs: seq<string>)
    ensures forall u :: u in CardLinks(hrefs) ==>
      |u| > |Origin| && u[..|Origin| + 1] == Origin + "/" && '#' !in u
  {
    DedupeElements(Candidates(hrefs));
    forall u | u in CardLinks(hrefs)
      ensures |u| > |Origin| && u[..|Origin| + 1] == Origin + "/" && '#' !in u
    {
      CandidatesFromQualifyingHrefs(hrefs, u);
      var n :| 0 <= n < |hrefs| && IsCardHref(hrefs[n]) && CardUrl(hrefs[n]) == u;
      CardUrlShape(hrefs[n]);
    }
  }

  /** Two qualifying hrefs that agree up to their first `#` give one single entry. */
  lemma FragmentVariantsGiveOneEntry(hrefs: seq<string>, a: nat, b: nat)
    requires a < |hrefs| && b < |hrefs|
    requires IsCardHref(hrefs[a]) && IsCardHref(hrefs[b])
    requires BeforeFirst(hrefs[a], '#') == BeforeFirst(hrefs[b], '#')
    ensures CardUrl(hrefs[a]) == CardUrl(hrefs[b])
    ensures CardUrl(hrefs[a]) in CardLinks(hrefs)
    ensures forall k, k' ::
      && 0 <= k < |CardLinks(hrefs)| && 0 <= k' < |CardLinks(hrefs)|
      && CardLinks(hrefs)[k] == CardUrl(hrefs[a]) && CardLinks(hrefs)[k'] == CardUrl(hrefs[a])
      ==> k == k'
  {
    var u := CardUrl(hrefs[a]);
    DedupeElements(Candidates(hrefs));
    CandidatesFromQualifyingHrefs(hrefs, u);
  }

  // ---------------------------------------------------------------------------
  // The loop of search_pokemon_cards
  // ---------------------------------------------------------------------------

  /**
    `search_pokemon_cards`, given the anchors' hrefs of the fetched page
    (`None` when the request failed).
   */
  method SearchPokemonCards(fetched: Option<seq<string>>) returns (links: seq<string>)
    ensures fetched.None? ==> links == []
    ensures fetched.Some? ==> links == CardLinks(fetched.value)
  {
    links := [];
    if fetched.None? {
      return;
    }
    var hrefs := fetched.value;
    for n := 0 to |hrefs|
      invariant links == Dedupe(Candidates(hrefs[..n]))
    {
      var href := hrefs[n];
      ghost var c := Candidates(hrefs[..n]);
      assert hrefs[..n + 1][..n] == hrefs[..n];
      assert Candidates(hrefs[..n + 1]) == c + (if IsCardHref(href) then [CardUrl(href)] else []);
      if IsCardHref(href) {
        var fullUrl := Origin + BeforeFirst(href, '#');
        assert (c + [fullUrl])[..|c|] == c;
        assert Dedupe(c + [fullUrl]) == if fullUrl in links then links else links + [fullUrl];
        if fullUrl !in links {
          links := links + [fullUrl];
        }
      } else {
        assert c + [] == c;
      }
    }
    assert hrefs[..|hrefs|] == hrefs;
  }
}
