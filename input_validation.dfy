/**
  The search-term check `is_valid_input`: `re.match` of
  `^[A-Za-z0-9\- '\.]+$`.  The class admits ASCII letters and digits, `-`,
  space, `'` and `.`; `re.match` anchors at the start, and Python's `$`
  matches at the end of the string or just before a newline that ends it.
 */
module InputValidation {

  /** A character of the class `[A-Za-z0-9\- '\.]`. */
  predicate AllowedChar(c: char) {
    ('A' <= c <= 'Z') || ('a' <= c <= 'z') || ('0' <= c <= '9')
    || c == '-' || c == ' ' || c == '\'' || c == '.'
  }

  predicate AllAllowed(s: string) {
    forall i :: 0 <= i < |s| ==> AllowedChar(s[i])
  }

  /**
    The regex semantics: `[...]+` takes a non-empty prefix `s[..k]` of allowed
    characters, after which `$` holds, at the very end or before a final `\n`.
   */
  ghost predicate MatchesNamePattern(s: string) {
    exists k :: 1 <= k <= |s| && AllAllowed(s[..k]) && (k == |s| || (k == |s| - 1 && s[k] == '\n'))
  }

  /** `is_valid_input`: drop one final `\n`, then the rest must be non-empty and allowed throughout. */
  function IsValidInput(s: string): bool {
    var body := if |s| > 0 && s[|s| - 1] == '\n' then s[..|s| - 1] else s;
    body != [] && AllAllowed(body)
  }

  /** The scanner accepts exactly the strings the pattern matches. */
  lemma IsValidInputMatchesPattern(s: string)
    ensures IsValidInput(s) <==> MatchesNamePattern(s)
  {
    if IsValidInput(s) {
      var k := if s[|s| - 1] == '\n' then |s| - 1 else |s|;
      assert 1 <= k <= |s| && AllAllowed(s[..k]);
    }
    if MatchesNamePattern(s) {
      var k :| 1 <= k <= |s| && AllAllowed(s[..k]) && (k == |s| || (k == |s| - 1 && s[k] == '\n'));
      if k == |s| {
        assert s[..k] == s;
        assert !AllowedChar('\n');
        assert AllowedChar(s[|s| - 1]);
      }
    }
  }

  /**
    For a string without a newline the test is plain membership: non-empty,
    and every character a letter, a digit, `-`, space, `'` or `.`.
   */
  lemma NewlineFreeInput(s: string)
    requires '\n' !in s
    ensures IsValidInput(s) <==> s != [] && AllAllowed(s)
  {
    if |s| > 0 {
      assert s[|s| - 1] in s;
    }
  }

  /** The `$` quirk: one trailing newline does not change the verdict, a second one does. */
  lemma TrailingNewlineAccepted(t: string)
    requires '\n' !in t
    ensures IsValidInput(t + "\n") == IsValidInput(t)
    ensures !IsValidInput(t + "\n\n")
  {
    assert (t + "\n")[..|t|] == t;
    assert (t + "\n\n")[..|t| + 1] == t + "\n";
    assert (t + "\n")[|t|] == '\n';
    NewlineFreeInput(t);
  }
}
