/** The two stateless URL rules of the browser window: whether a bookmark's
    URL is opened, and what the text typed into the URL bar navigates to. */
module Navigation {
  import opened Text

  /** What opening a bookmark does: ask the current page view to navigate to
      the URL, or report a broken link (a console message in the program). */
  datatype OpenResult = Navigate(url: string) | BrokenLink

  const SchemeSeparator: string := "://"

  /** Opening a bookmark navigates exactly when the URL contains "://", and
      then to that URL unchanged. */
  function OpenBookmark(url: string): (r: OpenResult)
    ensures r.Navigate? <==> Occurs(url, SchemeSeparator)
    ensures r.Navigate? ==> r.url == url
  {
    FindSpec(url, SchemeSeparator);
    if Find(url, SchemeSeparator) >= 0 then Navigate(url) else BrokenLink
  }

  const SecurePrefix: string := "https://"
  const SearchPrefix: string := "https://www.google.com/search?q="

  /** The first '.' of `text` exists and is neither its first nor its last
      character. */
  ghost predicate InnerDot(text: string) {
    exists i :: 0 < i < |text| - 1 && text[i] == '.' && '.' !in text[..i]
  }

  /** The URL that pressing return in the URL bar navigates to: text that
      already contains "https://" as it is; text whose first '.' lies strictly
      inside it with "https://" put in front; anything else as a search. */
  function NavigateTarget(text: string): (r: string)
    ensures Occurs(text, SecurePrefix) ==> r == text
    ensures !Occurs(text, SecurePrefix) && InnerDot(text) ==> r == SecurePrefix + text
    ensures !Occurs(text, SecurePrefix) && !InnerDot(text) ==> r == SearchPrefix + text
  {
    FindSpec(text, SecurePrefix);
    if Find(text, SecurePrefix) == -1 then
      var dot := Find(text, ".");
      InnerDotIsFind(text);
      if 0 < dot < |text| - 1 then SecurePrefix + text else SearchPrefix + text
    else text
  }

  /** The URL bar's test `0 < text.find('.') < len(text) - 1` is `InnerDot`. */
  lemma InnerDotIsFind(text: string)
    ensures InnerDot(text) <==> 0 < Find(text, ".") < |text| - 1
  {
    FindChar(text, '.');
    var d := Find(text, ".");
    if InnerDot(text) {
      var i :| 0 < i < |text| - 1 && text[i] == '.' && '.' !in text[..i];
      forall j | 0 <= j < i ensures text[j] != '.' {
        assert text[..i][j] == text[j];
      }
      assert d != -1;
      forall j | 0 <= j < d ensures text[j] != '.' {
        assert text[..d][j] == text[j];
      }
    }
    if 0 < d < |text| - 1 {
      assert InnerDot(text);
    }
  }

  /** A text that starts with `pat` contains it. */
  lemma OccursInFront(pat: string, rest: string)
    ensures Occurs(pat + rest, pat)
  {
    assert (pat + rest)[0..|pat|] == pat;
    assert OccursAt(pat + rest, pat, 0);
  }

  /** The search URL starts with "https://". */
  lemma SearchIsSecure(text: string)
    ensures Occurs(SearchPrefix + text, SecurePrefix)
  {
    var u := SearchPrefix + text;
    assert u[..|SecurePrefix|] == SearchPrefix[..|SecurePrefix|];
    assert SearchPrefix[..|SecurePrefix|] == SecurePrefix;
    assert OccursAt(u, SecurePrefix, 0);
  }

  /** Every URL the URL bar navigates to contains "https://". */
  lemma NavigateTargetSecure(text: string)
    ensures Occurs(NavigateTarget(text), SecurePrefix)
  {
    if !Occurs(text, SecurePrefix) {
      if InnerDot(text) {
        OccursInFront(SecurePrefix, text);
      } else {
        SearchIsSecure(text);
      }
    }
  }

  /** Navigating to the URL bar's own result changes nothing further. */
  lemma NavigateTargetIdempotent(text: string)
    ensures NavigateTarget(NavigateTarget(text)) == NavigateTarget(text)
  {
    NavigateTargetSecure(text);
  }

  /** "https://" contains "://", so any text containing it does too. */
  lemma SecureHasSeparator(s: string)
    requires Occurs(s, SecurePrefix)
    ensures Occurs(s, SchemeSeparator)
  {
    var i :| OccursAt(s, SecurePrefix, i);
    assert s[i + 5..i + 8] == s[i..i + 8][5..8];
    assert OccursAt(s, SchemeSeparator, i + 5);
  }

  /** A URL produced from the URL bar would always be opened, never reported
      as a broken link, if it were bookmarked. */
  lemma NavigateTargetOpens(text: string)
    ensures OpenBookmark(NavigateTarget(text)) == Navigate(NavigateTarget(text))
  {
    NavigateTargetSecure(text);
    SecureHasSeparator(NavigateTarget(text));
  }
}
