/** The link filter of python_scraper/scraper/scrape.py: of the `href`s found on a page,
    keep those the pattern `\.(xlsx|csv)$` finds, ignoring case. The page itself (browser
    session, navigation, link collection) is the caller's input. */
module Scrape {
  import opened Seqs

  /** One pattern character against one text character under `re.IGNORECASE` for a `str`
      pattern. Every pattern character here is '.' or a lower-case ASCII letter; besides
      the upper-case letter, Python's table of extra case equivalents lets 's' also match
      U+017F, LATIN SMALL LETTER LONG S. */
  predicate CharMatches(ch: char, lit: char) {
    || ch == lit
    || ('a' <= lit <= 'z' && ch as int == lit as int - 32)
    || (lit == 's' && ch == '\U{17F}')
  }

  /** `word` matches `s` at position `i`, character by character, ignoring case. */
  predicate WordAt(s: string, i: int, word: string) {
    0 <= i && i + |word| <= |s| && forall k :: 0 <= k < |word| ==> CharMatches(s[i + k], word[k])
  }

  /** Where `$` (without MULTILINE) matches: at the end, or before a final newline. */
  predicate EndAnchor(s: string, j: int) {
    j == |s| || (|s| > 0 && j == |s| - 1 && s[j] == '\n')
  }

  /** The regular expression matches starting at `i`: a literal '.', then one of the two
      alternatives, then the end anchor. */
  predicate MatchAt(s: string, i: int) {
    0 <= i < |s| && s[i] == '.' &&
      ((WordAt(s, i + 1, "xlsx") && EndAnchor(s, i + 5)) ||
       (WordAt(s, i + 1, "csv") && EndAnchor(s, i + 4)))
  }

  /** `re.search`: the pattern matches somewhere. */
  ghost predicate Search(s: string) {
    exists i :: MatchAt(s, i)
  }

  /** `s` ends with `word`, ignoring case. */
  predicate EndsWithWord(s: string, word: string) {
    |word| <= |s| && WordAt(s, |s| - |word|, word)
  }

  predicate EndsWithDataExtension(s: string) {
    EndsWithWord(s, ".xlsx") || EndsWithWord(s, ".csv")
  }

  /** The comprehension's condition, decided on the link's ending. */
  predicate KeepLink(link: string) {
    || EndsWithDataExtension(link)
    || (|link| > 0 && link[|link| - 1] == '\n' && EndsWithDataExtension(link[..|link| - 1]))
  }

  lemma DotWord(s: string, i: int, word: string)
    requires |word| >= 1 && word[0] == '.'
    requires 0 <= i && i + |word| <= |s|
    ensures WordAt(s, i, word) <==> s[i] == '.' && WordAt(s, i + 1, word[1..])
  {
    if s[i] == '.' && WordAt(s, i + 1, word[1..]) {
      forall k | 0 <= k < |word| ensures CharMatches(s[i + k], word[k]) {
        if k > 0 {
          assert word[k] == word[1..][k - 1];
        }
      }
    }
    if WordAt(s, i, word) {
      assert CharMatches(s[i], '.');
      forall k | 0 <= k < |word| - 1 ensures CharMatches(s[i + 1 + k], word[1..][k]) {
        assert CharMatches(s[i + (k + 1)], word[k + 1]);
      }
    }
  }

  lemma WordInPrefix(s: string, n: nat, i: int, word: string)
    requires n <= |s|
    requires 0 <= i && i + |word| <= n
    ensures WordAt(s, i, word) <==> WordAt(s[..n], i, word)
  {
    assert forall j :: 0 <= j < n ==> s[..n][j] == s[j];
  }

  /** A '.' at `j - |word|` followed by the rest of `word` is `s[..j]` ending in `word`. */
  lemma WordEndsAt(s: string, j: int, word: string)
    requires |word| >= 1 && word[0] == '.'
    requires |word| <= j <= |s|
    ensures (s[j - |word|] == '.' && WordAt(s, j - |word| + 1, word[1..])) <==> EndsWithWord(s[..j], word)
  {
    DotWord(s, j - |word|, word);
    WordInPrefix(s, j, j - |word|, word);
  }

  /** The condition agrees with `re.search`: the link is kept exactly when the pattern is
      found in it. */
  lemma KeepLinkIsSearch(link: string)
    ensures KeepLink(link) <==> Search(link)
  {
    if KeepLink(link) {
      KeptLinkIsFound(link);
    }
    if Search(link) {
      var i :| MatchAt(link, i);
      FoundLinkIsKept(link, i);
    }
  }

  lemma KeptLinkIsFound(link: string)
    requires KeepLink(link)
    ensures Search(link)
  {
    var n := |link|;
    assert link[..n] == link;
    if EndsWithWord(link, ".xlsx") {
      WordEndsAt(link, n, ".xlsx");
      assert ".xlsx"[1..] == "xlsx";
      assert MatchAt(link, n - 5);
    } else if EndsWithWord(link, ".csv") {
      WordEndsAt(link, n, ".csv");
      assert ".csv"[1..] == "csv";
      assert MatchAt(link, n - 4);
    } else if EndsWithWord(link[..n - 1], ".xlsx") {
      WordEndsAt(link, n - 1, ".xlsx");
      assert ".xlsx"[1..] == "xlsx";
      assert MatchAt(link, n - 6);
    } else {
      WordEndsAt(link, n - 1, ".csv");
      assert ".csv"[1..] == "csv";
      assert MatchAt(link, n - 5);
    }
  }

  lemma FoundLinkIsKept(link: string, i: int)
    requires MatchAt(link, i)
    ensures KeepLink(link)
  {
    var n := |link|;
    assert link[..n] == link;
    if WordAt(link, i + 1, "xlsx") && EndAnchor(link, i + 5) {
      assert ".xlsx"[1..] == "xlsx";
      WordEndsAt(link, i + 5, ".xlsx");
    } else {
      assert ".csv"[1..] == "csv";
      WordEndsAt(link, i + 4, ".csv");
    }
  }

  lemma KeepLinkIsSearchEverywhere()
    ensures forall link :: KeepLink(link) <==> Search(link)
  {
    forall link ensures KeepLink(link) <==> Search(link) {
      KeepLinkIsSearch(link);
    }
  }

  /** `download_links`: the links in which the pattern is found, in page order. */
  function GetDataLinks(links: seq<string>): (r: seq<string>)
    ensures forall link :: link in r <==> link in links && Search(link)
  {
    KeepLinkIsSearchEverywhere();
    Filter(KeepLink, links)
  }

  /** The kept links appear in the order the page lists them. */
  lemma GetDataLinksKeepsOrder(links: seq<string>)
    ensures IsSubsequence(GetDataLinks(links), links)
  {
    FilterIsSubsequence(KeepLink, links);
  }

  /** A link listed several times on the page is kept as many times, or not at all. */
  lemma GetDataLinksKeepsDuplicates(links: seq<string>, link: string)
    ensures multiset(GetDataLinks(links))[link] == if Search(link) then multiset(links)[link] else 0
  {
    FilterMultiplicity(KeepLink, links, link);
    KeepLinkIsSearch(link);
  }

  /** The links of two parts of a page are the links of each part, one after the other. */
  lemma GetDataLinksAppend(a: seq<string>, b: seq<string>)
    ensures GetDataLinks(a + b) == GetDataLinks(a) + GetDataLinks(b)
  {
    FilterAppend(KeepLink, a, b);
  }

  /** An upper-case extension is accepted. */
  lemma UpperCaseAccepted()
    ensures Search("a.CSV")
  {
    var s := "a.CSV";
    assert CharMatches(s[1], '.') && CharMatches(s[2], 'c') && CharMatches(s[3], 's') && CharMatches(s[4], 'v');
    assert EndsWithWord(s, ".csv");
    KeepLinkIsSearch(s);
  }

  /** A newline after the extension is accepted: `$` matches before it. */
  lemma FinalNewlineAccepted()
    ensures Search("b.csv\n")
  {
    var s := "b.csv\n";
    assert s[..5] == "b.csv";
    assert EndsWithWord(s[..5], ".csv");
    KeepLinkIsSearch(s);
  }

  /** U+017F matches the pattern's 's' under IGNORECASE. */
  lemma LongSAccepted()
    ensures Search("c.c\U{17F}v")
  {
    var s := "c.c\U{17F}v";
    assert CharMatches(s[3], 's');
    assert EndsWithWord(s, ".csv");
    KeepLinkIsSearch(s);
  }

  /** A query string after the extension rejects the link. */
  lemma QueryStringRejected()
    ensures !Search("c.csv?x=1")
  {
    var s := "c.csv?x=1";
    assert !CharMatches(s[|s| - 5], '.');
    assert !CharMatches(s[|s| - 4], '.');
    KeepLinkIsSearch(s);
  }

  /** Without the dot the extension is not enough. */
  lemma MissingDotRejected()
    ensures !Search("dcsv")
  {
    var s := "dcsv";
    assert !CharMatches(s[0], '.');
    KeepLinkIsSearch(s);
  }

  /** `$` only skips one final newline. */
  lemma SecondNewlineRejected()
    ensures !Search("e.csv\n\n")
  {
    var s := "e.csv\n\n";
    var t := s[..|s| - 1];
    assert t == "e.csv\n";
    assert !CharMatches(s[|s| - 4 + 3], ".csv"[3]) && !CharMatches(s[|s| - 5 + 4], ".xlsx"[4]);
    assert !CharMatches(t[|t| - 4 + 3], ".csv"[3]) && !CharMatches(t[|t| - 5 + 4], ".xlsx"[4]);
    KeepLinkIsSearch(s);
  }
}
