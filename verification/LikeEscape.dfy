/**
  The search of the PostgreSQL memory provider compiles a query into an ILIKE pattern; the
  in-memory provider tests for a substring. `SearchesAgree` shows that both select the same
  contents. Matching follows section 9.7.1 of the PostgreSQL manual, with backslash as escape.
*/
module LikeEscape {
  import opened Prelude
  import opened Strings

  const ESCAPE: char := '\\'

  // ---------------------------------------------------------------------------
  // Escaping
  // ---------------------------------------------------------------------------

  function EscapeLike(query: string): string {
    Replace(Replace(Replace(query, ESCAPE, [ESCAPE, ESCAPE]), '%', [ESCAPE, '%']), '_', [ESCAPE, '_'])
  }

  predicate Special(c: char) {
    c == ESCAPE || c == '%' || c == '_'
  }

  function EscapeChar(c: char): string {
    if Special(c) then [ESCAPE, c] else [c]
  }

  /** One escape per special character, decided character by character. */
  function EscapeEach(query: string): string {
    if query == "" then "" else EscapeChar(query[0]) + EscapeEach(query[1..])
  }

  /** The backslash is doubled first, so the later replacements never touch an escape they did not write. */
  lemma EscapeOneChar(c: char)
    ensures EscapeLike([c]) == EscapeChar(c)
  {
    ReplaceOne(c, ESCAPE, [ESCAPE, ESCAPE]);
    if c == ESCAPE {
      ReplaceTwo(ESCAPE, ESCAPE, '%', [ESCAPE, '%']);
      ReplaceTwo(ESCAPE, ESCAPE, '_', [ESCAPE, '_']);
    } else {
      ReplaceOne(c, '%', [ESCAPE, '%']);
      if c == '%' {
        ReplaceTwo(ESCAPE, '%', '_', [ESCAPE, '_']);
      } else {
        ReplaceOne(c, '_', [ESCAPE, '_']);
      }
    }
  }

  lemma EscapeLikeSplits(a: string, b: string)
    ensures EscapeLike(a + b) == EscapeLike(a) + EscapeLike(b)
  {
    var a1, b1 := Replace(a, ESCAPE, [ESCAPE, ESCAPE]), Replace(b, ESCAPE, [ESCAPE, ESCAPE]);
    ReplaceSplits(a, b, ESCAPE, [ESCAPE, ESCAPE]);
    ReplaceSplits(a1, b1, '%', [ESCAPE, '%']);
    ReplaceSplits(Replace(a1, '%', [ESCAPE, '%']), Replace(b1, '%', [ESCAPE, '%']), '_', [ESCAPE, '_']);
  }

  /** Three replacements in sequence are one escape per character. */
  lemma {:induction false} EscapeIsPerCharacter(query: string)
    ensures EscapeLike(query) == EscapeEach(query)
  {
    if query != "" {
      assert query == [query[0]] + query[1..];
      EscapeLikeSplits([query[0]], query[1..]);
      EscapeOneChar(query[0]);
      EscapeIsPerCharacter(query[1..]);
    }
  }

  /**
    Doubling the backslash last would escape the escapes: the pattern for "%" would match any text after a
    backslash.
  */
  lemma EscapingTheEscapeLastIsWrong()
    ensures Replace(Replace("%", '%', [ESCAPE, '%']), ESCAPE, [ESCAPE, ESCAPE]) == [ESCAPE, ESCAPE, '%']
    ensures EscapeLike("%") == [ESCAPE, '%']
  {
    ReplaceOne('%', '%', [ESCAPE, '%']);
    assert [ESCAPE, '%'] == [ESCAPE] + ['%'];
    ReplaceSplits([ESCAPE], ['%'], ESCAPE, [ESCAPE, ESCAPE]);
    ReplaceOne(ESCAPE, ESCAPE, [ESCAPE, ESCAPE]);
    ReplaceOne('%', ESCAPE, [ESCAPE, ESCAPE]);
    EscapeOneChar('%');
  }

  // ---------------------------------------------------------------------------
  // Matching
  // ---------------------------------------------------------------------------

  /** A pattern that ends in a lone escape is an error to PostgreSQL. */
  predicate WellFormed(pattern: string) {
    if pattern == "" then true
    else if pattern[0] == ESCAPE then |pattern| >= 2 && WellFormed(pattern[2..])
    else WellFormed(pattern[1..])
  }

  predicate Like(pattern: string, s: string)
    requires WellFormed(pattern)
    decreases |pattern| + |s|
  {
    if pattern == "" then s == ""
    else if pattern[0] == ESCAPE then s != "" && pattern[1] == s[0] && Like(pattern[2..], s[1..])
    else if pattern[0] == '%' then Like(pattern[1..], s) || (s != "" && Like(pattern, s[1..]))
    else if pattern[0] == '_' then s != "" && Like(pattern[1..], s[1..])
    else s != "" && pattern[0] == s[0] && Like(pattern[1..], s[1..])
  }

  function SearchPattern(query: string): string {
    "%" + EscapeLike(query) + "%"
  }

  lemma {:induction false} EscapedIsWellFormed(query: string, rest: string)
    requires WellFormed(rest)
    ensures WellFormed(EscapeEach(query) + rest)
  {
    if query == "" {
      assert EscapeEach(query) + rest == rest;
    } else {
      EscapedIsWellFormed(query[1..], rest);
      var head, tail := EscapeChar(query[0]), EscapeEach(query[1..]) + rest;
      assert EscapeEach(query) + rest == head + tail;
      assert (head + tail)[|head|..] == tail;
    }
  }

  lemma {:induction false} PercentMatchesAll(s: string)
    ensures WellFormed("%") && Like("%", s)
  {
    assert "%"[1..] == "";
    if s != "" {
      PercentMatchesAll(s[1..]);
    }
  }

  /** An escaped character followed by a pattern matches that character and then the pattern. */
  lemma EscapedCharMatches(c: char, rest: string, s: string)
    requires WellFormed(rest)
    ensures WellFormed(EscapeChar(c) + rest)
    ensures Like(EscapeChar(c) + rest, s) <==> s != "" && c == s[0] && Like(rest, s[1..])
  {
    var head := EscapeChar(c);
    assert (head + rest)[|head|..] == rest;
  }

  /** The escaped query followed by '%' matches exactly the texts that start with the query. */
  lemma {:induction false} EscapedMatchesPrefix(query: string, s: string)
    ensures WellFormed(EscapeEach(query) + "%")
    ensures Like(EscapeEach(query) + "%", s) <==> StartsWith(s, query)
  {
    EscapedIsWellFormed(query, "%");
    if query == "" {
      assert EscapeEach(query) + "%" == "%";
      PercentMatchesAll(s);
    } else {
      var rest := EscapeEach(query[1..]) + "%";
      EscapedIsWellFormed(query[1..], "%");
      assert EscapeEach(query) + "%" == EscapeChar(query[0]) + rest;
      EscapedCharMatches(query[0], rest, s);
      if s != "" {
        EscapedMatchesPrefix(query[1..], s[1..]);
        PrefixSteps(s, query);
      }
    }
  }

  lemma PrefixSteps(s: string, prefix: string)
    requires s != "" && prefix != ""
    ensures StartsWith(s, prefix) <==> s[0] == prefix[0] && StartsWith(s[1..], prefix[1..])
  {
    if |prefix| <= |s| {
      assert s[..|prefix|] == [s[0]] + s[1..][..|prefix| - 1];
      assert prefix == [prefix[0]] + prefix[1..];
    }
  }

  /** A leading '%' skips any number of characters. */
  lemma {:induction false} PercentSkips(pattern: string, s: string)
    requires WellFormed(pattern)
    ensures WellFormed("%" + pattern)
    ensures Like("%" + pattern, s) <==> exists i :: 0 <= i <= |s| && Like(pattern, s[i..])
  {
    assert ("%" + pattern)[1..] == pattern;
    assert s[0..] == s;
    if s != "" {
      PercentSkips(pattern, s[1..]);
      forall i | 0 <= i < |s| ensures s[1..][i..] == s[i + 1..] {
      }
      if i :| 0 <= i <= |s| - 1 && Like(pattern, s[1..][i..]) {
        assert Like(pattern, s[i + 1..]);
      }
      if i :| 0 <= i <= |s| && Like(pattern, s[i..]) {
        assert i > 0 ==> Like(pattern, s[1..][i - 1..]);
      }
    }
  }

  /** Without case folding: the escaped pattern selects exactly the contents in which the query occurs. */
  lemma PatternIsSubstring(query: string, content: string)
    ensures WellFormed("%" + EscapeEach(query) + "%")
    ensures Like("%" + EscapeEach(query) + "%", content) <==> Contains(content, query)
  {
    var pattern := EscapeEach(query) + "%";
    assert "%" + EscapeEach(query) + "%" == "%" + pattern;
    EscapedMatchesPrefix(query, content);
    PercentSkips(pattern, content);
    forall i | 0 <= i <= |content| ensures Like(pattern, content[i..]) <==> StartsWith(content[i..], query) {
      EscapedMatchesPrefix(query, content[i..]);
    }
  }

  // ---------------------------------------------------------------------------
  // Case folding
  // ---------------------------------------------------------------------------

  /** The text with every character replaced by its folding, which may be several characters or none. */
  function Fold(fold: char -> string, s: string): string {
    if s == "" then "" else fold(s[0]) + Fold(fold, s[1..])
  }

  /** Wildcards and the escape have no case, and no other character folds to one of them. */
  ghost predicate KeepsSpecial(fold: char -> string) {
    forall c :: if Special(c) then fold(c) == [c] else forall d :: d in fold(c) ==> !Special(d)
  }

  lemma {:induction false} EscapeEachSplits(a: string, b: string)
    ensures EscapeEach(a + b) == EscapeEach(a) + EscapeEach(b)
  {
    if a == "" {
      assert a + b == b;
    } else {
      assert (a + b)[0] == a[0] && (a + b)[1..] == a[1..] + b;
      EscapeEachSplits(a[1..], b);
      Regroup(EscapeChar(a[0]), EscapeEach(a[1..]), EscapeEach(b));
    }
  }

  lemma {:induction false} FoldSplits(fold: char -> string, a: string, b: string)
    ensures Fold(fold, a + b) == Fold(fold, a) + Fold(fold, b)
  {
    if a == "" {
      assert a + b == b;
    } else {
      assert (a + b)[0] == a[0] && (a + b)[1..] == a[1..] + b;
      FoldSplits(fold, a[1..], b);
      Regroup(fold(a[0]), Fold(fold, a[1..]), Fold(fold, b));
    }
  }

  lemma FoldOne(fold: char -> string, c: char)
    ensures Fold(fold, [c]) == fold(c)
  {
    assert [c][1..] == "";
  }

  lemma {:induction false} PlainTextIsNotEscaped(s: string)
    requires forall d :: d in s ==> !Special(d)
    ensures EscapeEach(s) == s
  {
    if s != "" {
      assert s[0] in s && forall d :: d in s[1..] ==> d in s;
      PlainTextIsNotEscaped(s[1..]);
      assert s == [s[0]] + s[1..];
    }
  }

  lemma FoldedEscape(fold: char -> string, c: char)
    requires KeepsSpecial(fold)
    ensures Fold(fold, EscapeChar(c)) == EscapeEach(fold(c))
  {
    if Special(c) {
      assert [ESCAPE, c] == [ESCAPE] + [c];
      FoldSplits(fold, [ESCAPE], [c]);
      FoldOne(fold, ESCAPE);
      FoldOne(fold, c);
      assert Special(ESCAPE);
      assert [c][1..] == "";
    } else {
      FoldOne(fold, c);
      PlainTextIsNotEscaped(fold(c));
    }
  }

  /** Folding the escaped query is escaping the folded query. */
  lemma {:induction false} FoldingCommutesWithEscaping(fold: char -> string, query: string)
    requires KeepsSpecial(fold)
    ensures Fold(fold, EscapeEach(query)) == EscapeEach(Fold(fold, query))
  {
    if query != "" {
      FoldSplits(fold, EscapeChar(query[0]), EscapeEach(query[1..]));
      FoldedEscape(fold, query[0]);
      FoldingCommutesWithEscaping(fold, query[1..]);
      EscapeEachSplits(fold(query[0]), Fold(fold, query[1..]));
    }
  }

  /** ILIKE folds both sides and matches them as LIKE does. */
  predicate ILike(fold: char -> string, pattern: string, s: string)
    requires WellFormed(Fold(fold, pattern))
  {
    Like(Fold(fold, pattern), Fold(fold, s))
  }

  /**
    For every query and content, backslashes and wildcards included, and every folding, of whatever
    lengths: the pattern is well formed and matches exactly the contents whose folding holds the
    folded query, which is what the in-memory search tests.
  */
  lemma SearchesAgree(fold: char -> string, query: string, content: string)
    requires KeepsSpecial(fold)
    ensures WellFormed(Fold(fold, SearchPattern(query)))
    ensures ILike(fold, SearchPattern(query), content) <==> Contains(Fold(fold, content), Fold(fold, query))
  {
    EscapeIsPerCharacter(query);
    var escaped := EscapeEach(query);
    FoldSplits(fold, "%" + escaped, "%");
    FoldSplits(fold, "%", escaped);
    FoldOne(fold, '%');
    assert Special('%');
    FoldingCommutesWithEscaping(fold, query);
    PatternIsSubstring(Fold(fold, query), Fold(fold, content));
  }
}
