/**
  SQL `ILIKE`, the case-insensitive pattern match that the question search
  hands to the database: `%` stands for any run of characters, `_` for exactly
  one, and every other character matches itself regardless of case.
 */
module Like {

  /** Lower-case an ASCII letter; every other character is left alone. */
  function Lower(c: char): char
  {
    if 'A' <= c <= 'Z' then (c as int + 32) as char else c
  }

  /** Two strings of equal length that agree character by character up to case. */
  predicate SameIgnoringCase(a: string, b: string)
  {
    |a| == |b| && forall i :: 0 <= i < |a| ==> Lower(a[i]) == Lower(b[i])
  }

  /** A string in which neither `%` nor `_` occurs. */
  predicate NoWildcards(s: string)
  {
    forall i :: 0 <= i < |s| ==> s[i] != '%' && s[i] != '_'
  }

  /**
    `text ILIKE pattern`. Without a `%`, every pattern character stands for
    exactly one text character, so only texts of the pattern's length match.
   */
  predicate Matches(text: string, pattern: string): (r: bool)
    ensures r && (forall i :: 0 <= i < |pattern| ==> pattern[i] != '%') ==> |text| == |pattern|
    decreases |pattern|, |text|
  {
    if pattern == [] then text == []
    else if pattern[0] == '%' then
      Matches(text, pattern[1..]) || (text != [] && Matches(text[1..], pattern))
    else
      text != [] && (pattern[0] == '_' || Lower(pattern[0]) == Lower(text[0]))
      && Matches(text[1..], pattern[1..])
  }

  /** `term` occurs in `text` at offset `i` when case is ignored. */
  predicate OccursAt(text: string, term: string, i: int)
  {
    0 <= i && i + |term| <= |text| && SameIgnoringCase(text[i..i + |term|], term)
  }

  /** `term` occurs somewhere in `text` when case is ignored. */
  predicate ContainsIgnoringCase(text: string, term: string)
  {
    exists i :: 0 <= i <= |text| && OccursAt(text, term, i)
  }

  /** A lone `%` matches every text, the empty one included. */
  lemma {:induction false} PercentMatchesAll(text: string)
    ensures Matches(text, "%")
    decreases |text|
  {
    if text != [] {
      PercentMatchesAll(text[1..]);
    }
  }

  /** A literal pattern followed by `%` matches exactly the texts it is a prefix of, up to case. */
  lemma {:induction false} PrefixMatches(text: string, word: string)
    requires NoWildcards(word)
    ensures Matches(text, word + "%") <==> |word| <= |text| && SameIgnoringCase(text[..|word|], word)
    decreases |word|
  {
    if word == [] {
      assert word + "%" == "%";
      PercentMatchesAll(text);
      assert SameIgnoringCase(text[..0], word);
    } else {
      var p := word + "%";
      assert p[0] == word[0] && p[1..] == word[1..] + "%";
      assert word[0] != '%' && word[0] != '_';
      if text == [] {
        assert !Matches(text, p);
      } else {
        PrefixMatches(text[1..], word[1..]);
        if |word| <= |text| {
          assert text[1..][..|word[1..]|] == text[..|word|][1..];
          if SameIgnoringCase(text[..|word|], word) {
            assert Lower(word[0]) == Lower(text[0]) by {
              assert text[..|word|][0] == text[0];
            }
            assert SameIgnoringCase(text[1..][..|word[1..]|], word[1..]) by {
              forall i | 0 <= i < |word| - 1
                ensures Lower(text[1..][..|word[1..]|][i]) == Lower(word[1..][i])
              {
                assert text[1..][..|word[1..]|][i] == text[..|word|][i + 1];
              }
            }
          }
          if Matches(text, p) {
            assert SameIgnoringCase(text[..|word|], word) by {
              forall i | 0 <= i < |word|
                ensures Lower(text[..|word|][i]) == Lower(word[i])
              {
                if i > 0 {
                  assert text[..|word|][i] == text[1..][..|word[1..]|][i - 1];
                }
              }
            }
          }
        }
      }
    }
  }

  /** Every text matches itself used as a pattern: `%` and `_` in it match themselves. */
  lemma {:induction false} MatchesItself(s: string)
    ensures Matches(s, s)
    decreases |s|
  {
    if s != [] {
      MatchesItself(s[1..]);
      if s[0] == '%' {
        assert Matches(s[1..], s[1..]);
        assert Matches(s[1..], s);
      }
    }
  }

  /** A `%` appended to a pattern keeps every text it matched (it matches the empty run). */
  lemma {:induction false} TrailingPercent(text: string, pattern: string)
    requires Matches(text, pattern)
    ensures Matches(text, pattern + "%")
    decreases |pattern|, |text|
  {
    var p := pattern + "%";
    if pattern == [] {
      assert p == "%";
      PercentMatchesAll(text);
    } else {
      assert p[0] == pattern[0] && p[1..] == pattern[1..] + "%";
      if pattern[0] == '%' {
        if Matches(text, pattern[1..]) {
          TrailingPercent(text, pattern[1..]);
        } else {
          TrailingPercent(text[1..], pattern);
        }
      } else {
        TrailingPercent(text[1..], pattern[1..]);
      }
    }
  }

  /**
    The search pattern built from a term matches a text equal to the term,
    whatever wildcards the term holds: a question whose text is the whole
    search term is always found.
   */
  lemma TermFindsItself(term: string)
    ensures Matches(term, "%" + term + "%")
  {
    MatchesItself(term);
    TrailingPercent(term, term);
    assert "%" + term + "%" == "%" + (term + "%");
    LeadingPercent(term, term + "%");
    assert term[0..] == term;
  }

  /** A pattern that starts with `%` matches when the rest matches some suffix of the text. */
  lemma {:induction false} LeadingPercent(text: string, rest: string)
    ensures Matches(text, "%" + rest) <==> exists i :: 0 <= i <= |text| && Matches(text[i..], rest)
    decreases |text|
  {
    var p := "%" + rest;
    assert p[0] == '%' && p[1..] == rest;
    assert text[0..] == text;
    if text != [] {
      LeadingPercent(text[1..], rest);
      if Matches(text[1..], p) {
        var i :| 0 <= i <= |text[1..]| && Matches(text[1..][i..], rest);
        assert text[1..][i..] == text[i + 1..];
      }
      if exists i :: 0 <= i <= |text| && Matches(text[i..], rest) {
        var i :| 0 <= i <= |text| && Matches(text[i..], rest);
        if i > 0 {
          assert text[1..][i - 1..] == text[i..];
        }
      }
    }
  }

  /**
    The search pattern `%term%` matches a text exactly when the text contains
    the term, ignoring case, provided the term holds no wildcard character.
   */
  lemma SurroundedTermMeansContains(text: string, term: string)
    requires NoWildcards(term)
    ensures Matches(text, "%" + term + "%") <==> ContainsIgnoringCase(text, term)
  {
    assert "%" + term + "%" == "%" + (term + "%");
    LeadingPercent(text, term + "%");
    if Matches(text, "%" + term + "%") {
      var i :| 0 <= i <= |text| && Matches(text[i..], term + "%");
      PrefixMatches(text[i..], term);
      assert text[i..][..|term|] == text[i..i + |term|];
      assert OccursAt(text, term, i);
    }
    if ContainsIgnoringCase(text, term) {
      var i :| 0 <= i <= |text| && OccursAt(text, term, i);
      PrefixMatches(text[i..], term);
      assert text[i..][..|term|] == text[i..i + |term|];
      assert Matches(text[i..], term + "%");
      assert Matches(text, "%" + (term + "%"));
    }
  }

  /**
    A search term of a single `%` yields the pattern `%%%`, which matches every
    text, although a text without a `%` character does not contain the term.
   */
  lemma PercentTermMatchesEverything(text: string)
    requires forall i :: 0 <= i < |text| ==> text[i] != '%'
    ensures Matches(text, "%" + "%" + "%")
    ensures !ContainsIgnoringCase(text, "%")
  {
    PercentMatchesAll(text);
    assert ("%" + "%" + "%")[1..] == "%" + "%";
    assert ("%" + "%")[1..] == "%";
  }
}
