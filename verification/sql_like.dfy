/**
 SQLite's `LIKE` operator as `getUsers` uses it (`name LIKE '%term%'`): `%`
 matches any run of characters, `_` matches exactly one, every other character
 matches itself with ASCII letters compared case-insensitively. There is no
 ESCAPE clause, so a `%` or `_` typed into the search box is a wildcard.
 */
module SqlLike {

  /** SQLite folds only the 26 ASCII letters when comparing under LIKE. */
  function FoldAscii(c: char): (r: char)
    ensures 'A' <= c <= 'Z' ==> r as int == c as int + 32
    ensures !('A' <= c <= 'Z') ==> r == c
  {
    if 'A' <= c <= 'Z' then (c as int + 32) as char else c
  }

  predicate Like(pattern: string, text: string)
    decreases |pattern|, |text|
  {
    if pattern == [] then text == []
    else if pattern[0] == '%' then Like(pattern[1..], text) || (text != [] && Like(pattern, text[1..]))
    else if pattern[0] == '_' then text != [] && Like(pattern[1..], text[1..])
    else text != [] && FoldAscii(pattern[0]) == FoldAscii(text[0]) && Like(pattern[1..], text[1..])
  }

  /** The pattern `%term%` built by `getUsers`. */
  function ContainsPattern(term: string): string {
    "%" + term + "%"
  }

  /** The term has no wildcard characters of its own. */
  predicate IsLiteral(term: string) {
    '%' !in term && '_' !in term
  }

  /** `term` occurs at position `i` of `text`, ignoring ASCII case. */
  predicate FoldedOccursAt(text: string, term: string, i: int) {
    && 0 <= i && i + |term| <= |text|
    && forall k :: 0 <= k < |term| ==> FoldAscii(text[i + k]) == FoldAscii(term[k])
  }

  /** A lone `%` matches anything. */
  lemma {:induction false} PercentMatchesAll(text: string)
    ensures Like("%", text)
    decreases |text|
  {
    assert "%"[1..] == [];
    if text != [] {
      PercentMatchesAll(text[1..]);
    }
  }

  /** A leading `%` lets the rest of the pattern start anywhere. */
  lemma {:induction false} LeadingPercent(p: string, text: string)
    ensures Like("%" + p, text) <==> exists i :: 0 <= i <= |text| && Like(p, text[i..])
    decreases |text|
  {
    var pat := "%" + p;
    assert pat[1..] == p;
    if text != [] {
      LeadingPercent(p, text[1..]);
      assert text[0..] == text;
      if Like(pat, text[1..]) {
        var i :| 0 <= i <= |text[1..]| && Like(p, text[1..][i..]);
        assert text[1..][i..] == text[i + 1..];
      }
      if exists i :: 0 <= i <= |text| && Like(p, text[i..]) {
        var i :| 0 <= i <= |text| && Like(p, text[i..]);
        if i > 0 {
          assert text[1..][i - 1..] == text[i..];
          assert Like(pat, text[1..]);
        }
      }
    } else {
      assert text[0..] == text;
      assert Like(pat, text) == Like(p, text);
    }
  }

  /** One pattern character against one text character: `_` takes anything,
      any other character must equal it up to ASCII case. */
  predicate CharMatches(p: char, c: char) {
    p == '_' || FoldAscii(p) == FoldAscii(c)
  }

  /** `term`, read as a LIKE pattern without `%`, matches the text at
      position `i`. */
  predicate MatchesAt(text: string, term: string, i: int) {
    && 0 <= i && i + |term| <= |text|
    && forall k :: 0 <= k < |term| ==> CharMatches(term[k], text[i + k])
  }

  /** A term without `%` followed by `%` matches exactly the texts it
      matches a prefix of. */
  lemma {:induction false} TermThenPercent(term: string, text: string)
    requires '%' !in term
    ensures Like(term + "%", text) <==> MatchesAt(text, term, 0)
    decreases |term|
  {
    var pat := term + "%";
    if term == [] {
      assert pat == "%";
      PercentMatchesAll(text);
    } else {
      assert pat[0] == term[0] && pat[1..] == term[1..] + "%";
      assert term[0] != '%';
      assert '%' !in term[1..];
      if text != [] {
        TermThenPercent(term[1..], text[1..]);
        if MatchesAt(text, term, 0) {
          forall k | 0 <= k < |term[1..]|
            ensures CharMatches(term[1..][k], text[1..][k])
          {
            assert CharMatches(term[k + 1], text[k + 1]);
          }
        }
        if Like(pat, text) {
          forall k | 0 <= k < |term| ensures CharMatches(term[k], text[k]) {
            if k > 0 {
              assert CharMatches(term[1..][k - 1], text[1..][k - 1]);
            }
          }
        }
      }
    }
  }

  /** For a search term without `%`, `LIKE '%term%'` holds exactly when the
      term matches somewhere in the text, each `_` standing for any one
      character. */
  lemma LikeMatchesSomewhere(term: string, text: string)
    requires '%' !in term
    ensures Like(ContainsPattern(term), text) <==> exists i :: MatchesAt(text, term, i)
  {
    assert ContainsPattern(term) == "%" + (term + "%");
    LeadingPercent(term + "%", text);
    if Like(ContainsPattern(term), text) {
      var i :| 0 <= i <= |text| && Like(term + "%", text[i..]);
      TermThenPercent(term, text[i..]);
      assert MatchesAt(text, term, i) by {
        forall k | 0 <= k < |term| ensures CharMatches(term[k], text[i + k]) {
          assert text[i..][k] == text[i + k];
        }
      }
    }
    if exists i :: MatchesAt(text, term, i) {
      var i :| MatchesAt(text, term, i);
      assert MatchesAt(text[i..], term, 0) by {
        forall k | 0 <= k < |term| ensures CharMatches(term[k], text[i..][k]) {
          assert text[i..][k] == text[i + k];
        }
      }
      TermThenPercent(term, text[i..]);
    }
  }

  /** For a search term without wildcards, `LIKE '%term%'` is a case-insensitive
      (ASCII only) substring test. */
  lemma LikeIsSubstring(term: string, text: string)
    requires IsLiteral(term)
    ensures Like(ContainsPattern(term), text) <==> exists i :: FoldedOccursAt(text, term, i)
  {
    LikeMatchesSomewhere(term, text);
    forall i ensures MatchesAt(text, term, i) <==> FoldedOccursAt(text, term, i) {
      assert forall k :: 0 <= k < |term| ==> term[k] != '_' by {
        forall k | 0 <= k < |term| ensures term[k] != '_' {
          assert term[k] in term;
        }
      }
    }
  }

  /** An underscore in the search box is a wildcard: a term `a_b` finds every
      text holding `a`, then any one character, then `b`. */
  lemma UnderscoreIsWildcard(a: string, b: string, c: char, before: string, after: string)
    requires '%' !in a && '%' !in b
    ensures Like(ContainsPattern(a + "_" + b), before + a + [c] + b + after)
  {
    var term := a + "_" + b;
    var text := before + a + [c] + b + after;
    assert '%' !in term by {
      assert forall k :: 0 <= k < |term| ==> term[k] != '%' by {
        forall k | 0 <= k < |term| ensures term[k] != '%' {
          if k < |a| {
            assert term[k] == a[k] && a[k] in a;
          } else if k > |a| {
            assert term[k] == b[k - |a| - 1] && b[k - |a| - 1] in b;
          }
        }
      }
    }
    assert MatchesAt(text, term, |before|) by {
      forall k | 0 <= k < |term| ensures CharMatches(term[k], text[|before| + k]) {
        if k < |a| {
          assert term[k] == a[k] && text[|before| + k] == a[k];
        } else if k > |a| {
          assert term[k] == b[k - |a| - 1] && text[|before| + k] == b[k - |a| - 1];
        }
      }
    }
    LikeMatchesSomewhere(term, text);
  }
}
