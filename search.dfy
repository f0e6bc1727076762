/**
 * The test in the `input` handler that `initSearch` installs: the query,
 * lower-cased, must be non-empty and occur in the lower-cased text of the
 * main content container.
 */
module Search {
  import opened Ascii

  /** `text.includes(pattern)`: some position of `text` starts with `pattern`. */
  function Includes(text: string, pattern: string): bool
    decreases |text|
  {
    pattern <= text || (text != [] && Includes(text[1..], pattern))
  }

  /** `pattern` occurs in `text` starting at index `i`. */
  predicate OccursAt(text: string, pattern: string, i: int) {
    0 <= i && i + |pattern| <= |text| && text[i..i + |pattern|] == pattern
  }

  /** `Includes` holds exactly when the pattern occurs at some index. */
  lemma {:induction false} IncludesIffOccurs(text: string, pattern: string)
    ensures Includes(text, pattern) <==> exists i :: OccursAt(text, pattern, i)
    decreases |text|
  {
    if pattern <= text {
      assert OccursAt(text, pattern, 0);
    } else if text == [] {
    } else {
      IncludesIffOccurs(text[1..], pattern);
      if exists i :: OccursAt(text, pattern, i) {
        var i :| OccursAt(text, pattern, i);
        if i > 0 {
          assert text[1..][i - 1..i - 1 + |pattern|] == text[i..i + |pattern|];
          assert OccursAt(text[1..], pattern, i - 1);
        }
      }
      if exists i :: OccursAt(text[1..], pattern, i) {
        var i :| OccursAt(text[1..], pattern, i);
        assert text[1..][i..i + |pattern|] == text[i + 1..i + 1 + |pattern|];
        assert OccursAt(text, pattern, i + 1);
      }
    }
  }

  /** The condition under which the handler reports a match. */
  function Matches(query: string, content: string): bool {
    var q := Lower(query);
    q != "" && Includes(Lower(content), q)
  }

  /**
   * A search matches if and only if the query is non-empty and its
   * lower-cased form occurs somewhere in the lower-cased content.
   */
  lemma MatchesIff(query: string, content: string)
    ensures Matches(query, content) ==>
      query != "" && exists i :: OccursAt(Lower(content), Lower(query), i)
    ensures query != "" && (exists i :: OccursAt(Lower(content), Lower(query), i)) ==>
      Matches(query, content)
  {
    var q, c := Lower(query), Lower(content);
    IncludesIffOccurs(c, q);
    assert |q| == |query|;
  }

  /** An empty query never matches. */
  lemma EmptyQueryNeverMatches(content: string)
    ensures !Matches("", content)
  {
  }

  /** The comparison ignores the case of both the query and the content. */
  lemma MatchesIgnoresCase(query: string, content: string)
    ensures Matches(Lower(query), content) == Matches(query, content)
    ensures Matches(query, Lower(content)) == Matches(query, content)
  {
    LowerIdempotent(query);
    LowerIdempotent(content);
  }

  /** A non-empty query that appears in the content, in any case, matches it. */
  lemma QueryInContentMatches(query: string, before: string, after: string)
    requires query != ""
    ensures Matches(query, before + query + after)
  {
    var content := before + query + after;
    LowerConcat(before + query, after);
    LowerConcat(before, query);
    var lc := Lower(content);
    assert lc == Lower(before) + Lower(query) + Lower(after);
    assert lc[|before|..|before| + |query|] == Lower(query);
    assert OccursAt(lc, Lower(query), |before|);
    MatchesIff(query, content);
  }
}
