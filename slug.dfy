/**
 * Heading slugs, as `addAnchorLinks` derives them from a heading's text:
 *
 *   text.toLowerCase().replace(/[^a-z0-9]+/g, '-').replace(/(^-|-$)/g, '')
 *
 * Each step is a function; `Words` and `JoinDash` give an independent,
 * declarative description of the result (the alphanumeric words of the
 * lower-cased text joined by single dashes), and the lemmas connect the two.
 */
module Slugs {
  import opened Ascii

  // ---------------------------------------------------------------------
  // The rule as the script writes it
  // ---------------------------------------------------------------------

  /** Drops the maximal run of characters outside `[a-z0-9]` at the front of `s`. */
  function SkipSeparators(s: string): (r: string)
    ensures |r| <= |s|
    ensures r == [] || IsAlnum(r[0])
  {
    if s != [] && !IsAlnum(s[0]) then SkipSeparators(s[1..]) else s
  }

  /**
   * `SkipSeparators` keeps a suffix of `s`, and the prefix it drops holds no
   * `[a-z0-9]` character: it drops exactly the greedy `[^a-z0-9]+` match.
   */
  lemma {:induction false} SkippedAreSeparators(s: string)
    ensures SkipSeparators(s) == s[|s| - |SkipSeparators(s)|..]
    ensures forall i :: 0 <= i < |s| - |SkipSeparators(s)| ==> !IsAlnum(s[i])
  {
    if s != [] && !IsAlnum(s[0]) {
      SkippedAreSeparators(s[1..]);
    }
  }

  /**
   * `.replace(/[^a-z0-9]+/g, '-')`: scanning from the left, a character of
   * `[a-z0-9]` is copied and a maximal run of other characters becomes one dash.
   */
  function CollapseSeparators(s: string): string
    decreases |s|
  {
    if s == [] then []
    else if IsAlnum(s[0]) then [s[0]] + CollapseSeparators(s[1..])
    else "-" + CollapseSeparators(SkipSeparators(s[1..]))
  }

  /** The `^-` alternative: one dash at the very start. */
  function DropLeadingDash(s: string): string {
    if s != [] && s[0] == '-' then s[1..] else s
  }

  /** The `-$` alternative: one dash at the very end. */
  function DropTrailingDash(s: string): string {
    if s != [] && s[|s| - 1] == '-' then s[..|s| - 1] else s
  }

  /**
   * `.replace(/(^-|-$)/g, '')`. The global scan matches `^-` first; the
   * `-$` match can only start after it, so a lone `"-"` is consumed once.
   */
  function TrimEdgeDashes(s: string): string {
    DropTrailingDash(DropLeadingDash(s))
  }

  /** The id `addAnchorLinks` gives a heading whose text is `text`. */
  function Slug(text: string): string {
    TrimEdgeDashes(CollapseSeparators(Lower(text)))
  }

  // ---------------------------------------------------------------------
  // Reference description: words joined by single dashes
  // ---------------------------------------------------------------------

  /** A non-empty run of `[a-z0-9]` characters. */
  predicate IsWord(w: string) {
    w != [] && forall i :: 0 <= i < |w| ==> IsAlnum(w[i])
  }

  /** `s` holds `--` at position `i`. */
  predicate DoubleDashAt(s: string, i: nat)
    requires i + 1 < |s|
  {
    s[i] == '-' && s[i + 1] == '-'
  }

  /** The shape of a slug: only `[a-z0-9-]`, no dash at either end, no `--`. */
  predicate IsSlug(s: string) {
    && (forall i :: 0 <= i < |s| ==> IsAlnum(s[i]) || s[i] == '-')
    && (s != [] ==> s[0] != '-' && s[|s| - 1] != '-')
    && (forall i: nat :: i + 1 < |s| ==> !DoubleDashAt(s, i))
  }

  /** The longest prefix of `s` made of `[a-z0-9]` characters. */
  function LeadingWord(s: string): (w: string)
    ensures |w| <= |s|
    ensures |w| == |s| || !IsAlnum(s[|w|])
  {
    if s != [] && IsAlnum(s[0]) then [s[0]] + LeadingWord(s[1..]) else []
  }

  /** `LeadingWord(s)` is a prefix of `s` made only of `[a-z0-9]` characters. */
  lemma {:induction false} LeadingWordIsPrefix(s: string)
    ensures LeadingWord(s) == s[..|LeadingWord(s)|]
    ensures forall i :: 0 <= i < |LeadingWord(s)| ==> IsAlnum(LeadingWord(s)[i])
  {
    if s != [] && IsAlnum(s[0]) {
      LeadingWordIsPrefix(s[1..]);
    }
  }

  /** The maximal runs of `[a-z0-9]` characters of `s`, in order. */
  function Words(s: string): seq<string>
    decreases |s|
  {
    var r := SkipSeparators(s);
    if r == [] then []
    else
      var w := LeadingWord(r);
      assert |w| > 0;
      [w] + Words(r[|w|..])
  }

  /** Every element of `Words(s)` is a word. */
  lemma {:induction false} WordsAreWords(s: string)
    ensures forall k :: 0 <= k < |Words(s)| ==> IsWord(Words(s)[k])
    decreases |s|
  {
    var r := SkipSeparators(s);
    if r != [] {
      var w := LeadingWord(r);
      LeadingWordIsPrefix(r);
      WordsAreWords(r[|w|..]);
      assert Words(s) == [w] + Words(r[|w|..]);
    }
  }

  /** The words joined with one dash between neighbours. */
  function JoinDash(ws: seq<string>): string {
    if ws == [] then ""
    else if |ws| == 1 then ws[0]
    else ws[0] + "-" + JoinDash(ws[1..])
  }

  /** The `[a-z0-9]` characters of `s`, in order. */
  function Alnums(s: string): string {
    if s == [] then [] else (if IsAlnum(s[0]) then [s[0]] else []) + Alnums(s[1..])
  }

  function Concat(ws: seq<string>): string {
    if ws == [] then [] else ws[0] + Concat(ws[1..])
  }

  // ---------------------------------------------------------------------
  // Unfolding facts
  // ---------------------------------------------------------------------

  lemma CollapseStart(s: string)
    ensures CollapseSeparators(s) == [] <==> s == []
    ensures s != [] && IsAlnum(s[0]) ==> CollapseSeparators(s)[0] == s[0]
  {
  }

  lemma WordsSkip(s: string)
    ensures Words(s) == Words(SkipSeparators(s))
  {
    var r := SkipSeparators(s);
    assert SkipSeparators(r) == r;
  }

  lemma TrimAfterDash(x: string)
    requires x == [] || x[0] != '-'
    ensures TrimEdgeDashes("-" + x) == DropTrailingDash(x)
    ensures TrimEdgeDashes(x) == DropTrailingDash(x)
  {
    assert ("-" + x)[1..] == x;
  }

  lemma TrimAfterChar(c: char, x: string)
    requires c != '-'
    ensures TrimEdgeDashes([c] + x) == [c] + DropTrailingDash(x)
  {
    if x != [] && x[|x| - 1] == '-' {
      assert ([c] + x)[..|x|] == [c] + x[..|x| - 1];
    }
  }

  lemma DropTrailingAfterDash(x: string)
    requires x != []
    ensures DropTrailingDash("-" + x) == "-" + DropTrailingDash(x)
  {
    if x[|x| - 1] == '-' {
      assert ("-" + x)[..|x|] == "-" + x[..|x| - 1];
    }
  }

  lemma DropFirstOfConcat(a: string, b: string)
    requires a != []
    ensures (a + b)[1..] == a[1..] + b
  {
  }

  lemma FirstAndRest(a: string)
    requires a != []
    ensures [a[0]] + a[1..] == a
  {
  }

  lemma SplitAround(s: string, i: nat)
    requires i < |s|
    ensures s == s[..i] + [s[i]] + s[i + 1..]
  {
  }

  lemma ConcatAssoc(a: string, b: string, c: string)
    ensures a + (b + c) == a + b + c
  {
  }

  lemma JoinDashPrepend(x: string, ws: seq<string>)
    requires ws != []
    ensures JoinDash([x] + ws) == x + "-" + JoinDash(ws)
  {
    assert ([x] + ws)[1..] == ws;
  }

  lemma JoinDashCons(c: char, w: string, rest: seq<string>)
    ensures JoinDash([[c] + w] + rest) == [c] + JoinDash([w] + rest)
  {
    if rest != [] {
      assert ([[c] + w] + rest)[1..] == rest;
      assert ([w] + rest)[1..] == rest;
    }
  }

  lemma LeadingWordOfWord(w: string, x: string)
    requires forall i :: 0 <= i < |w| ==> IsAlnum(w[i])
    requires x == [] || !IsAlnum(x[0])
    ensures LeadingWord(w + x) == w
    decreases |w|
  {
    var wx := w + x;
    if w == [] {
      assert wx == x;
    } else {
      assert wx[0] == w[0];
      DropFirstOfConcat(w, x);
      assert forall i :: 0 <= i < |w[1..]| ==> IsAlnum(w[1..][i]);
      LeadingWordOfWord(w[1..], x);
      assert LeadingWord(wx) == [w[0]] + LeadingWord(wx[1..]);
      FirstAndRest(w);
    }
  }

  // ---------------------------------------------------------------------
  // The rule equals the reference description
  // ---------------------------------------------------------------------

  /** The case of `CollapseIsJoinedWords` where `s` starts with a separator. */
  lemma SeparatorFirst(s: string)
    requires s != [] && !IsAlnum(s[0])
    requires var r := SkipSeparators(s[1..]);
      TrimEdgeDashes(CollapseSeparators(r)) == JoinDash(Words(r))
    ensures TrimEdgeDashes(CollapseSeparators(s)) == JoinDash(Words(s))
  {
    var r := SkipSeparators(s[1..]);
    assert SkipSeparators(s) == r;
    WordsSkip(s);
    CollapseStart(r);
    TrimAfterDash(CollapseSeparators(r));
  }

  /** The case where `s` starts with two word characters. */
  lemma WordContinues(s: string)
    requires |s| >= 2 && IsAlnum(s[0]) && IsAlnum(s[1])
    requires TrimEdgeDashes(CollapseSeparators(s[1..])) == JoinDash(Words(s[1..]))
    ensures TrimEdgeDashes(CollapseSeparators(s)) == JoinDash(Words(s))
  {
    var c, t := s[0], s[1..];
    assert CollapseSeparators(s) == [c] + CollapseSeparators(t);
    TrimAfterChar(c, CollapseSeparators(t));
    CollapseStart(t);
    TrimAfterDash(CollapseSeparators(t));
    var w := LeadingWord(t);
    assert SkipSeparators(s) == s;
    assert SkipSeparators(t) == t;
    assert LeadingWord(s) == [c] + w;
    assert s[|[c] + w|..] == t[|w|..];
    var rest := Words(t[|w|..]);
    assert Words(t) == [w] + rest;
    assert Words(s) == [[c] + w] + rest;
    JoinDashCons(c, w, rest);
    assert JoinDash(Words(s)) == [c] + JoinDash(Words(t));
    assert TrimEdgeDashes(CollapseSeparators(t)) == DropTrailingDash(CollapseSeparators(t));
    assert TrimEdgeDashes(CollapseSeparators(s)) == [c] + DropTrailingDash(CollapseSeparators(t));
  }

  /** The case where `s` is a single word character. */
  lemma SingleWord(s: string)
    requires |s| == 1 && IsAlnum(s[0])
    ensures TrimEdgeDashes(CollapseSeparators(s)) == JoinDash(Words(s))
  {
    assert CollapseSeparators(s) == [s[0]] + CollapseSeparators([]);
    assert SkipSeparators(s) == s;
    assert LeadingWord(s) == [s[0]] + LeadingWord([]);
    assert s == [s[0]] && s[1..] == [];
    assert LeadingWord(s) == s;
    assert Words(s) == [s] + Words(s[|s|..]);
  }

  /** The case where `s` starts with a one-character word followed by a separator. */
  lemma WordEnds(s: string)
    requires |s| >= 2 && IsAlnum(s[0]) && !IsAlnum(s[1])
    requires var r := SkipSeparators(s[2..]);
      TrimEdgeDashes(CollapseSeparators(r)) == JoinDash(Words(r))
    ensures TrimEdgeDashes(CollapseSeparators(s)) == JoinDash(Words(s))
  {
    var c, t := s[0], s[1..];
    var ct := CollapseSeparators(t);
    assert CollapseSeparators(s) == [c] + ct;
    TrimAfterChar(c, ct);
    assert SkipSeparators(s) == s;
    assert LeadingWord(s) == [c];
    assert s[|[c]|..] == t;
    assert Words(s) == [[c]] + Words(t);
    assert s[2..] == t[1..];
    var r := SkipSeparators(t[1..]);
    assert SkipSeparators(t) == r;
    WordsSkip(t);
    var cr, wr := CollapseSeparators(r), Words(r);
    assert ct == "-" + cr;
    CollapseStart(r);
    if r == [] {
      assert wr == [];
      assert JoinDash([[c]] + wr) == [c];
      assert DropTrailingDash(ct) == [];
    } else {
      assert wr == [LeadingWord(r)] + Words(r[|LeadingWord(r)|..]);
      TrimAfterDash(cr);
      DropTrailingAfterDash(cr);
      WordEndsJoin(c, cr, wr);
    }
  }

  lemma WordEndsJoin(c: char, cr: string, wr: seq<string>)
    requires wr != [] && c != '-'
    requires DropTrailingDash("-" + cr) == "-" + JoinDash(wr)
    ensures [c] + DropTrailingDash("-" + cr) == JoinDash([[c]] + wr)
  {
    JoinDashPrepend([c], wr);
  }

  /** Collapsing and trimming yields exactly the words of `s`, joined by single dashes. */
  lemma {:induction false} CollapseIsJoinedWords(s: string)
    ensures TrimEdgeDashes(CollapseSeparators(s)) == JoinDash(Words(s))
    decreases |s|
  {
    if s == [] {
    } else if !IsAlnum(s[0]) {
      CollapseIsJoinedWords(SkipSeparators(s[1..]));
      SeparatorFirst(s);
    } else if |s| >= 2 && IsAlnum(s[1]) {
      CollapseIsJoinedWords(s[1..]);
      WordContinues(s);
    } else if |s| == 1 {
      SingleWord(s);
    } else {
      CollapseIsJoinedWords(SkipSeparators(s[2..]));
      WordEnds(s);
    }
  }

  /**
   * The slug of `text` is the sequence of maximal `[a-z0-9]` runs of its
   * lower-cased form, joined by single dashes.
   */
  lemma SlugIsJoinedWords(text: string)
    ensures Slug(text) == JoinDash(Words(Lower(text)))
  {
    CollapseIsJoinedWords(Lower(text));
  }

  // ---------------------------------------------------------------------
  // Words and JoinDash are inverse on well-formed inputs
  // ---------------------------------------------------------------------

  lemma JoinDashStart(ws: seq<string>)
    requires ws != [] && IsWord(ws[0])
    ensures JoinDash(ws) != [] && JoinDash(ws)[0] == ws[0][0]
  {
  }

  /** A slug of which a non-dash suffix is taken is still a slug. */
  lemma SlugSuffix(s: string, i: nat)
    requires IsSlug(s) && i <= |s|
    requires i < |s| ==> s[i] != '-'
    ensures IsSlug(s[i..])
  {
    var u := s[i..];
    assert forall k :: 0 <= k < |u| ==> u[k] == s[i + k];
    forall k: nat | k + 1 < |u| ensures !DoubleDashAt(u, k) {
      assert !DoubleDashAt(s, i + k);
    }
  }

  /** Two non-empty slugs joined by one dash form a slug. */
  lemma SlugJoin(a: string, b: string)
    requires IsSlug(a) && IsSlug(b) && a != [] && b != []
    ensures IsSlug(a + "-" + b)
  {
    var s := a + "-" + b;
    assert forall k :: 0 <= k < |a| ==> s[k] == a[k];
    assert s[|a|] == '-';
    assert forall k :: |a| < k < |s| ==> s[k] == b[k - |a| - 1];
    forall k: nat | k + 1 < |s| ensures !DoubleDashAt(s, k) {
      if k + 1 < |a| {
        assert !DoubleDashAt(a, k);
      } else if k > |a| {
        assert !DoubleDashAt(b, k - |a| - 1);
      }
    }
  }

  /** Joining words with single dashes yields a slug. */
  lemma {:induction false} JoinDashIsSlug(ws: seq<string>)
    requires forall k :: 0 <= k < |ws| ==> IsWord(ws[k])
    ensures IsSlug(JoinDash(ws))
  {
    if |ws| == 1 {
    } else if |ws| > 1 {
      JoinDashIsSlug(ws[1..]);
      JoinDashStart(ws[1..]);
      SlugJoin(ws[0], JoinDash(ws[1..]));
    }
  }

  /** Splitting a dash-joined list of words gives the words back. */
  lemma {:induction false} WordsOfJoinDash(ws: seq<string>)
    requires forall k :: 0 <= k < |ws| ==> IsWord(ws[k])
    ensures Words(JoinDash(ws)) == ws
  {
    if ws == [] {
    } else {
      var w := ws[0];
      var j := JoinDash(ws);
      assert SkipSeparators(j) == j;
      if |ws| == 1 {
        LeadingWordOfWord(w, []);
        assert w + [] == w;
        assert j[|w|..] == [];
        assert Words(j) == [w] + Words([]);
      } else {
        var jr := JoinDash(ws[1..]);
        JoinDashStart(ws[1..]);
        assert j == w + ("-" + jr);
        LeadingWordOfWord(w, "-" + jr);
        assert j[|w|..] == "-" + jr;
        assert Words(j) == [w] + Words("-" + jr);
        WordsSkip("-" + jr);
        assert ("-" + jr)[1..] == jr;
        assert SkipSeparators("-" + jr) == jr;
        WordsOfJoinDash(ws[1..]);
        assert [w] + ws[1..] == ws;
      }
    }
  }

  /** A dash in front of a word-initial string does not change its words. */
  lemma WordsAfterDash(tail: string)
    requires tail != [] && IsAlnum(tail[0])
    ensures Words("-" + tail) == Words(tail)
  {
    var d := "-" + tail;
    assert d[0] == '-' && d[1..] == tail;
    assert SkipSeparators(d) == tail;
    WordsSkip(d);
  }

  /** The words of `s` are its leading word followed by the words of the rest. */
  lemma WordsOfWordStart(s: string)
    requires s != [] && IsAlnum(s[0])
    ensures Words(s) == [LeadingWord(s)] + Words(s[|LeadingWord(s)|..])
  {
    assert SkipSeparators(s) == s;
  }

  /** A slug is a word, or a word, a dash and a shorter slug. */
  lemma SlugSplitsAtFirstDash(s: string)
    requires IsSlug(s) && s != []
    ensures var w := LeadingWord(s);
      && IsWord(w)
      && (w != s ==>
           && |w| + 1 < |s|
           && s[|w|] == '-'
           && IsSlug(s[|w| + 1..]))
  {
    var w := LeadingWord(s);
    LeadingWordIsPrefix(s);
    if |w| < |s| {
      assert s[|w|] == '-';
      assert |w| != |s| - 1;
      assert !DoubleDashAt(s, |w|);
      SlugSuffix(s, |w| + 1);
    }
  }

  /** How `Words` splits a slug at its first dash. */
  lemma WordsOfSlug(s: string)
    requires IsSlug(s) && s != []
    ensures LeadingWord(s) == s ==> Words(s) == [s]
    ensures var w := LeadingWord(s);
      w != s ==> |w| + 1 < |s| && Words(s) == [w] + Words(s[|w| + 1..])
  {
    var w := LeadingWord(s);
    SlugSplitsAtFirstDash(s);
    LeadingWordIsPrefix(s);
    WordsOfWordStart(s);
    if w == s {
      assert s[|w|..] == [];
    } else {
      var tail := s[|w| + 1..];
      assert s[|w|..] == "-" + tail;
      WordsAfterDash(tail);
    }
  }

  /** A slug is the dash-joined list of its own words. */
  lemma {:induction false} JoinDashOfWords(s: string)
    requires IsSlug(s)
    ensures JoinDash(Words(s)) == s
    decreases |s|
  {
    if s != [] {
      SlugSplitsAtFirstDash(s);
      WordsOfSlug(s);
      var w := LeadingWord(s);
      if w != s {
        var tail := s[|w| + 1..];
        LeadingWordIsPrefix(s);
        SplitAround(s, |w|);
        assert [s[|w|]] == "-";
        JoinDashOfWords(tail);
        assert Words(tail) != [];
        JoinDashPrepend(w, Words(tail));
      }
    }
  }

  // ---------------------------------------------------------------------
  // The properties of the slug rule
  // ---------------------------------------------------------------------

  /**
   * Every character of a slug is in `[a-z0-9-]`; a slug never starts or ends
   * with a dash and never holds two dashes in a row.
   */
  lemma SlugShape(text: string)
    ensures var s := Slug(text);
      && (forall i :: 0 <= i < |s| ==> IsAlnum(s[i]) || s[i] == '-')
      && (s != [] ==> s[0] != '-' && s[|s| - 1] != '-')
      && (forall i :: 0 <= i < |s| - 1 ==> !(s[i] == '-' && s[i + 1] == '-'))
  {
    SlugIsJoinedWords(text);
    WordsAreWords(Lower(text));
    JoinDashIsSlug(Words(Lower(text)));
    var s := Slug(text);
    forall i | 0 <= i < |s| - 1 ensures !(s[i] == '-' && s[i + 1] == '-') {
      assert !DoubleDashAt(s, i);
    }
  }

  /** The strings the rule leaves unchanged are exactly the slugs. */
  lemma SlugFixedPoints(s: string)
    ensures Slug(s) == s <==> IsSlug(s)
  {
    if IsSlug(s) {
      LowerFixed(s);
      SlugIsJoinedWords(s);
      JoinDashOfWords(s);
    } else {
      SlugShape(s);
    }
  }

  /** Deriving a slug from a slug changes nothing. */
  lemma SlugIdempotent(text: string)
    ensures Slug(Slug(text)) == Slug(text)
  {
    SlugShape(text);
    SlugFixedPoints(Slug(text));
  }

  // ---------------------------------------------------------------------
  // The slug keeps the alphanumerics, in order
  // ---------------------------------------------------------------------

  lemma {:induction false} AlnumsConcat(a: string, b: string)
    ensures Alnums(a + b) == Alnums(a) + Alnums(b)
  {
    if a == [] {
      assert a + b == b;
    } else {
      var ab := a + b;
      var head: string := if IsAlnum(a[0]) then [a[0]] else [];
      assert ab[0] == a[0];
      DropFirstOfConcat(a, b);
      AlnumsConcat(a[1..], b);
      calc {
        Alnums(ab);
        head + Alnums(a[1..] + b);
        head + (Alnums(a[1..]) + Alnums(b));
        (head + Alnums(a[1..])) + Alnums(b);
        Alnums(a) + Alnums(b);
      }
    }
  }

  lemma {:induction false} AlnumsEmpty(s: string)
    ensures Alnums(s) == [] <==> forall i :: 0 <= i < |s| ==> !IsAlnum(s[i])
  {
    if s != [] {
      AlnumsEmpty(s[1..]);
      assert forall i :: 1 <= i < |s| ==> s[i] == s[1..][i - 1];
    }
  }

  lemma {:induction false} AlnumsOfAlnums(s: string)
    requires forall i :: 0 <= i < |s| ==> IsAlnum(s[i])
    ensures Alnums(s) == s
  {
    if s != [] {
      AlnumsOfAlnums(s[1..]);
    }
  }

  /** The characters `SkipSeparators` drops do not contribute to `Alnums`. */
  lemma {:induction false} AlnumsSkip(s: string)
    ensures Alnums(SkipSeparators(s)) == Alnums(s)
  {
    if s != [] && !IsAlnum(s[0]) {
      AlnumsSkip(s[1..]);
    }
  }

  /** Concatenating the words of `s` gives its alphanumerics. */
  lemma {:induction false} ConcatWords(s: string)
    ensures Concat(Words(s)) == Alnums(s)
    decreases |s|
  {
    var r := SkipSeparators(s);
    AlnumsSkip(s);
    if r != [] {
      var w := LeadingWord(r);
      var rest := r[|w|..];
      LeadingWordIsPrefix(r);
      assert r == w + rest;
      AlnumsConcat(w, rest);
      AlnumsOfAlnums(w);
      ConcatWords(rest);
      assert Words(s) == [w] + Words(rest);
      assert Concat([w] + Words(rest)) == w + Concat(Words(rest));
    }
  }

  /** A leading dash does not contribute to `Alnums`. */
  lemma AlnumsDash(tail: string)
    ensures Alnums("-" + tail) == Alnums(tail)
  {
    var d := "-" + tail;
    assert d[0] == '-';
    assert d[1..] == tail;
  }

  /** A word followed by a dash contributes exactly its own characters. */
  lemma AlnumsWordDash(w: string, tail: string)
    requires IsWord(w)
    ensures Alnums(w + ("-" + tail)) == w + Alnums(tail)
  {
    AlnumsOfAlnums(w);
    AlnumsConcat(w, "-" + tail);
    AlnumsDash(tail);
  }

  /** Dropping the dashes of a dash-joined list of words concatenates the words. */
  lemma {:induction false} AlnumsOfJoinDash(ws: seq<string>)
    requires forall k :: 0 <= k < |ws| ==> IsWord(ws[k])
    ensures Alnums(JoinDash(ws)) == Concat(ws)
  {
    if ws != [] {
      var w := ws[0];
      var rest := ws[1..];
      assert Concat(ws) == w + Concat(rest);
      if rest == [] {
        AlnumsOfAlnums(w);
        assert JoinDash(ws) == w;
      } else {
        assert IsWord(rest[0]);
        AlnumsOfJoinDash(rest);
        ConcatAssoc(w, "-", JoinDash(rest));
        assert JoinDash(ws) == w + ("-" + JoinDash(rest));
        AlnumsWordDash(w, JoinDash(rest));
      }
    }
  }

  /**
   * The slug holds the `[a-z0-9]` characters of the lower-cased text, in their
   * original order, and nothing else but dashes.
   */
  lemma SlugKeepsAlnums(text: string)
    ensures Alnums(Slug(text)) == Alnums(Lower(text))
  {
    SlugIsJoinedWords(text);
    WordsAreWords(Lower(text));
    AlnumsOfJoinDash(Words(Lower(text)));
    ConcatWords(Lower(text));
  }

  /** Text without any `[a-z0-9]` character after lower-casing, and only such text, yields the empty slug. */
  lemma SlugEmptyIff(text: string)
    ensures Slug(text) == "" <==> forall i :: 0 <= i < |text| ==> !IsAlnum(Lower(text)[i])
  {
    SlugKeepsAlnums(text);
    SlugShape(text);
    AlnumsEmpty(Lower(text));
    AlnumsEmpty(Slug(text));
  }

  /** Separators in front of `rest` are skipped, up to `rest`'s first word character. */
  lemma {:induction false} SkipSeparatorsBefore(sep: string, rest: string)
    requires forall i :: 0 <= i < |sep| ==> !IsAlnum(sep[i])
    requires rest == [] || IsAlnum(rest[0])
    ensures SkipSeparators(sep + rest) == rest
  {
    if sep == [] {
      assert sep + rest == rest;
    } else {
      assert (sep + rest)[0] == sep[0];
      DropFirstOfConcat(sep, rest);
      SkipSeparatorsBefore(sep[1..], rest);
    }
  }

  /** A word followed by a separator (or by nothing) is the first of the words. */
  lemma WordsAfterWord(w: string, rest: string)
    requires IsWord(w)
    requires rest == [] || !IsAlnum(rest[0])
    ensures Words(w + rest) == [w] + Words(rest)
  {
    var s := w + rest;
    assert s[0] == w[0];
    assert SkipSeparators(s) == s;
    LeadingWordOfWord(w, rest);
    assert s[|w|..] == rest;
  }

  /** Separators in front of `rest` do not change its words. */
  lemma WordsAfterSeparators(sep: string, rest: string)
    requires forall i :: 0 <= i < |sep| ==> !IsAlnum(sep[i])
    requires rest == [] || IsAlnum(rest[0])
    ensures Words(sep + rest) == Words(rest)
  {
    SkipSeparatorsBefore(sep, rest);
    WordsSkip(sep + rest);
    WordsSkip(rest);
  }

  /** Two words, each followed by separators, give exactly those two words. */
  lemma WordsOfTwo(a: string, s1: string, b: string, s2: string)
    requires IsWord(a) && IsWord(b) && s1 != []
    requires forall i :: 0 <= i < |s1| ==> !IsAlnum(s1[i])
    requires forall i :: 0 <= i < |s2| ==> !IsAlnum(s2[i])
    ensures Words(a + (s1 + (b + s2))) == [a, b]
  {
    var t := b + s2;
    assert (s1 + t)[0] == s1[0];
    WordsAfterWord(a, s1 + t);
    assert t[0] == b[0];
    WordsAfterSeparators(s1, t);
    WordsAfterWord(b, s2);
    assert s2 + [] == s2;
    WordsAfterSeparators(s2, []);
  }

  lemma ExampleLower(text: string)
    requires text == "Getting Started!!"
    ensures Lower(text) == "getting started!!"
  {
    LowerSpec(text);
  }

  lemma ExampleWords(lower: string)
    requires lower == "getting started!!"
    ensures Words(lower) == ["getting", "started"]
  {
    assert lower == "getting" + (" " + ("started" + "!!"));
    WordsOfTwo("getting", " ", "started", "!!");
  }

  lemma ExampleJoin(ws: seq<string>)
    requires ws == ["getting", "started"]
    ensures JoinDash(ws) == "getting-started"
  {
    assert JoinDash(ws) == ws[0] + "-" + ws[1];
  }

  /** `"Getting Started!!"` becomes `"getting-started"`. */
  lemma GettingStartedExample(text: string)
    requires text == "Getting Started!!"
    ensures Slug(text) == "getting-started"
  {
    ExampleLower(text);
    ExampleWords(Lower(text));
    ExampleJoin(Words(Lower(text)));
    SlugIsJoinedWords(text);
  }
}
