/**
 * Headings: `addAnchorLinks` gives every h2/h3/h4 heading its slug as id and
 * appends a `#` permalink to it; `generateTableOfContents` lists the h2/h3
 * headings, linking each to its id, when there are at least three of them.
 */
module Headings {
  import opened Wrappers
  import opened Slugs

  datatype Level = H2 | H3 | H4

  /** A heading element: its tag, its `id` attribute and its `textContent`. */
  datatype Heading = Heading(level: Level, id: string, text: string)

  // ---------------------------------------------------------------------
  // Anchor links
  // ---------------------------------------------------------------------

  /**
   * A heading after `addAnchorLinks` has visited it: its id is the slug of its
   * text, and the appended `<a>#</a>` adds `#` to the end of its text content.
   */
  function Anchored(h: Heading): Heading {
    h.(id := Slug(h.text), text := h.text + "#")
  }

  /** Every heading keeps its level, its new id is a slug and its own slug, and its text gains a `#`. */
  lemma AnchoredHeading(h: Heading)
    ensures Anchored(h).level == h.level
    ensures IsSlug(Anchored(h).id)
    ensures Slug(Anchored(h).id) == Anchored(h).id
    ensures Anchored(h).text == h.text + "#"
  {
    SlugShape(h.text);
    SlugIdempotent(h.text);
  }

  /** `addAnchorLinks`: one pass over the headings, updating each in place. */
  method AddAnchorLinks(headings: array<Heading>)
    modifies headings
    ensures forall k :: 0 <= k < headings.Length ==> headings[k] == Anchored(old(headings[k]))
  {
    for i := 0 to headings.Length
      invariant forall k :: 0 <= k < i ==> headings[k] == Anchored(old(headings[k]))
      invariant forall k :: i <= k < headings.Length ==> headings[k] == old(headings[k])
    {
      var heading := headings[i];
      var id := Slug(heading.text);
      headings[i] := heading.(id := id, text := heading.text + "#");
    }
  }

  function AnchoredAll(hs: seq<Heading>): (r: seq<Heading>)
    ensures |r| == |hs|
  {
    if hs == [] then [] else [Anchored(hs[0])] + AnchoredAll(hs[1..])
  }

  lemma {:induction false} AnchoredAllAt(hs: seq<Heading>)
    ensures forall k :: 0 <= k < |hs| ==> AnchoredAll(hs)[k] == Anchored(hs[k])
  {
    if hs != [] {
      var r, rest := AnchoredAll(hs), AnchoredAll(hs[1..]);
      AnchoredAllAt(hs[1..]);
      assert r == [Anchored(hs[0])] + rest;
      forall k | 1 <= k < |hs| ensures r[k] == Anchored(hs[k]) {
        assert r[k] == rest[k - 1];
        assert hs[1..][k - 1] == hs[k];
      }
    }
  }

  // ---------------------------------------------------------------------
  // Table of contents
  // ---------------------------------------------------------------------

  /** A list entry: the link's `href`, the link's text and whether the entry is indented. */
  datatype TocEntry = TocEntry(href: string, linkText: string, indented: bool)

  /** Pages with fewer headings than this get no table of contents. */
  const MinTocHeadings: nat := 3

  /** `querySelectorAll('h2, h3')`: the h2 and h3 headings, in document order. */
  function TocHeadings(hs: seq<Heading>): seq<Heading> {
    if hs == [] then []
    else (if hs[0].level == H4 then [] else [hs[0]]) + TocHeadings(hs[1..])
  }

  /**
   * `TocHeadings` is the filter that keeps the h2 and h3 headings: it
   * distributes over concatenation and keeps a single heading exactly when it
   * is not an h4.
   */
  lemma {:induction false} TocHeadingsConcat(a: seq<Heading>, b: seq<Heading>)
    ensures TocHeadings(a + b) == TocHeadings(a) + TocHeadings(b)
  {
    if a == [] {
      assert a + b == b;
    } else {
      assert (a + b)[0] == a[0];
      assert (a + b)[1..] == a[1..] + b;
      TocHeadingsConcat(a[1..], b);
    }
  }

  lemma TocHeadingsSingle(h: Heading)
    ensures TocHeadings([h]) == if h.level == H4 then [] else [h]
  {
    assert [h][1..] == [];
  }

  /** Without h4 headings every heading is listed. */
  lemma {:induction false} TocHeadingsWithoutH4(hs: seq<Heading>)
    requires forall k :: 0 <= k < |hs| ==> hs[k].level != H4
    ensures TocHeadings(hs) == hs
  {
    if hs != [] {
      TocHeadingsWithoutH4(hs[1..]);
      assert [hs[0]] + hs[1..] == hs;
    }
  }

  lemma {:induction false} TocHeadingsOfAnchored(hs: seq<Heading>)
    ensures TocHeadings(AnchoredAll(hs)) == AnchoredAll(TocHeadings(hs))
  {
    if hs != [] {
      var h0, tail := hs[0], hs[1..];
      TocHeadingsOfAnchored(tail);
      var aa := AnchoredAll(hs);
      assert aa == [Anchored(h0)] + AnchoredAll(tail);
      assert aa[0] == Anchored(h0) && aa[1..] == AnchoredAll(tail);
      if h0.level != H4 {
        var th := [h0] + TocHeadings(tail);
        assert TocHeadings(hs) == th;
        assert th[0] == h0 && th[1..] == TocHeadings(tail);
        assert AnchoredAll(th) == [Anchored(h0)] + AnchoredAll(TocHeadings(tail));
        assert TocHeadings(aa) == [Anchored(h0)] + TocHeadings(AnchoredAll(tail));
      } else {
        assert TocHeadings(hs) == TocHeadings(tail);
        assert TocHeadings(aa) == TocHeadings(AnchoredAll(tail));
      }
    }
  }

  /** `s.replace(c, '')` with a one-character string pattern: only the first occurrence goes. */
  function RemoveFirst(s: string, c: char): string {
    if s == [] then []
    else if s[0] == c then s[1..]
    else [s[0]] + RemoveFirst(s[1..], c)
  }

  /** A text without `c` is left unchanged. */
  lemma {:induction false} RemoveFirstAbsent(s: string, c: char)
    requires c !in s
    ensures RemoveFirst(s, c) == s
  {
    if s != [] {
      RemoveFirstAbsent(s[1..], c);
    }
  }

  /** Only the first `c`, at index `i`, is removed; everything else is kept in order. */
  lemma {:induction false} RemoveFirstAt(s: string, c: char, i: nat)
    requires i < |s| && s[i] == c && c !in s[..i]
    ensures RemoveFirst(s, c) == s[..i] + s[i + 1..]
  {
    if i > 0 {
      assert s[0] == s[..i][0];
      assert s[1..][..i - 1] == s[1..i];
      assert c !in s[1..][..i - 1] by {
        assert forall x :: x in s[1..i] ==> x in s[..i];
      }
      RemoveFirstAt(s[1..], c, i - 1);
      assert s[1..][i..] == s[i + 1..];
      assert s[..i] == [s[0]] + s[1..i];
    }
  }

  /** Removing the first `#` from a text that gained one at its end gives the original text back. */
  lemma {:induction false} RemoveFirstOfAppended(t: string, c: char)
    requires c !in t
    ensures RemoveFirst(t + [c], c) == t
  {
    if t != [] {
      assert (t + [c])[1..] == t[1..] + [c];
      RemoveFirstOfAppended(t[1..], c);
    }
  }

  /** The entry for one heading. */
  function EntryFor(h: Heading): TocEntry {
    TocEntry("#" + h.id, RemoveFirst(h.text, '#'), h.level == H3)
  }

  /** What `generateTableOfContents` puts on the page; `insertionPoint` says whether the first `h1` has a next sibling. */
  function TocPlan(hs: seq<Heading>, insertionPoint: bool): Option<seq<TocEntry>> {
    var selected := TocHeadings(hs);
    if |selected| < MinTocHeadings || !insertionPoint then None
    else Some(seq(|selected|, i requires 0 <= i < |selected| => EntryFor(selected[i])))
  }

  /**
   * `generateTableOfContents`: nothing is inserted for fewer than three
   * h2/h3 headings or without an insertion point; otherwise one entry per
   * h2/h3 heading, in order, linking to `#` + its id, labelled with its text
   * minus the first `#`, and indented exactly for h3.
   */
  method GenerateTableOfContents(hs: seq<Heading>, insertionPoint: bool) returns (toc: Option<seq<TocEntry>>)
    ensures toc.None? <==> |TocHeadings(hs)| < MinTocHeadings || !insertionPoint
    ensures toc.Some? ==> |toc.value| == |TocHeadings(hs)|
    ensures toc.Some? ==> forall i :: 0 <= i < |toc.value| ==>
      var h := TocHeadings(hs)[i];
      && toc.value[i].href == "#" + h.id
      && toc.value[i].linkText == RemoveFirst(h.text, '#')
      && (toc.value[i].indented <==> h.level == H3)
    ensures toc == TocPlan(hs, insertionPoint)
  {
    var headings := TocHeadings(hs);
    if |headings| < MinTocHeadings {
      return None;
    }
    var list: seq<TocEntry> := [];
    for i := 0 to |headings|
      invariant |list| == i
      invariant forall k :: 0 <= k < i ==> list[k] == EntryFor(headings[k])
    {
      var heading := headings[i];
      var href := "#" + heading.id;
      var linkText := RemoveFirst(heading.text, '#');
      var indented := heading.level == H3;
      list := list + [TocEntry(href, linkText, indented)];
    }
    assert list == seq(|headings|, i requires 0 <= i < |headings| => EntryFor(headings[i]));
    if insertionPoint {
      toc := Some(list);
    } else {
      toc := None;
    }
  }

  /**
   * On a page of h2/h3 headings under an insertion point, a table of contents
   * appears exactly when there are at least three of them: three headings
   * already get one, two do not.
   */
  lemma TocThreshold(hs: seq<Heading>)
    requires forall k :: 0 <= k < |hs| ==> hs[k].level != H4
    ensures TocPlan(hs, true).Some? <==> |hs| >= 3
    ensures TocPlan(hs, true).Some? ==> |TocPlan(hs, true).value| == |hs|
  {
    TocHeadingsWithoutH4(hs);
  }

  /**
   * If the anchor pass ran first, the table of contents would link every
   * h2/h3 heading to the slug of its text, and label it with its original
   * text when that text holds no `#`.
   */
  lemma TocAfterAnchors(hs: seq<Heading>)
    requires |TocHeadings(hs)| >= MinTocHeadings
    ensures var plan := TocPlan(AnchoredAll(hs), true);
      && plan.Some?
      && |plan.value| == |TocHeadings(hs)|
      && forall i :: 0 <= i < |plan.value| ==>
           && plan.value[i].href == "#" + Slug(TocHeadings(hs)[i].text)
           && ('#' !in TocHeadings(hs)[i].text ==> plan.value[i].linkText == TocHeadings(hs)[i].text)
  {
    var selected := TocHeadings(hs);
    TocHeadingsOfAnchored(hs);
    AnchoredAllAt(selected);
    forall i | 0 <= i < |selected| && '#' !in selected[i].text
      ensures RemoveFirst(selected[i].text + "#", '#') == selected[i].text
    {
      RemoveFirstOfAppended(selected[i].text, '#');
    }
  }

  /**
   * With the anchors-first order, a heading whose text already holds a `#`
   * loses that `#`, not the permalink's: `"C# intro"` is labelled `"C intro#"`.
   */
  lemma AnchoredHashExample(h: Heading)
    requires h.text == "C# intro"
    ensures EntryFor(Anchored(h)).linkText == "C intro#"
  {
    var t := Anchored(h).text;
    assert t == "C# intro#";
    assert t[0] != '#' && t[1] == '#';
    assert t[1..][1..] == t[2..];
    assert RemoveFirst(t, '#') == [t[0]] + t[2..];
  }

  /** Every heading of the table of contents comes from the input. */
  lemma {:induction false} TocHeadingsFromInput(hs: seq<Heading>, h: Heading)
    requires h in TocHeadings(hs)
    ensures h in hs && h.level != H4
  {
    if hs != [] {
      if h != hs[0] || hs[0].level == H4 {
        TocHeadingsFromInput(hs[1..], h);
      }
    }
  }
}
