/**
 * A sample page for the site cleanup: a page holding a script and one
 * paragraph comes out as the paragraph's two words.  Each lemma follows one
 * replacement of fetchSiteText (functions/asistente.ts:33-41) on this page.
 */
module SiteFetcherExample {
  import opened JsStrings
  import HtmlText
  import Whitespace
  import SiteFetcher

  // The page, in the pieces the passes cut it into.
  const ScriptPart: JsString := Lit("<script>bad()</script>")
  const OpenP: JsString := Lit("<p>")
  const Hello: JsString := Lit("Hello")
  const Gap: JsString := Lit("   ")
  const World: JsString := Lit("world")
  const CloseP: JsString := Lit("</p>")
  const Paragraph: JsString := OpenP + (Hello + Gap + World + CloseP)

  /** A pattern whose j-th unit never occurs (folded) in s matches nowhere in s. */
  lemma MissingUnitNoMatch(s: JsString, pat: JsString, j: nat)
    requires j < |pat|
    requires forall k :: 0 <= k < |s| ==> FoldAscii(s[k]) != pat[j]
    ensures forall i: nat :: !MatchesAt(s, i, pat)
  {
    forall i: nat ensures !MatchesAt(s, i, pat) {
      if i + |pat| <= |s| {
        assert FoldAscii(s[i + j]) != pat[j];
      }
    }
  }

  /** The paragraph holds no `s` or `S`, the second unit of both opening delimiters. */
  lemma NoSInParagraph()
    ensures forall k :: 0 <= k < |Paragraph| ==> FoldAscii(Paragraph[k]) != 's' as int
  {
    forall k | 0 <= k < |Paragraph| ensures FoldAscii(Paragraph[k]) != 's' as int {
      assert k == 0 || k == 1 || k == 2 || k == 3 || k == 4 || k == 5 || k == 6 || k == 7
        || k == 8 || k == 9 || k == 10 || k == 11 || k == 12 || k == 13 || k == 14 || k == 15
        || k == 16 || k == 17 || k == 18 || k == 19;
    }
  }

  lemma NoSAfterSpace(x: JsString)
    requires forall k :: 0 <= k < |x| ==> FoldAscii(x[k]) != 's' as int
    ensures forall k :: 0 <= k < |[Space] + x| ==> FoldAscii(([Space] + x)[k]) != 's' as int
  {
    forall k | 0 <= k < |[Space] + x| ensures FoldAscii(([Space] + x)[k]) != 's' as int {
      if k > 0 {
        assert ([Space] + x)[k] == x[k - 1];
      }
    }
  }

  /** The script element is the first block, whatever follows it. */
  lemma FirstScript(rest: JsString)
    ensures HtmlText.FirstBlock(ScriptPart + rest, HtmlText.ScriptOpen, HtmlText.ScriptClose, 0, 22)
  {
    var s := ScriptPart + rest;
    forall k: nat | 7 <= k < 13 ensures !MatchesAt(s, k, HtmlText.ScriptClose) {
      assert s[k] == ScriptPart[k];
      assert k == 7 || k == 8 || k == 9 || k == 10 || k == 11 || k == 12;
      assert FoldAscii(s[k]) != HtmlText.ScriptClose[0];
    }
    assert MatchesAt(s, 0, HtmlText.ScriptOpen) by {
      forall j | 0 <= j < 7 ensures FoldAscii(s[j]) == HtmlText.ScriptOpen[j] {
        assert s[j] == ScriptPart[j];
      }
    }
    assert MatchesAt(s, 13, HtmlText.ScriptClose) by {
      forall j | 0 <= j < 9 ensures FoldAscii(s[13 + j]) == HtmlText.ScriptClose[j] {
        assert s[13 + j] == ScriptPart[13 + j];
      }
    }
  }

  /** Without an opening delimiter there is no block. */
  lemma NoOpenNoBlock(s: JsString, open: JsString, close: JsString)
    requires forall i: nat :: !MatchesAt(s, i, open)
    ensures HtmlText.NoBlock(s, open, close)
  {
  }

  /** A first block at index 0 becomes the leading space. */
  lemma BlockAtHead(s: JsString, open: JsString, close: JsString, j: nat)
    requires HtmlText.OpenDelimiter(open) && HtmlText.FirstBlock(s, open, close, 0, j)
    ensures HtmlText.RemoveBlocks(s, open, close) == [Space] + HtmlText.RemoveBlocks(s[j..], open, close)
  {
    HtmlText.RemoveBlocksFirst(s, open, close, 0, j);
    assert s[..0] == [];
  }

  lemma ScriptHead(rest: JsString)
    ensures HtmlText.RemoveBlocks(ScriptPart + rest, HtmlText.ScriptOpen, HtmlText.ScriptClose)
      == [Space] + HtmlText.RemoveBlocks(rest, HtmlText.ScriptOpen, HtmlText.ScriptClose)
  {
    HtmlText.DelimitersOfTheHandler();
    FirstScript(rest);
    BlockAtHead(ScriptPart + rest, HtmlText.ScriptOpen, HtmlText.ScriptClose, 22);
    assert (ScriptPart + rest)[22..] == rest;
  }

  /** The script pass turns the script element into one space and keeps the rest. */
  lemma ScriptPass(rest: JsString)
    requires forall i: nat :: !MatchesAt(rest, i, HtmlText.ScriptOpen)
    ensures HtmlText.RemoveBlocks(ScriptPart + rest, HtmlText.ScriptOpen, HtmlText.ScriptClose) == [Space] + rest
  {
    ScriptHead(rest);
    HtmlText.DelimitersOfTheHandler();
    NoOpenNoBlock(rest, HtmlText.ScriptOpen, HtmlText.ScriptClose);
    HtmlText.RemoveBlocksClean(rest, HtmlText.ScriptOpen, HtmlText.ScriptClose);
  }

  /** The style pass finds nothing. */
  lemma StylePass(x: JsString)
    requires forall k :: 0 <= k < |x| ==> FoldAscii(x[k]) != 's' as int
    ensures HtmlText.RemoveBlocks(x, HtmlText.StyleOpen, HtmlText.StyleClose) == x
  {
    HtmlText.DelimitersOfTheHandler();
    MissingUnitNoMatch(x, HtmlText.StyleOpen, 1);
    NoOpenNoBlock(x, HtmlText.StyleOpen, HtmlText.StyleClose);
    HtmlText.RemoveBlocksClean(x, HtmlText.StyleOpen, HtmlText.StyleClose);
  }

  lemma NoLessThanInText()
    ensures forall p :: 0 <= p < |Hello + Gap + World| ==> (Hello + Gap + World)[p] != LessThan
  {
    var m := Hello + Gap + World;
    forall p | 0 <= p < |m| ensures m[p] != LessThan {
      assert p == 0 || p == 1 || p == 2 || p == 3 || p == 4 || p == 5 || p == 6 || p == 7
        || p == 8 || p == 9 || p == 10 || p == 11 || p == 12;
    }
  }

  /** `</p>` after tag-free text becomes one space. */
  lemma ClosingTag(m: JsString)
    requires forall p :: 0 <= p < |m| ==> m[p] != LessThan
    ensures HtmlText.StripTags(m + CloseP) == m + [Space]
  {
    var v := m + CloseP;
    var n := |m|;
    assert v[n] == LessThan && v[n + 1] != GreaterThan && v[n + 2] != GreaterThan && v[n + 3] == GreaterThan;
    forall k | n + 1 <= k < n + 3 ensures v[k] != GreaterThan {
      assert k == n + 1 || k == n + 2;
    }
    assert HtmlText.TagMatch(v, n, n + 3, n + 4);
    forall p: nat | p < n ensures !HtmlText.TagStartsAt(v, p) {
      assert v[p] == m[p];
    }
    HtmlText.StripTagsFirst(v, n, n + 3, n + 4);
    assert v[..n] == m;
    assert v[n + 4..] == [];
  }

  /** `<p>` after the space left by the script becomes a second space. */
  lemma OpeningTag(m: JsString)
    ensures HtmlText.StripTags([Space] + OpenP + m) == [Space, Space] + HtmlText.StripTags(m)
  {
    var u := [Space] + OpenP + m;
    assert u[1] == LessThan && u[2] != GreaterThan && u[3] == GreaterThan;
    assert HtmlText.TagMatch(u, 1, 3, 4);
    assert !HtmlText.TagStartsAt(u, 0);
    HtmlText.StripTagsFirst(u, 1, 3, 4);
    assert u[..1] == [Space];
    assert u[4..] == m;
  }

  /** `<p>`, tag-free text, `</p>` after a space: two spaces, the text, one space. */
  lemma ParagraphTags(m: JsString)
    requires forall p :: 0 <= p < |m| ==> m[p] != LessThan
    ensures HtmlText.StripTags([Space] + OpenP + (m + CloseP)) == [Space, Space] + m + [Space]
  {
    ClosingTag(m);
    OpeningTag(m + CloseP);
  }

  /** The tag pass on this page. */
  lemma TagPass()
    ensures HtmlText.StripTags([Space] + Paragraph)
      == [Space, Space] + (Hello + Gap + World) + [Space]
  {
    var m := Hello + Gap + World;
    NoLessThanInText();
    ParagraphTags(m);
    assert [Space] + Paragraph == [Space] + OpenP + (m + CloseP);
  }

  /** Collapsing on this page: the two runs and the trailing space each become one space. */
  lemma CollapsePass()
    ensures Whitespace.CollapseWs([Space, Space] + (Hello + (Gap + (World + [Space]))))
      == [Space] + (Hello + ([Space] + (World + [Space])))
  {
    Whitespace.CollapseWsRunThen([Space, Space], Hello + (Gap + (World + [Space])));
    Whitespace.CollapseWsWordPrefix(Hello, Gap + (World + [Space]));
    Whitespace.CollapseWsRunThen(Gap, World + [Space]);
    Whitespace.CollapseWsWordPrefix(World, [Space]);
    assert [Space] == [Space] + [];
    Whitespace.CollapseWsRunThen([Space], []);
  }

  /** The whitespace step: the runs become single spaces and the ends are trimmed. */
  lemma NormalizePass()
    ensures Whitespace.Normalize([Space, Space] + (Hello + Gap + World) + [Space]) == Hello + [Space] + World
  {
    var x := [Space, Space] + (Hello + (Gap + (World + [Space])));
    Concat4(Hello, Gap, World, [Space]);
    assert x == [Space, Space] + (Hello + Gap + World) + [Space];
    CollapsePass();
    var j := Hello + [Space] + World;
    Concat4([Space], Hello, [Space], World + [Space]);
    assert Whitespace.CollapseWs(x) == [Space] + j + [Space];
    Whitespace.TrimAround([Space], j, [Space]);
  }

  /** Regrouping a concatenation of four pieces. */
  lemma Concat4(a: JsString, b: JsString, c: JsString, d: JsString)
    ensures a + (b + (c + d)) == a + b + c + d
  {
  }

  /** Regrouping a concatenation of six pieces. */
  lemma Concat6(a: JsString, b: JsString, c: JsString, d: JsString, e: JsString, f: JsString)
    ensures a + b + c + d + e + f == a + (b + (c + d + e + f))
  {
  }

  /** The page, written as one literal, is the script followed by the paragraph. */
  lemma PageLiteral()
    ensures Lit("<script>bad()</script>" + "<p>" + "Hello" + "   " + "world" + "</p>") == ScriptPart + Paragraph
    ensures Lit("Hello" + " " + "world") == Hello + [Space] + World
  {
    LitAppend("<script>bad()</script>" + "<p>" + "Hello" + "   " + "world", "</p>");
    LitAppend("<script>bad()</script>" + "<p>" + "Hello" + "   ", "world");
    LitAppend("<script>bad()</script>" + "<p>" + "Hello", "   ");
    LitAppend("<script>bad()</script>" + "<p>", "Hello");
    LitAppend("<script>bad()</script>", "<p>");
    Concat6(ScriptPart, OpenP, Hello, Gap, World, CloseP);
    LitAppend("Hello" + " ", "world");
    LitAppend("Hello", " ");
    assert Lit(" ") == [Space];
  }

  /** The three markup passes in order. */
  lemma MarkupPass()
    ensures HtmlText.StripMarkup(ScriptPart + Paragraph) == [Space, Space] + (Hello + Gap + World) + [Space]
  {
    NoSInParagraph();
    MissingUnitNoMatch(Paragraph, HtmlText.ScriptOpen, 1);
    ScriptPass(Paragraph);
    NoSAfterSpace(Paragraph);
    StylePass([Space] + Paragraph);
    TagPass();
  }

  /** `<script>bad()</script><p>Hello   world</p>` is cleaned to `Hello world`. */
  lemma HelloWorld()
    ensures SiteFetcher.CleanText(Lit("<script>bad()</script>" + "<p>" + "Hello" + "   " + "world" + "</p>"), 20000)
      == Lit("Hello" + " " + "world")
  {
    PageLiteral();
    MarkupPass();
    NormalizePass();
  }
}
