/**
 * The three regular-expression replacements that turn the fetched page into
 * text (functions/asistente.ts, `fetchSiteText`), each written as a scanner
 * for its one pattern that tries a match at every position from left to
 * right, as a global `String.prototype.replace` does:
 *
 *   /<script[\s\S]*?<\/script>/gi  -> " "
 *   /<style[\s\S]*?<\/style>/gi    -> " "
 *   /<\/?[^>]+(>|$)/g              -> " "
 */
module HtmlText {
  import opened JsStrings

  const ScriptOpen: JsString := Lit("<script")
  const ScriptClose: JsString := Lit("</script>")
  const StyleOpen: JsString := Lit("<style")
  const StyleClose: JsString := Lit("</style>")

  // ---------------------------------------------------------------------
  // Blocks: open[\s\S]*?close, case-insensitive
  // ---------------------------------------------------------------------

  /**
   * What the block scanner needs of its opening delimiter, and what
   * `<script` and `<style` satisfy: it is not empty and it contains no
   * space, so the space that replaces a block never becomes part of one.
   */
  predicate OpenDelimiter(open: JsString)
  {
    |open| > 0 && forall j :: 0 <= j < |open| ==> open[j] != Space
  }

  lemma DelimitersOfTheHandler()
    ensures OpenDelimiter(ScriptOpen) && OpenDelimiter(StyleOpen)
  {
  }

  /** No `open` in `s` is followed, anywhere after it, by a `close`. */
  ghost predicate NoBlock(s: JsString, open: JsString, close: JsString)
  {
    forall i: nat, k: nat :: MatchesAt(s, i, open) && i + |open| <= k ==> !MatchesAt(s, k, close)
  }

  /**
   * s[i..j) is the match a global search for open[\s\S]*?close finds
   * first: `open` at i and at no earlier index (an earlier one would
   * reach the same `close`, so it would match first), and the lazy
   * `[\s\S]*?` stops at the first `close` after the `open`.
   */
  predicate FirstBlock(s: JsString, open: JsString, close: JsString, i: nat, j: nat)
  {
    && MatchesAt(s, i, open)
    && (forall p: nat :: p < i ==> !MatchesAt(s, p, open))
    && i + |open| + |close| <= j
    && MatchesAt(s, j - |close|, close)
    && (forall k: nat :: i + |open| <= k < j - |close| ==> !MatchesAt(s, k, close))
  }

  /**
   * Replaces every match of open[\s\S]*?close (ASCII case ignored) by one
   * space.  At each position it tries the pattern; if `open` is there and a
   * `close` follows, the block up to the nearest such `close` goes,
   * otherwise the unit is kept and the search moves on by one.
   */
  function RemoveBlocks(s: JsString, open: JsString, close: JsString): (r: JsString)
    requires OpenDelimiter(open)
    ensures |r| <= |s|
    decreases |s|
  {
    if s == [] then []
    else match BlockLength(s, open, close)
      case Some(n) => [Space] + RemoveBlocks(s[n..], open, close)
      case None => [s[0]] + RemoveBlocks(s[1..], open, close)
  }

  /**
   * The length of the block at the head of s, if one starts there: `open`,
   * then everything up to and including the nearest `close` after it.
   */
  function BlockLength(s: JsString, open: JsString, close: JsString): (n: Option<nat>)
    ensures n.Some? ==> MatchesAt(s, 0, open) && |open| + |close| <= n.value <= |s|
    ensures n.None? <==> !MatchesAt(s, 0, open) || FindCI(s[|open|..], close).None?
  {
    if !MatchesAt(s, 0, open) then None
    else match FindCI(s[|open|..], close)
      case Some(c) => Some(|open| + c + |close|)
      case None => None
  }

  lemma NoBlockTail(s: JsString, open: JsString, close: JsString)
    requires |s| > 0 && NoBlock(s, open, close)
    ensures NoBlock(s[1..], open, close)
  {
    forall i: nat, k: nat | MatchesAt(s[1..], i, open) && i + |open| <= k
      ensures !MatchesAt(s[1..], k, close)
    {
      MatchesAtTail(s, i, open);
      MatchesAtTail(s, k, close);
    }
  }

  /** Prepending a unit at which `open` does not start keeps a text block-free. */
  lemma NoBlockCons(x: CodeUnit, t: JsString, open: JsString, close: JsString)
    requires |open| > 0 && NoBlock(t, open, close) && !MatchesAt([x] + t, 0, open)
    ensures NoBlock([x] + t, open, close)
  {
    var s := [x] + t;
    assert s[1..] == t;
    forall i: nat, k: nat | MatchesAt(s, i, open) && i + |open| <= k
      ensures !MatchesAt(s, k, close)
    {
      MatchesAtTail(s, i - 1, open);
      MatchesAtTail(s, k - 1, close);
    }
  }

  /** An `open` with no `close` after it means no block starts anywhere. */
  lemma OpenWithoutClose(s: JsString, open: JsString, close: JsString)
    requires MatchesAt(s, 0, open) && FindCI(s[|open|..], close).None?
    ensures NoBlock(s, open, close)
  {
    forall i: nat, k: nat | MatchesAt(s, i, open) && i + |open| <= k
      ensures !MatchesAt(s, k, close)
    {
      MatchesAtSuffix(s, |open|, k - |open|, close);
    }
  }

  /** Text without blocks passes through unchanged. */
  lemma {:induction false} RemoveBlocksClean(s: JsString, open: JsString, close: JsString)
    requires OpenDelimiter(open) && NoBlock(s, open, close)
    ensures RemoveBlocks(s, open, close) == s
    decreases |s|
  {
    if s != [] {
      if MatchesAt(s, 0, open) {
        forall k: nat ensures !MatchesAt(s[|open|..], k, close) {
          MatchesAtSuffix(s, |open|, k, close);
        }
      }
      NoBlockTail(s, open, close);
      RemoveBlocksClean(s[1..], open, close);
    }
  }

  /** A pattern at the head of [x] + t is its first unit at x and the rest at the head of t. */
  lemma MatchesAtCons(x: CodeUnit, t: JsString, pat: JsString)
    requires |pat| > 0
    ensures MatchesAt([x] + t, 0, pat) <==> FoldAscii(x) == pat[0] && MatchesAt(t, 0, pat[1..])
  {
    var s := [x] + t;
    if FoldAscii(x) == pat[0] && MatchesAt(t, 0, pat[1..]) {
      forall j | 0 <= j < |pat| ensures FoldAscii(s[j]) == pat[j] {
        if j > 0 {
          assert s[j] == t[j - 1] && pat[j] == pat[1..][j - 1];
        }
      }
    }
    if MatchesAt(s, 0, pat) {
      forall j | 0 <= j < |pat| - 1 ensures FoldAscii(t[j]) == pat[1..][j] {
        assert t[j] == s[j + 1];
      }
    }
  }

  /**
   * The output of the scanner starts with the input as far as it shows no
   * space: a pattern free of spaces found at the head of the output was
   * already at the head of the input.
   */
  lemma {:induction false} RemoveBlocksHead(t: JsString, open: JsString, close: JsString, pat: JsString)
    requires OpenDelimiter(open)
    requires forall j :: 0 <= j < |pat| ==> pat[j] != Space
    ensures MatchesAt(RemoveBlocks(t, open, close), 0, pat) ==> MatchesAt(t, 0, pat)
    decreases |t|
  {
    if pat != [] && t != [] && BlockLength(t, open, close).None? {
      var r' := RemoveBlocks(t[1..], open, close);
      assert RemoveBlocks(t, open, close) == [t[0]] + r';
      assert t == [t[0]] + t[1..];
      MatchesAtCons(t[0], r', pat);
      MatchesAtCons(t[0], t[1..], pat);
      RemoveBlocksHead(t[1..], open, close, pat[1..]);
    } else if pat != [] && t != [] {
      // a block at the head: the output starts with the replacing space
      var n := BlockLength(t, open, close).value;
      MatchesAtCons(Space, RemoveBlocks(t[n..], open, close), pat);
    }
  }

  /** No block survives the scanner: each was replaced and none is formed anew. */
  lemma {:induction false} RemoveBlocksLeavesNoBlock(s: JsString, open: JsString, close: JsString)
    requires OpenDelimiter(open)
    ensures NoBlock(RemoveBlocks(s, open, close), open, close)
    decreases |s|
  {
    var r := RemoveBlocks(s, open, close);
    if NoBlock(s, open, close) {
      RemoveBlocksClean(s, open, close);
    } else if BlockLength(s, open, close).Some? {
      var t := s[BlockLength(s, open, close).value..];
      RemoveBlocksLeavesNoBlock(t, open, close);
      assert r == [Space] + RemoveBlocks(t, open, close);
      assert FoldAscii(([Space] + RemoveBlocks(t, open, close))[0]) != open[0];
      NoBlockCons(Space, RemoveBlocks(t, open, close), open, close);
    } else {
      if MatchesAt(s, 0, open) {
        OpenWithoutClose(s, open, close);
      }
      var t := RemoveBlocks(s[1..], open, close);
      RemoveBlocksLeavesNoBlock(s[1..], open, close);
      assert r == [s[0]] + t;
      assert s == [s[0]] + s[1..];
      MatchesAtCons(s[0], t, open);
      MatchesAtCons(s[0], s[1..], open);
      RemoveBlocksHead(s[1..], open, close, open[1..]);
      NoBlockCons(s[0], t, open, close);
    }
  }

  /**
   * The first block is replaced by exactly one space, everything before it
   * is kept as it was, and scanning resumes right after the block.
   */
  lemma {:induction false} RemoveBlocksFirst(s: JsString, open: JsString, close: JsString, i: nat, j: nat)
    requires OpenDelimiter(open) && FirstBlock(s, open, close, i, j)
    ensures RemoveBlocks(s, open, close) == s[..i] + [Space] + RemoveBlocks(s[j..], open, close)
    decreases i
  {
    if i == 0 {
      FirstBlockAtHead(s, open, close, j);
      RemoveBlocksDrop(s, open, close, j);
      assert s[..0] + [Space] == [Space];
    } else {
      FirstBlockTail(s, open, close, i, j);
      RemoveBlocksFirst(s[1..], open, close, i - 1, j - 1);
      RemoveBlocksKeep(s, open, close);
      KeptBeforeSpace(s, i, RemoveBlocks(s, open, close), RemoveBlocks(s[1..], open, close),
        RemoveBlocks(s[1..][j - 1..], open, close));
      ConsSplit(s, i, j);
    }
  }

  /**
   * The sequence step behind RemoveBlocksFirst: a unit
   * kept in front of a tail that has its own prefix, space and rest.
   */
  lemma KeptBeforeSpace(s: JsString, i: nat, whole: JsString, tail: JsString, rest: JsString)
    requires 0 < i <= |s|
    requires whole == [s[0]] + tail
    requires tail == s[1..][..i - 1] + [Space] + rest
    ensures whole == s[..i] + [Space] + rest
  {
    assert s[..i] == [s[0]] + s[1..][..i - 1];
  }

  /** The sequence step behind StripTagsPrefix: a unit kept in front of a tail's prefix. */
  lemma KeptInFront(s: JsString, i: nat, whole: JsString, tail: JsString, rest: JsString)
    requires 0 < i <= |s|
    requires whole == [s[0]] + tail
    requires tail == s[1..][..i - 1] + rest
    ensures whole == s[..i] + rest
  {
    assert s[..i] == [s[0]] + s[1..][..i - 1];
  }

  /** Where a block starts, the scanner replaces it by one space and moves past it. */
  lemma RemoveBlocksDrop(s: JsString, open: JsString, close: JsString, j: nat)
    requires OpenDelimiter(open) && BlockLength(s, open, close) == Some(j)
    ensures RemoveBlocks(s, open, close) == [Space] + RemoveBlocks(s[j..], open, close)
  {
  }

  /** Where no block starts, the scanner keeps the unit and moves on. */
  lemma RemoveBlocksKeep(s: JsString, open: JsString, close: JsString)
    requires OpenDelimiter(open) && s != [] && !MatchesAt(s, 0, open)
    ensures RemoveBlocks(s, open, close) == [s[0]] + RemoveBlocks(s[1..], open, close)
  {
  }

  /** Splitting off the first unit commutes with slicing at i and j. */
  lemma ConsSplit(s: JsString, i: nat, j: nat)
    requires 0 < i <= j <= |s|
    ensures s[1..][j - 1..] == s[j..]
    ensures s[..i] == [s[0]] + s[1..][..i - 1]
  {
  }

  /** A first block at index 0 is the one the scanner removes. */
  lemma FirstBlockAtHead(s: JsString, open: JsString, close: JsString, j: nat)
    requires FirstBlock(s, open, close, 0, j)
    ensures BlockLength(s, open, close) == Some(j)
  {
    var c := j - |close| - |open|;
    MatchesAtSuffix(s, |open|, c, close);
    forall k: nat | k < c ensures !MatchesAt(s[|open|..], k, close) {
      MatchesAtSuffix(s, |open|, k, close);
    }
  }

  /** A first block after index 0 is, one unit later, the first block of the tail. */
  lemma FirstBlockTail(s: JsString, open: JsString, close: JsString, i: nat, j: nat)
    requires i > 0 && FirstBlock(s, open, close, i, j)
    ensures !MatchesAt(s, 0, open)
    ensures FirstBlock(s[1..], open, close, i - 1, j - 1)
  {
    var t := s[1..];
    forall p: nat | p < i - 1 ensures !MatchesAt(t, p, open) {
      MatchesAtTail(s, p, open);
    }
    MatchesAtTail(s, i - 1, open);
    MatchesAtTail(s, j - |close| - 1, close);
    forall k: nat | i - 1 + |open| <= k < j - 1 - |close| ensures !MatchesAt(t, k, close) {
      MatchesAtTail(s, k, close);
    }
  }

  /** Running a block pass twice changes nothing more. */
  lemma RemoveBlocksIdempotent(s: JsString, open: JsString, close: JsString)
    requires OpenDelimiter(open)
    ensures RemoveBlocks(RemoveBlocks(s, open, close), open, close) == RemoveBlocks(s, open, close)
  {
    RemoveBlocksLeavesNoBlock(s, open, close);
    RemoveBlocksClean(RemoveBlocks(s, open, close), open, close);
  }

  // ---------------------------------------------------------------------
  // Tags: <\/?[^>]+(>|$)
  // ---------------------------------------------------------------------

  /**
   * The tag pattern can match at index p: a `<` followed by a unit other
   * than `>`.  The optional `/` adds nothing, since `/` is itself a unit
   * other than `>` that `[^>]+` takes when `\/?` gives it back.
   */
  predicate TagStartsAt(s: JsString, p: nat)
  {
    p + 1 < |s| && s[p] == LessThan && s[p + 1] != GreaterThan
  }

  /** Every `<` left is immediately followed by `>` or is the last unit. */
  ghost predicate NoTag(s: JsString)
  {
    forall p: nat :: !TagStartsAt(s, p)
  }

  /**
   * s[i..j) is what `<\/?[^>]+(>|$)` matches at i, with e the end of the
   * `[^>]+` run: `<` at i, a nonempty run s[i+1..e) without `>`, then
   * either the `>` at e (j == e + 1) or the end of input (e == j == |s|).
   */
  predicate TagMatch(s: JsString, i: nat, e: nat, j: nat)
  {
    && i < |s| && s[i] == LessThan
    && i + 2 <= e <= |s|
    && (forall k :: i + 1 <= k < e ==> s[k] != GreaterThan)
    && ((e < |s| && s[e] == GreaterThan && j == e + 1) || (e == |s| && j == |s|))
  }

  /** The index of the first `>` in s, if any. */
  function IndexOfGreaterThan(s: JsString): (r: Option<nat>)
    ensures r.Some? ==> r.value < |s| && s[r.value] == GreaterThan
    ensures r.Some? ==> forall k :: 0 <= k < r.value ==> s[k] != GreaterThan
    ensures r.None? ==> forall k :: 0 <= k < |s| ==> s[k] != GreaterThan
    decreases |s|
  {
    if s == [] then None
    else if s[0] == GreaterThan then Some(0)
    else match IndexOfGreaterThan(s[1..])
      case Some(k) => Some(k + 1)
      case None => None
  }

  /**
   * The length of the match at the head of s: the greedy `[^>]+` runs to
   * the first `>` (which `(>|$)` then takes) or to the end of input.
   */
  function TagLength(s: JsString): (n: nat)
    requires TagStartsAt(s, 0)
    ensures exists e :: TagMatch(s, 0, e, n)
  {
    match IndexOfGreaterThan(s[1..])
    case Some(k) =>
      assert TagMatch(s, 0, k + 1, k + 2);
      k + 2
    case None =>
      assert TagMatch(s, 0, |s|, |s|);
      |s|
  }

  /** Replaces every match of `<\/?[^>]+(>|$)` by one space. */
  function StripTags(s: JsString): (r: JsString)
    ensures |r| <= |s|
    decreases |s|
  {
    if s == [] then []
    else if TagStartsAt(s, 0) then
      var n := TagLength(s);
      [Space] + StripTags(s[n..])
    else
      [s[0]] + StripTags(s[1..])
  }

  /** The match at a position is unique: the end of the run is forced. */
  lemma TagMatchUnique(s: JsString, i: nat, e: nat, j: nat, e': nat, j': nat)
    requires TagMatch(s, i, e, j) && TagMatch(s, i, e', j')
    ensures e == e' && j == j'
  {
  }

  /** Text in which no tag starts passes through unchanged. */
  lemma {:induction false} StripTagsClean(s: JsString)
    requires NoTag(s)
    ensures StripTags(s) == s
    decreases |s|
  {
    if s != [] {
      assert !TagStartsAt(s, 0);
      forall p: nat ensures !TagStartsAt(s[1..], p) {
        assert !TagStartsAt(s, p + 1);
      }
      StripTagsClean(s[1..]);
    }
  }

  /** The scanner keeps the first unit of a text that does not start with `<`. */
  lemma StripTagsHead(s: JsString)
    requires |s| > 0 && s[0] != LessThan
    ensures |StripTags(s)| > 0 && StripTags(s)[0] == s[0]
  {
  }

  /** After the pass, every `<` is followed by `>` or is the last unit. */
  lemma {:induction false} StripTagsLeavesNoTag(s: JsString)
    ensures NoTag(StripTags(s))
    decreases |s|
  {
    if s != [] {
      var r := StripTags(s);
      var rest := if TagStartsAt(s, 0) then s[TagLength(s)..] else s[1..];
      var t := StripTags(rest);
      StripTagsLeavesNoTag(rest);
      assert r == [r[0]] + t;
      if !TagStartsAt(s, 0) && s[0] == LessThan && |s| > 1 {
        StripTagsHead(s[1..]);
      }
      forall p: nat ensures !TagStartsAt(r, p) {
        if p > 0 {
          assert !TagStartsAt(t, p - 1);
        }
      }
    }
  }

  /**
   * The first tag is replaced by exactly one space, everything before it
   * is kept as it was, and scanning resumes right after the tag.
   */
  lemma StripTagsFirst(s: JsString, i: nat, e: nat, j: nat)
    requires TagMatch(s, i, e, j)
    requires forall p: nat :: p < i ==> !TagStartsAt(s, p)
    ensures StripTags(s) == s[..i] + [Space] + StripTags(s[j..])
  {
    StripTagsPrefix(s, i);
    var m := s[i..];
    assert TagMatch(m, 0, e - i, j - i) by {
      forall k | 1 <= k < e - i ensures m[k] != GreaterThan {
        assert m[k] == s[i + k];
      }
    }
    StripTagsDrop(m, e - i, j - i);
    SpaceAfterPrefix(s[..i], StripTags(s), StripTags(m), StripTags(m[j - i..]));
    assert m[j - i..] == s[j..];
  }

  /** The sequence step behind StripTagsFirst: a prefix, then a part that starts with a space. */
  lemma SpaceAfterPrefix(prefix: JsString, whole: JsString, tail: JsString, rest: JsString)
    requires whole == prefix + tail && tail == [Space] + rest
    ensures whole == prefix + [Space] + rest
  {
  }

  /** A prefix in which no tag starts passes through the tag pass unchanged. */
  lemma {:induction false} StripTagsPrefix(s: JsString, i: nat)
    requires i <= |s|
    requires forall p: nat :: p < i ==> !TagStartsAt(s, p)
    ensures StripTags(s) == s[..i] + StripTags(s[i..])
    decreases i
  {
    if i == 0 {
      assert s[..0] + StripTags(s[0..]) == StripTags(s);
    } else {
      var t := s[1..];
      assert !TagStartsAt(s, 0);
      StripTagsKeep(s);
      forall p: nat | p < i - 1 ensures !TagStartsAt(t, p) {
        assert !TagStartsAt(s, p + 1);
      }
      StripTagsPrefix(t, i - 1);
      KeptInFront(s, i, StripTags(s), StripTags(t), StripTags(t[i - 1..]));
      assert t[i - 1..] == s[i..];
    }
  }

  /** Where a tag starts, the pass replaces the whole match by one space. */
  lemma StripTagsDrop(s: JsString, e: nat, j: nat)
    requires TagMatch(s, 0, e, j)
    ensures StripTags(s) == [Space] + StripTags(s[j..])
  {
    assert TagStartsAt(s, 0);
    var n := TagLength(s);
    var e' :| TagMatch(s, 0, e', n);
    TagMatchUnique(s, 0, e, j, e', n);
  }

  /** Where no tag starts, the pass keeps the unit and moves on. */
  lemma StripTagsKeep(s: JsString)
    requires s != [] && !TagStartsAt(s, 0)
    ensures StripTags(s) == [s[0]] + StripTags(s[1..])
  {
  }

  /** Running the tag pass twice changes nothing more. */
  lemma StripTagsIdempotent(s: JsString)
    ensures StripTags(StripTags(s)) == StripTags(s)
  {
    StripTagsLeavesNoTag(s);
    StripTagsClean(StripTags(s));
  }

  // ---------------------------------------------------------------------
  // The markup passes in the handler's order
  // ---------------------------------------------------------------------

  /** `<script…</script>` blocks, then `<style…</style>` blocks, then tags. */
  function StripMarkup(html: JsString): (r: JsString)
    ensures NoTag(r)
    ensures |r| <= |html|
  {
    DelimitersOfTheHandler();
    var noScripts := RemoveBlocks(html, ScriptOpen, ScriptClose);
    var noStyles := RemoveBlocks(noScripts, StyleOpen, StyleClose);
    StripTagsLeavesNoTag(noStyles);
    StripTags(noStyles)
  }
}
