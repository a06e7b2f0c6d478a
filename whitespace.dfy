/**
 * Whitespace handling of the handler: `String.prototype.trim` (applied to
 * the model's reply) and the site-text step `text.replace(/\s+/g, " ").trim()`
 * (functions/asistente.ts:39).  Whitespace is the `\s` set, `JsStrings.IsWs`.
 */
module Whitespace {
  import opened JsStrings

  /** The leading part of `trim`: drops the whitespace at the start. */
  function TrimStart(s: JsString): (r: JsString)
    ensures |r| <= |s|
    ensures r == [] || !IsWs(r[0])
    decreases |s|
  {
    if s != [] && IsWs(s[0]) then TrimStart(s[1..]) else s
  }

  /** TrimStart drops only whitespace and keeps the rest of the text untouched. */
  lemma {:induction false} TrimStartSuffix(s: JsString)
    ensures TrimStart(s) == s[|s| - |TrimStart(s)|..]
    ensures forall k :: 0 <= k < |s| - |TrimStart(s)| ==> IsWs(s[k])
    decreases |s|
  {
    if s != [] && IsWs(s[0]) {
      TrimStartSuffix(s[1..]);
    }
  }

  /** The trailing part of `trim`: drops the whitespace at the end. */
  function TrimEnd(s: JsString): (r: JsString)
    ensures |r| <= |s|
    ensures forall k :: |r| <= k < |s| ==> IsWs(s[k])
    ensures r == [] || !IsWs(r[|r| - 1])
    decreases |s|
  {
    if s != [] && IsWs(s[|s| - 1]) then TrimEnd(s[..|s| - 1]) else s
  }

  /** What TrimEnd keeps is the beginning of the text, untouched. */
  lemma {:induction false} TrimEndPrefix(s: JsString)
    ensures TrimEnd(s) == s[..|TrimEnd(s)|]
    decreases |s|
  {
    if s != [] && IsWs(s[|s| - 1]) {
      TrimEndPrefix(s[..|s| - 1]);
    }
  }

  /**
   * `String.prototype.trim`: the slice of `s` left once the whitespace at
   * both ends is gone; it neither starts nor ends with whitespace.
   */
  function Trim(s: JsString): (r: JsString)
    ensures r == [] || (!IsWs(r[0]) && !IsWs(r[|r| - 1]))
    ensures exists a: nat :: TrimmedAt(s, r, a)
  {
    TrimSliceAt(s);
    TrimEnd(TrimStart(s))
  }

  /** Where the trimmed text sits in the original: right after the leading whitespace. */
  lemma TrimSliceAt(s: JsString)
    ensures TrimmedAt(s, TrimEnd(TrimStart(s)), |s| - |TrimStart(s)|)
    ensures TrimEnd(TrimStart(s)) == [] || !IsWs(TrimEnd(TrimStart(s))[0])
  {
    var t := TrimStart(s);
    TrimStartSuffix(s);
    TrimEndPrefix(t);
  }

  /** r is the slice of s at a, and everything around it is whitespace. */
  ghost predicate TrimmedAt(s: JsString, r: JsString, a: nat)
  {
    && a + |r| <= |s| && r == s[a..a + |r|]
    && (forall k :: 0 <= k < a ==> IsWs(s[k]))
    && (forall k :: a + |r| <= k < |s| ==> IsWs(s[k]))
  }

  /** `s.replace(/\s+/g, " ")`: every maximal run of whitespace becomes one space. */
  function CollapseWs(s: JsString): (r: JsString)
    ensures |r| <= |s|
    decreases |s|
  {
    if s == [] then []
    else if IsWs(s[0]) then [Space] + CollapseWs(TrimStart(s))
    else [s[0]] + CollapseWs(s[1..])
  }

  /** The site-text step: collapse whitespace runs, then trim. */
  function Normalize(s: JsString): (r: JsString)
    ensures |r| <= |s|
  {
    Trim(CollapseWs(s))
  }

  /**
   * The shape of normalised text: no whitespace at either end, every
   * whitespace unit is a plain space, and no two of them are adjacent.
   */
  ghost predicate Normalized(r: JsString)
  {
    && (r == [] || (!IsWs(r[0]) && !IsWs(r[|r| - 1])))
    && (forall k :: 0 <= k < |r| && IsWs(r[k]) ==> r[k] == Space)
    && (forall k :: 0 <= k < |r| - 1 && IsWs(r[k]) ==> !IsWs(r[k + 1]))
  }

  // ---------------------------------------------------------------------
  // Words: the independent description of what normalisation keeps
  // ---------------------------------------------------------------------

  /** A nonempty run free of whitespace. */
  ghost predicate IsWord(w: JsString)
  {
    |w| > 0 && forall k :: 0 <= k < |w| ==> !IsWs(w[k])
  }

  /** The longest prefix of `t` without whitespace. */
  function LeadingWord(t: JsString): (w: JsString)
    ensures |w| <= |t|
    ensures forall k :: 0 <= k < |w| ==> !IsWs(t[k])
    ensures |w| == |t| || IsWs(t[|w|])
    ensures t != [] && !IsWs(t[0]) ==> |w| > 0
    decreases |t|
  {
    if t == [] || IsWs(t[0]) then [] else [t[0]] + LeadingWord(t[1..])
  }

  /** LeadingWord is a prefix of the text. */
  lemma {:induction false} LeadingWordPrefix(t: JsString)
    ensures LeadingWord(t) == t[..|LeadingWord(t)|]
    decreases |t|
  {
    if t != [] && !IsWs(t[0]) {
      LeadingWordPrefix(t[1..]);
    }
  }

  /** The maximal whitespace-free runs of `s`, in order. */
  function Words(s: JsString): (ws: seq<JsString>)
    ensures forall i :: 0 <= i < |ws| ==> IsWord(ws[i])
    decreases |s|
  {
    var t := TrimStart(s);
    if t == [] then []
    else
      var w := LeadingWord(t);
      LeadingWordPrefix(t);
      assert IsWord(w);
      [w] + Words(t[|w|..])
  }

  /** The words separated by single spaces. */
  function Join(ws: seq<JsString>): (r: JsString)
    decreases |ws|
  {
    if |ws| == 0 then [] else if |ws| == 1 then ws[0] else ws[0] + [Space] + Join(ws[1..])
  }

  /** Leading whitespace does not change the words. */
  lemma WordsTrimStart(s: JsString)
    ensures Words(TrimStart(s)) == Words(s)
  {
    var t := TrimStart(s);
    assert TrimStart(t) == t;
  }

  /** Collapsing passes a whitespace-free prefix through. */
  lemma {:induction false} CollapseWsWordPrefix(w: JsString, x: JsString)
    requires forall k :: 0 <= k < |w| ==> !IsWs(w[k])
    ensures CollapseWs(w + x) == w + CollapseWs(x)
    decreases |w|
  {
    if w != [] {
      var s := w + x;
      assert s[0] == w[0] && !IsWs(w[0]);
      assert s[1..] == w[1..] + x;
      CollapseWsWordPrefix(w[1..], x);
      HeadThenRest(w, CollapseWs(x));
    } else {
      assert w + x == x;
    }
  }

  lemma HeadThenRest(w: JsString, tail: JsString)
    requires w != []
    ensures [w[0]] + (w[1..] + tail) == w + tail
  {
    assert w == [w[0]] + w[1..];
  }

  /** A space between two joined parts. */
  lemma JoinCons(w: JsString, ws: seq<JsString>)
    requires |ws| > 0
    ensures Join([w] + ws) == w + [Space] + Join(ws)
  {
    assert ([w] + ws)[1..] == ws;
  }

  /** Joined words neither start nor end with whitespace, and are empty only without words. */
  lemma {:induction false} JoinEnds(ws: seq<JsString>)
    requires forall i :: 0 <= i < |ws| ==> IsWord(ws[i])
    ensures |Join(ws)| == 0 <==> |ws| == 0
    ensures |ws| > 0 ==> !IsWs(Join(ws)[0]) && !IsWs(Join(ws)[|Join(ws)| - 1])
    decreases |ws|
  {
    if |ws| > 1 {
      JoinEnds(ws[1..]);
    }
  }

  /** A whitespace run becomes one space and collapsing resumes after it. */
  lemma CollapseWsRun(s: JsString)
    requires s != [] && IsWs(s[0])
    ensures CollapseWs(s) == [Space] + CollapseWs(TrimStart(s))
  {
  }

  /** A whitespace run followed by a word, or by nothing, collapses to one space. */
  lemma CollapseWsRunThen(a: JsString, j: JsString)
    requires a != [] && forall k :: 0 <= k < |a| ==> IsWs(a[k])
    requires j == [] || !IsWs(j[0])
    ensures CollapseWs(a + j) == [Space] + CollapseWs(j)
  {
    assert (a + j)[0] == a[0];
    CollapseWsRun(a + j);
    TrimStartAround(a, j);
  }

  /** A text that is all whitespace has no words. */
  lemma WordsAfterRun(s: JsString)
    requires TrimStart(s) == []
    ensures Words(s) == []
  {
  }

  /** A text that starts with a word has at least one. */
  lemma WordsNonEmpty(u: JsString)
    requires u != [] && !IsWs(u[0])
    ensures |Words(u)| > 0
  {
    assert TrimStart(u) == u;
  }

  /** One space if the text ends in whitespace: what collapsing leaves after the last word. */
  function Trail(t: JsString): JsString
  {
    if t != [] && IsWs(t[|t| - 1]) then [Space] else []
  }

  /**
   * From a point where no whitespace run is pending, collapsing yields the
   * words joined by single spaces, plus one space if the text ends in
   * whitespace.
   */
  lemma {:induction false} CollapseWsFromWord(t: JsString)
    requires t == [] || !IsWs(t[0])
    ensures CollapseWs(t) == Join(Words(t)) + Trail(t)
    decreases |t|
  {
    if t != [] {
      var w := LeadingWord(t);
      var rest := t[|w|..];
      var u := TrimStart(rest);
      SplitAtWord(t);
      if u != [] {
        CollapseWsFromWord(u);
      }
      CollapseWsStep(t, w, rest, u);
    }
  }

  /** A text that starts with a word: the word, the whitespace-led rest, and the rest past its run. */
  lemma SplitAtWord(t: JsString)
    requires t != [] && !IsWs(t[0])
    ensures var w := LeadingWord(t); var rest := t[|w|..]; var u := TrimStart(rest);
      && IsWord(w) && t == w + rest && (rest == [] || IsWs(rest[0]))
      && u == rest[|rest| - |u|..] && |u| < |t|
  {
    var w := LeadingWord(t);
    var rest := t[|w|..];
    LeadingWordPrefix(t);
    assert |w| > 0;
    assert t == w + rest;
    assert IsWord(w) by {
      forall k | 0 <= k < |w| ensures !IsWs(w[k]) {
        assert w[k] == t[k];
      }
    }
    TrimStartSuffix(rest);
  }

  /** One word of CollapseWsFromWord: the word, then what follows its run. */
  lemma CollapseWsStep(t: JsString, w: JsString, rest: JsString, u: JsString)
    requires IsWord(w) && t == w + rest && (rest == [] || IsWs(rest[0]))
    requires u == TrimStart(rest) && u == rest[|rest| - |u|..]
    requires u != [] ==> CollapseWs(u) == Join(Words(u)) + Trail(u)
    ensures CollapseWs(t) == Join(Words(t)) + Trail(t)
  {
    CollapseWsWordPrefix(w, rest);
    WordsOfWordThen(w, rest);
    if rest == [] {
      CollapseWsLastWord(t, w);
    } else if u == [] {
      CollapseWsWordThenRun(t, w, rest);
    } else {
      CollapseWsRun(rest);
      WordsTrimStart(rest);
      WordsNonEmpty(u);
      LastUnitOfRest(t, w, rest, u);
      CollapseWsWordThenMore(t, w, u);
    }
  }

  lemma LastUnitOfRest(t: JsString, w: JsString, rest: JsString, u: JsString)
    requires t == w + rest && u != [] && |u| <= |rest| && u == rest[|rest| - |u|..]
    ensures t != [] && u[|u| - 1] == t[|t| - 1]
  {
    assert u[|u| - 1] == rest[|rest| - 1];
  }

  lemma CollapseWsLastWord(t: JsString, w: JsString)
    requires IsWord(w) && t == w
    requires CollapseWs(t) == w + CollapseWs([])
    requires Words(t) == [w] + Words([])
    ensures CollapseWs(t) == Join(Words(t)) + Trail(t)
  {
    assert Words(t) == [w];
    assert Trail(t) == [];
  }

  lemma CollapseWsWordThenRun(t: JsString, w: JsString, rest: JsString)
    requires IsWord(w) && t == w + rest && rest != [] && IsWs(rest[0]) && TrimStart(rest) == []
    requires CollapseWs(t) == w + CollapseWs(rest)
    requires Words(t) == [w] + Words(rest)
    ensures CollapseWs(t) == Join(Words(t)) + Trail(t)
  {
    CollapseWsRun(rest);
    WordsAfterRun(rest);
    TrimStartSuffix(rest);
    assert t[|t| - 1] == rest[|rest| - 1];
    assert Trail(t) == [Space];
    assert Words(t) == [w];
  }

  lemma CollapseWsWordThenMore(t: JsString, w: JsString, u: JsString)
    requires IsWord(w) && t != [] && u != [] && u[|u| - 1] == t[|t| - 1] && |Words(u)| > 0
    requires CollapseWs(t) == w + ([Space] + CollapseWs(u))
    requires Words(t) == [w] + Words(u)
    requires CollapseWs(u) == Join(Words(u)) + Trail(u)
    ensures CollapseWs(t) == Join(Words(t)) + Trail(t)
  {
    assert Trail(u) == Trail(t);
    var j := Join(Words(u));
    JoinCons(w, Words(u));
    SpaceAssoc(w, j, Trail(u));
  }

  lemma SpaceAssoc(w: JsString, j: JsString, tail: JsString)
    ensures w + ([Space] + (j + tail)) == (w + [Space] + j) + tail
  {
  }

  lemma {:induction false} TrimStartAround(a: JsString, j: JsString)
    requires forall k :: 0 <= k < |a| ==> IsWs(a[k])
    requires j == [] || !IsWs(j[0])
    ensures TrimStart(a + j) == j
    decreases |a|
  {
    if a != [] {
      assert (a + j)[1..] == a[1..] + j;
      TrimStartAround(a[1..], j);
    }
  }

  lemma {:induction false} TrimEndAround(j: JsString, b: JsString)
    requires forall k :: 0 <= k < |b| ==> IsWs(b[k])
    requires j == [] || !IsWs(j[|j| - 1])
    ensures TrimEnd(j + b) == j
    decreases |b|
  {
    if b != [] {
      assert (j + b)[..|j + b| - 1] == j + b[..|b| - 1];
      TrimEndAround(j, b[..|b| - 1]);
    }
  }

  /** Trimming removes exactly surrounding whitespace from text with solid ends. */
  lemma TrimAround(a: JsString, j: JsString, b: JsString)
    requires forall k :: 0 <= k < |a| ==> IsWs(a[k])
    requires forall k :: 0 <= k < |b| ==> IsWs(b[k])
    requires j == [] || (!IsWs(j[0]) && !IsWs(j[|j| - 1]))
    ensures Trim(a + j + b) == j
  {
    if j == [] {
      assert a + j + b == a + b;
      TrimStartAround(a + b, []);
      assert a + b + [] == a + b;
    } else {
      assert a + j + b == a + (j + b);
      TrimStartAround(a, j + b);
      TrimEndAround(j, b);
    }
  }

  /** Text that neither starts nor ends with whitespace is left as it is. */
  lemma TrimSolid(j: JsString)
    requires j == [] || (!IsWs(j[0]) && !IsWs(j[|j| - 1]))
    ensures Trim(j) == j
  {
    assert [] + j + [] == j;
    TrimAround([], j, []);
  }

  /** Trimming twice is trimming once. */
  lemma TrimIdempotent(s: JsString)
    ensures Trim(Trim(s)) == Trim(s)
  {
    TrimSolid(Trim(s));
  }

  /** Trimming leaves nothing exactly when the text is all whitespace. */
  lemma TrimEmptyIffBlank(s: JsString)
    ensures Trim(s) == [] <==> forall k :: 0 <= k < |s| ==> IsWs(s[k])
  {
    var r := Trim(s);
    var a: nat :| TrimmedAt(s, r, a);
    assert r != [] ==> r[0] == s[a];
  }

  /**
   * The cleanup step keeps exactly the words of the text, in order, with
   * one space between neighbours and nothing around them.
   */
  lemma NormalizeIsJoinOfWords(s: JsString)
    ensures Normalize(s) == Join(Words(s))
  {
    var u := TrimStart(s);
    var j := Join(Words(u));
    WordsTrimStart(s);
    CollapseWsFromWord(u);
    JoinEnds(Words(u));
    var lead: JsString := if s != [] && IsWs(s[0]) then [Space] else [];
    assert CollapseWs(s) == lead + (j + Trail(u)) by {
      if lead != [] {
        CollapseWsRun(s);
      }
    }
    TrimAroundJoin(lead, j, Trail(u));
  }

  lemma TrimAroundJoin(lead: JsString, j: JsString, trail: JsString)
    requires lead == [] || lead == [Space]
    requires trail == [] || trail == [Space]
    requires j == [] || (!IsWs(j[0]) && !IsWs(j[|j| - 1]))
    ensures Trim(lead + (j + trail)) == j
  {
    assert lead + (j + trail) == lead + j + trail;
    TrimAround(lead, j, trail);
  }

  /** The words of a first word followed by whitespace-led text. */
  lemma WordsOfWordThen(w: JsString, x: JsString)
    requires IsWord(w)
    requires x == [] || IsWs(x[0])
    ensures Words(w + x) == [w] + Words(x)
  {
    var t := w + x;
    assert TrimStart(t) == t;
    LeadingWordOf(w, x);
    assert t[|w|..] == x;
  }

  lemma {:induction false} LeadingWordOf(w: JsString, x: JsString)
    requires forall k :: 0 <= k < |w| ==> !IsWs(w[k])
    requires x == [] || IsWs(x[0])
    ensures LeadingWord(w + x) == w
    decreases |w|
  {
    if w != [] {
      assert (w + x)[1..] == w[1..] + x;
      LeadingWordOf(w[1..], x);
      assert w == [w[0]] + w[1..];
    }
  }

  /** Splitting joined words gives the words back. */
  lemma {:induction false} WordsOfJoin(ws: seq<JsString>)
    requires forall i :: 0 <= i < |ws| ==> IsWord(ws[i])
    ensures Words(Join(ws)) == ws
    decreases |ws|
  {
    if |ws| == 1 {
      WordsOfWordThen(ws[0], []);
      assert ws[0] + [] == ws[0];
    } else if |ws| > 1 {
      var rest := Join(ws[1..]);
      WordsOfJoin(ws[1..]);
      JoinEnds(ws[1..]);
      assert Join(ws) == ws[0] + ([Space] + rest);
      WordsOfWordThen(ws[0], [Space] + rest);
      assert TrimStart([Space] + rest) == rest by {
        assert ([Space] + rest)[1..] == rest;
      }
      WordsTrimStart([Space] + rest);
    }
  }

  /** Joined words have the normalised shape. */
  lemma {:induction false} JoinNormalized(ws: seq<JsString>)
    requires forall i :: 0 <= i < |ws| ==> IsWord(ws[i])
    ensures Normalized(Join(ws))
    decreases |ws|
  {
    JoinEnds(ws);
    if |ws| > 1 {
      var w := ws[0];
      var rest := Join(ws[1..]);
      JoinNormalized(ws[1..]);
      JoinEnds(ws[1..]);
      var r := Join(ws);
      assert r == w + [Space] + rest;
      forall k | 0 <= k < |r| && IsWs(r[k]) ensures r[k] == Space {
        if k > |w| {
          assert r[k] == rest[k - |w| - 1];
        }
      }
      forall k | 0 <= k < |r| - 1 && IsWs(r[k]) ensures !IsWs(r[k + 1]) {
        if k > |w| {
          assert r[k] == rest[k - |w| - 1] && r[k + 1] == rest[k - |w|];
        } else if k == |w| {
          assert r[k + 1] == rest[0];
        }
      }
    }
  }

  /** After the cleanup step the text has the normalised shape. */
  lemma NormalizeShape(s: JsString)
    ensures Normalized(Normalize(s))
  {
    NormalizeIsJoinOfWords(s);
    JoinNormalized(Words(s));
  }

  /** The cleanup step changes nothing the second time. */
  lemma NormalizeIdempotent(s: JsString)
    ensures Normalize(Normalize(s)) == Normalize(s)
  {
    NormalizeIsJoinOfWords(s);
    WordsOfJoin(Words(s));
    NormalizeIsJoinOfWords(Normalize(s));
  }
}
