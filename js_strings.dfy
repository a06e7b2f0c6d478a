/**
 * JavaScript strings as the handler sees them: sequences of UTF-16 code
 * units, which is what `.length`, `.slice` and regular expressions without
 * the `u` flag count and match.  Also the two character classes the site
 * cleanup relies on (`\s` and ASCII case folding), a case-insensitive
 * substring search, and the decimal rendering of a number in a template
 * literal.
 */
module JsStrings {

  /** One UTF-16 code unit. */
  type CodeUnit = u: int | 0 <= u < 0x1_0000

  /** A JavaScript string value. */
  type JsString = seq<CodeUnit>

  datatype Option<+T> = None | Some(value: T)

  /**
   * The code units of a string literal of the program.  Every literal the
   * handler uses lies in the Basic Multilingual Plane, where one character
   * is one code unit; a character outside it would be two units in
   * JavaScript and is mapped to U+FFFD here (no literal of the handler
   * has one).
   */
  function Lit(s: string): (r: JsString)
    ensures |r| == |s|
    ensures forall i :: 0 <= i < |s| && s[i] as int < 0x1_0000 ==> r[i] == s[i] as int
  {
    seq(|s|, i requires 0 <= i < |s| => if s[i] as int < 0x1_0000 then s[i] as int else 0xFFFD)
  }

  /** Literals concatenate as their code units do. */
  lemma LitAppend(a: string, b: string)
    ensures Lit(a + b) == Lit(a) + Lit(b)
  {
  }

  const Space: CodeUnit := ' ' as int
  const LessThan: CodeUnit := '<' as int
  const GreaterThan: CodeUnit := '>' as int

  /**
   * The `\s` class of ECMAScript regular expressions, which is also the set
   * `String.prototype.trim` removes: WhiteSpace (TAB, VT, FF, ZWNBSP and
   * every Unicode "Zs" space separator) and LineTerminator (LF, CR, LS, PS).
   */
  predicate IsWs(u: CodeUnit)
  {
    || u == 0x09 || u == 0x0A || u == 0x0B || u == 0x0C || u == 0x0D
    || u == 0x20 || u == 0xA0 || u == 0x1680
    || (0x2000 <= u <= 0x200A)
    || u == 0x2028 || u == 0x2029 || u == 0x202F || u == 0x205F
    || u == 0x3000 || u == 0xFEFF
  }

  /**
   * Case folding of a regular expression with the `i` flag and without `u`,
   * restricted to what the handler's patterns need: they are lower-case
   * ASCII, and without `u` no non-ASCII unit folds onto an ASCII letter, so
   * folding `A`..`Z` onto `a`..`z` is the whole relation.
   */
  function FoldAscii(u: CodeUnit): (r: CodeUnit)
    ensures r == u <==> !('A' as int <= u <= 'Z' as int)
    ensures 'a' as int <= r <= 'z' as int ==> r == u || r == u + 32
    ensures 'A' as int <= u <= 'Z' as int ==> r == u + 32
  {
    if 'A' as int <= u <= 'Z' as int then u + 32 else u
  }

  /** `pat` (lower case) occurs in `s` at index `i`, ignoring ASCII case. */
  predicate MatchesAt(s: JsString, i: nat, pat: JsString)
  {
    i + |pat| <= |s| && forall j :: 0 <= j < |pat| ==> FoldAscii(s[i + j]) == pat[j]
  }

  lemma MatchesAtTail(s: JsString, i: nat, pat: JsString)
    requires |s| > 0
    ensures MatchesAt(s[1..], i, pat) <==> MatchesAt(s, i + 1, pat)
  {
    if MatchesAt(s, i + 1, pat) {
      forall j | 0 <= j < |pat| ensures FoldAscii(s[1..][i + j]) == pat[j] {
        assert s[1..][i + j] == s[i + 1 + j];
      }
    }
  }

  lemma MatchesAtSuffix(s: JsString, n: nat, i: nat, pat: JsString)
    requires n <= |s|
    ensures MatchesAt(s[n..], i, pat) <==> MatchesAt(s, n + i, pat)
  {
    if MatchesAt(s, n + i, pat) {
      forall j | 0 <= j < |pat| ensures FoldAscii(s[n..][i + j]) == pat[j] {
        assert s[n..][i + j] == s[n + i + j];
      }
    }
  }

  /**
   * The index of the first case-insensitive occurrence of `pat` in `s`, or
   * None: the position at which a lazy `[\s\S]*?` followed by `pat` stops.
   */
  function FindCI(s: JsString, pat: JsString): (r: Option<nat>)
    ensures r.Some? ==> MatchesAt(s, r.value, pat)
    ensures r.Some? ==> forall k :: 0 <= k < r.value ==> !MatchesAt(s, k, pat)
    ensures r.None? ==> forall k: nat :: !MatchesAt(s, k, pat)
    decreases |s|
  {
    if |s| < |pat| then None
    else if MatchesAt(s, 0, pat) then Some(0)
    else
      var rest := FindCI(s[1..], pat);
      forall k: nat | 1 <= k ensures MatchesAt(s, k, pat) <==> MatchesAt(s[1..], k - 1, pat) {
        MatchesAtTail(s, k - 1, pat);
      }
      match rest
      case Some(k) => Some(k + 1)
      case None => None
  }

  /** The decimal digits of `n`, as `${n}` renders a non-negative integer. */
  function Decimal(n: nat): (r: JsString)
    ensures |r| > 0
    ensures forall i :: 0 <= i < |r| ==> '0' as int <= r[i] <= '9' as int
    ensures n > 0 ==> r[0] != '0' as int
    decreases n
  {
    if n < 10 then [('0' as int) + n] else Decimal(n / 10) + [('0' as int) + n % 10]
  }

  /** Reads back a run of decimal digits (the inverse of Decimal). */
  function DigitsValue(s: JsString): (r: nat)
    requires forall i :: 0 <= i < |s| ==> '0' as int <= s[i] <= '9' as int
    decreases |s|
  {
    if s == [] then 0 else 10 * DigitsValue(s[..|s| - 1]) + (s[|s| - 1] - '0' as int)
  }

  /** A status code can be recovered from its decimal rendering. */
  lemma {:induction false} DecimalRoundTrip(n: nat)
    ensures DigitsValue(Decimal(n)) == n
    decreases n
  {
    if n >= 10 {
      DecimalRoundTrip(n / 10);
      var d := Decimal(n);
      assert d[..|d| - 1] == Decimal(n / 10);
    }
  }

  /** Distinct numbers render differently. */
  lemma DecimalInjective(m: nat, n: nat)
    requires Decimal(m) == Decimal(n)
    ensures m == n
  {
    DecimalRoundTrip(m);
    DecimalRoundTrip(n);
  }
}
