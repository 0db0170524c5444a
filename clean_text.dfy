/** `clean_text` of scripts/osv_nvd_enrich_sbom.py: the normaliser applied to
    an OSV advisory's `details` text before it is stored. Three regular
    expression substitutions run one after the other, then `strip()`:
      1. `[^\x00-\x7F]+` -> " "        (every run of non-ASCII characters)
      2. `(?<!\()https?://[^\s]+` -> "(" + match + ")"
      3. `\s+` -> " "                  (every run of whitespace)
    Each substitution scans its input left to right and restarts after the
    end of each match, as `re.sub` does. */
module TextCleaning {
  import opened Wrappers
  import opened PyText

  predicate NonAscii(c: char) {
    !IsAscii(c)
  }

  // ---------------------------------------------------------------------------
  // Passes 1 and 3: `re.sub("[class]+", " ", s)`

  /** No two neighbouring characters of `s` are both in the class. */
  predicate NoAdjacent(s: string, inClass: char -> bool) {
    forall i, j :: 0 <= i < |s| && j == i + 1 < |s| ==> !(inClass(s[i]) && inClass(s[j]))
  }

  /** The input left after the maximal run of class characters at its start. */
  function SkipRun(s: string, inClass: char -> bool): (r: string)
    ensures |r| <= |s| && r == s[|s| - |r|..]
    ensures forall k :: 0 <= k < |s| - |r| ==> inClass(s[k])
    ensures r != [] ==> !inClass(r[0])
  {
    if s != [] && inClass(s[0]) then
      var t := s[1..];
      assert forall k :: 0 < k < |s| ==> s[k] == t[k - 1];
      SkipRun(t, inClass)
    else s
  }

  /** Every maximal run of characters satisfying `inClass` replaced by one
      space; the other characters kept in order. */
  function CollapseRuns(s: string, inClass: char -> bool): (r: string)
    ensures |r| <= |s|
    ensures forall i :: 0 <= i < |r| ==> r[i] == ' ' || !inClass(r[i])
    decreases |s|
  {
    if s == [] then []
    else if inClass(s[0]) then [' '] + CollapseRuns(SkipRun(s[1..], inClass), inClass)
    else [s[0]] + CollapseRuns(s[1..], inClass)
  }

  /** After pass 1 or 3, the only class characters left are spaces, and
      no two of them are adjacent. */
  lemma {:induction false} CollapseRunsShape(s: string, inClass: char -> bool)
    ensures var r := CollapseRuns(s, inClass);
      && (forall i :: 0 <= i < |r| ==> r[i] == ' ' || !inClass(r[i]))
      && NoAdjacent(r, inClass)
      && (s != [] && !inClass(s[0]) ==> r != [] && r[0] == s[0])
    decreases |s|
  {
    if s != [] {
      var t := if inClass(s[0]) then SkipRun(s[1..], inClass) else s[1..];
      CollapseRunsShape(t, inClass);
    }
  }

  /** Pass 3 keeps an ASCII text ASCII: it only removes characters and
      inserts spaces. */
  lemma {:induction false} CollapseRunsAscii(s: string, inClass: char -> bool)
    requires AllAscii(s)
    ensures AllAscii(CollapseRuns(s, inClass))
    decreases |s|
  {
    if s != [] {
      var t := if inClass(s[0]) then SkipRun(s[1..], inClass) else s[1..];
      CollapseRunsAscii(t, inClass);
    }
  }

  /** The characters that are neither a space nor in the class, in order. */
  function Kept(s: string, inClass: char -> bool): string {
    if s == [] then []
    else if s[0] == ' ' || inClass(s[0]) then Kept(s[1..], inClass)
    else [s[0]] + Kept(s[1..], inClass)
  }

  lemma {:induction false} KeptSkipRun(s: string, inClass: char -> bool)
    ensures Kept(SkipRun(s, inClass), inClass) == Kept(s, inClass)
    decreases |s|
  {
    if s != [] && inClass(s[0]) {
      KeptSkipRun(s[1..], inClass);
    }
  }

  /** Replacing runs by a space loses and adds nothing but class characters
      and spaces: what is left once those are removed is unchanged. */
  lemma {:induction false} CollapseRunsKept(s: string, inClass: char -> bool)
    ensures Kept(CollapseRuns(s, inClass), inClass) == Kept(s, inClass)
    decreases |s|
  {
    if s == [] {
    } else if inClass(s[0]) {
      var rest := SkipRun(s[1..], inClass);
      CollapseRunsKept(rest, inClass);
      KeptSkipRun(s[1..], inClass);
      assert CollapseRuns(s, inClass) == [' '] + CollapseRuns(rest, inClass);
    } else {
      CollapseRunsKept(s[1..], inClass);
      assert CollapseRuns(s, inClass) == [s[0]] + CollapseRuns(s[1..], inClass);
    }
  }

  /** The rest of the input after a whole run at its front is what
      follows the run. */
  lemma {:induction false} SkipRunWhole(r: string, y: string, inClass: char -> bool)
    requires forall i :: 0 <= i < |r| ==> inClass(r[i])
    requires y == [] || !inClass(y[0])
    ensures SkipRun(r + y, inClass) == y
    decreases |r|
  {
    if r == [] {
      assert r + y == y;
    } else {
      assert (r + y)[0] == r[0] && (r + y)[1..] == r[1..] + y;
      SkipRunWhole(r[1..], y, inClass);
    }
  }

  /** A run that ends inside `x` ends before `y`. */
  lemma {:induction false} SkipRunAppend(x: string, y: string, inClass: char -> bool)
    requires x != [] && !inClass(x[|x| - 1])
    ensures SkipRun(x + y, inClass) == SkipRun(x, inClass) + y
    ensures var t := SkipRun(x, inClass); t != [] && !inClass(t[|t| - 1])
    decreases |x|
  {
    assert (x + y)[0] == x[0] && (x + y)[1..] == x[1..] + y;
    if inClass(x[0]) {
      assert x[1..][|x| - 2] == x[|x| - 1];
      SkipRunAppend(x[1..], y, inClass);
    }
  }

  /** A text starting in the class starts its result with one space. */
  lemma CollapseRunsClassHead(c: char, t: string, inClass: char -> bool)
    requires inClass(c)
    ensures CollapseRuns([c] + t, inClass) == " " + CollapseRuns(SkipRun(t, inClass), inClass)
  {
    assert ([c] + t)[0] == c && ([c] + t)[1..] == t;
  }

  /** A maximal run at the front becomes one space. */
  lemma CollapseRunsFrontRun(r: string, y: string, inClass: char -> bool)
    requires r != [] && forall i :: 0 <= i < |r| ==> inClass(r[i])
    requires y == [] || !inClass(y[0])
    ensures CollapseRuns(r + y, inClass) == " " + CollapseRuns(y, inClass)
  {
    var t := r[1..] + y;
    assert r + y == [r[0]] + t;
    SkipRunWhole(r[1..], y, inClass);
    CollapseRunsClassHead(r[0], t, inClass);
  }

  /** Text that ends outside the class is collapsed on its own: no run
      crosses its end. */
  lemma {:induction false} CollapseRunsAppend(x: string, y: string, inClass: char -> bool)
    requires x == [] || !inClass(x[|x| - 1])
    ensures CollapseRuns(x + y, inClass) == CollapseRuns(x, inClass) + CollapseRuns(y, inClass)
    decreases |x|
  {
    if x == [] {
      assert x + y == y;
    } else {
      assert (x + y)[0] == x[0] && (x + y)[1..] == x[1..] + y;
      if inClass(x[0]) {
        var t := x[1..];
        assert t[|t| - 1] == x[|x| - 1];
        SkipRunAppend(t, y, inClass);
        var rest := SkipRun(t, inClass);
        CollapseRunsAppend(rest, y, inClass);
        AppendAssoc([' '], CollapseRuns(rest, inClass), CollapseRuns(y, inClass));
      } else {
        CollapseRunsAppend(x[1..], y, inClass);
        AppendAssoc([x[0]], CollapseRuns(x[1..], inClass), CollapseRuns(y, inClass));
      }
    }
  }

  /** Each maximal run of class characters becomes exactly one space; the
      text on either side of it is collapsed on its own. With
      `CollapseRunsFixpoint` for text without class characters, this fixes
      the result of passes 1 and 3 on every input. */
  lemma CollapseRunsRun(x: string, r: string, y: string, inClass: char -> bool)
    requires x == [] || !inClass(x[|x| - 1])
    requires r != [] && forall i :: 0 <= i < |r| ==> inClass(r[i])
    requires y == [] || !inClass(y[0])
    ensures CollapseRuns(x + r + y, inClass) == CollapseRuns(x, inClass) + " " + CollapseRuns(y, inClass)
  {
    AppendAssoc(x, r, y);
    CollapseRunsAppend(x, r + y, inClass);
    CollapseRunsFrontRun(r, y, inClass);
    AppendAssoc(CollapseRuns(x, inClass), " ", CollapseRuns(y, inClass));
  }

  /** A text whose only class characters are single spaces is left as it is. */
  lemma {:induction false} CollapseRunsFixpoint(s: string, inClass: char -> bool)
    requires forall i :: 0 <= i < |s| && inClass(s[i]) ==> s[i] == ' '
    requires NoAdjacent(s, inClass)
    ensures CollapseRuns(s, inClass) == s
    decreases |s|
  {
    if s != [] {
      CollapseRunsFixpoint(s[1..], inClass);
      if inClass(s[0]) {
        assert SkipRun(s[1..], inClass) == s[1..];
      }
    }
  }

  /** Each of passes 1 and 3 is idempotent on its own. */
  lemma CollapseRunsIdempotent(s: string, inClass: char -> bool)
    ensures CollapseRuns(CollapseRuns(s, inClass), inClass) == CollapseRuns(s, inClass)
  {
    CollapseRunsShape(s, inClass);
    CollapseRunsFixpoint(CollapseRuns(s, inClass), inClass);
  }

  // ---------------------------------------------------------------------------
  // Pass 2: `re.sub(r"(?<!\()https?://[^\s]+", lambda m: f"({m.group()})", s)`

  /** The length of the `[^\s]+` run at the start of `s` (0 if none). */
  function NonSpaceRun(s: string): (n: nat)
    ensures n <= |s|
    ensures forall k :: 0 <= k < n ==> !IsSpace(s[k])
    ensures n < |s| ==> IsSpace(s[n])
  {
    if s != [] && !IsSpace(s[0]) then 1 + NonSpaceRun(s[1..]) else 0
  }

  /** The length of the `https?://` that `s` starts with (0 if none). */
  function SchemeLength(s: string): (n: nat)
    ensures n == 0 || n == 7 || n == 8
    ensures n > 0 ==> n <= |s| && forall k :: 0 <= k < n ==> !IsSpace(s[k])
  {
    if |s| < 7 || s[0] != 'h' || s[1] != 't' || s[2] != 't' || s[3] != 'p' then 0
    else if s[4] == ':' && s[5] == '/' && s[6] == '/' then 7
    else if |s| >= 8 && s[4] == 's' && s[5] == ':' && s[6] == '/' && s[7] == '/' then 8
    else 0
  }

  /** The length of the match of `https?://[^\s]+` at the start of `s`, 0 when
      there is none. The scheme holds no whitespace, so a match is the
      whole leading non-whitespace run, which must be longer than the scheme
      (`https://` followed by whitespace does not match either branch of
      `s?`). */
  function UrlLength(s: string): (n: nat)
    ensures n <= |s|
    ensures n > 0 ==> SchemeLength(s) > 0
  {
    var k := SchemeLength(s);
    if k > 0 && NonSpaceRun(s) > k then NonSpaceRun(s) else 0
  }

  /** Pass 2 on `s`, where `afterParen` tells whether the character just
      before `s` in the scanned text is `(` (the negative lookbehind). A
      match is wrapped and scanning restarts after it; otherwise one
      character is copied. */
  function WrapUrls(afterParen: bool, s: string): (r: string)
    ensures |r| >= |s|
    decreases |s|
  {
    if s == [] then []
    else
      var n := UrlLength(s);
      if n > 0 && !afterParen then ['('] + s[..n] + [')'] + WrapUrls(s[n - 1] == '(', s[n..])
      else [s[0]] + WrapUrls(s[0] == '(', s[1..])
  }

  /** Pass 2 keeps an ASCII text ASCII: it adds nothing but parentheses. */
  lemma {:induction false} WrapUrlsAscii(afterParen: bool, s: string)
    requires AllAscii(s)
    ensures AllAscii(WrapUrls(afterParen, s))
    decreases |s|
  {
    if s != [] {
      var n := UrlLength(s);
      if n > 0 && !afterParen {
        WrapUrlsAscii(s[n - 1] == '(', s[n..]);
      } else {
        WrapUrlsAscii(s[0] == '(', s[1..]);
      }
    }
  }

  /** `s` holds no whitespace character. */
  predicate NoSpaces(s: string) {
    forall i :: 0 <= i < |s| ==> !IsSpace(s[i])
  }

  lemma NoSpacesAppend(a: string, b: string)
    requires NoSpaces(a) && NoSpaces(b)
    ensures NoSpaces(a + b)
  {
    assert forall i :: |a| <= i < |a + b| ==> (a + b)[i] == b[i - |a|];
  }

  lemma AllAsciiAppend(a: string, b: string)
    requires AllAscii(a) && AllAscii(b)
    ensures AllAscii(a + b)
  {
    assert forall i :: |a| <= i < |a + b| ==> (a + b)[i] == b[i - |a|];
  }

  /** Pass 2 adds no whitespace. */
  lemma {:induction false} WrapUrlsNoSpace(afterParen: bool, s: string)
    requires NoSpaces(s)
    ensures NoSpaces(WrapUrls(afterParen, s))
    decreases |s|
  {
    if s != [] {
      var n := UrlLength(s);
      if n > 0 && !afterParen {
        var t := WrapUrls(s[n - 1] == '(', s[n..]);
        WrapUrlsNoSpace(s[n - 1] == '(', s[n..]);
        assert NoSpaces(s[..n]);
        NoSpacesAppend(['('], s[..n]);
        NoSpacesAppend(['('] + s[..n], [')']);
        NoSpacesAppend(['('] + s[..n] + [')'], t);
      } else {
        var t := WrapUrls(s[0] == '(', s[1..]);
        WrapUrlsNoSpace(s[0] == '(', s[1..]);
        NoSpacesAppend([s[0]], t);
      }
    }
  }

  /** The text with every parenthesis removed. */
  function Unparenthesised(s: string): string {
    if s == [] then []
    else if s[0] == '(' || s[0] == ')' then Unparenthesised(s[1..])
    else [s[0]] + Unparenthesised(s[1..])
  }

  lemma {:induction false} UnparenthesisedAppend(a: string, b: string)
    ensures Unparenthesised(a + b) == Unparenthesised(a) + Unparenthesised(b)
    decreases |a|
  {
    if a == [] {
      assert a + b == b;
    } else {
      var s := a + b;
      assert s[0] == a[0] && s[1..] == a[1..] + b;
      UnparenthesisedAppend(a[1..], b);
      if a[0] != '(' && a[0] != ')' {
        AppendAssoc([a[0]], Unparenthesised(a[1..]), Unparenthesised(b));
      }
    }
  }

  lemma UnparenthesisedCons(c: char, w: string)
    ensures Unparenthesised([c] + w) == (if c == '(' || c == ')' then [] else [c]) + Unparenthesised(w)
  {
    assert ([c] + w)[0] == c && ([c] + w)[1..] == w;
  }

  lemma UnparenthesisedWrapped(u: string, w: string)
    ensures Unparenthesised(['('] + u + [')'] + w) == Unparenthesised(u) + Unparenthesised(w)
  {
    var t := [')'] + w;
    assert ['('] + u + [')'] + w == ['('] + (u + t);
    UnparenthesisedCons('(', u + t);
    UnparenthesisedAppend(u, t);
    UnparenthesisedCons(')', w);
    assert [] + Unparenthesised(w) == Unparenthesised(w);
    assert [] + Unparenthesised(u + t) == Unparenthesised(u + t);
  }

  /** Removing parentheses from `s` after one step of pass 2 that wraps. */
  lemma UnparenthesisedAtUrl(afterParen: bool, s: string)
    requires UrlLength(s) > 0 && !afterParen
    requires var n := UrlLength(s);
      Unparenthesised(WrapUrls(s[n - 1] == '(', s[n..])) == Unparenthesised(s[n..])
    ensures Unparenthesised(WrapUrls(afterParen, s)) == Unparenthesised(s)
  {
    var n := UrlLength(s);
    WrapUrlsWrapStep(afterParen, s);
    UnparenthesisedWrapped(s[..n], WrapUrls(s[n - 1] == '(', s[n..]));
    UnparenthesisedAppend(s[..n], s[n..]);
    assert s[..n] + s[n..] == s;
  }

  /** Removing parentheses from `s` after one step of pass 2 that copies. */
  lemma UnparenthesisedAtChar(afterParen: bool, s: string)
    requires s != [] && (UrlLength(s) == 0 || afterParen)
    requires Unparenthesised(WrapUrls(s[0] == '(', s[1..])) == Unparenthesised(s[1..])
    ensures Unparenthesised(WrapUrls(afterParen, s)) == Unparenthesised(s)
  {
    WrapUrlsCopyStep(afterParen, s);
    UnparenthesisedAppend([s[0]], WrapUrls(s[0] == '(', s[1..]));
    UnparenthesisedAppend([s[0]], s[1..]);
    assert [s[0]] + s[1..] == s;
  }

  /** Pass 2 only inserts parentheses: removing all parentheses from its
      output gives what removing them from its input gives. */
  lemma {:induction false} WrapUrlsOnlyAddsParens(afterParen: bool, s: string)
    ensures Unparenthesised(WrapUrls(afterParen, s)) == Unparenthesised(s)
    decreases |s|
  {
    if s != [] {
      var n := UrlLength(s);
      if n > 0 && !afterParen {
        WrapUrlsOnlyAddsParens(s[n - 1] == '(', s[n..]);
        UnparenthesisedAtUrl(afterParen, s);
      } else {
        WrapUrlsOnlyAddsParens(s[0] == '(', s[1..]);
        UnparenthesisedAtChar(afterParen, s);
      }
    }
  }

  /** A scheme holds no whitespace, so text that ends in whitespace decides on
      its own whether and how long a URL starts at its front. */
  lemma SchemeLengthBeforeSpace(x: string, y: string)
    requires (x != [] && IsSpace(x[|x| - 1])) || (y != [] && IsSpace(y[0]))
    ensures SchemeLength(x + y) == SchemeLength(x)
  {
    var s := x + y;
    var k := if x != [] && IsSpace(x[|x| - 1]) then |x| - 1 else |x|;
    assert IsSpace(s[k]);
    assert forall j :: 0 <= j < |x| ==> s[j] == x[j];
  }

  lemma {:induction false} NonSpaceRunBeforeSpace(x: string, y: string)
    requires (x != [] && IsSpace(x[|x| - 1])) || (y != [] && IsSpace(y[0]))
    ensures NonSpaceRun(x + y) == NonSpaceRun(x)
    decreases |x|
  {
    if x != [] && !IsSpace(x[0]) {
      assert (x + y)[1..] == x[1..] + y;
      NonSpaceRunBeforeSpace(x[1..], y);
    }
  }

  lemma UrlLengthBeforeSpace(x: string, y: string)
    requires (x != [] && IsSpace(x[|x| - 1])) || (y != [] && IsSpace(y[0]))
    ensures UrlLength(x + y) == UrlLength(x)
  {
    SchemeLengthBeforeSpace(x, y);
    NonSpaceRunBeforeSpace(x, y);
  }

  /** One step of pass 2 that wraps the URL match at the front of `s`. */
  lemma WrapUrlsWrapStep(afterParen: bool, s: string)
    requires UrlLength(s) > 0 && !afterParen
    ensures var n := UrlLength(s);
      WrapUrls(afterParen, s) == ['('] + s[..n] + [')'] + WrapUrls(s[n - 1] == '(', s[n..])
  {
  }

  /** One step of pass 2 that copies the first character of `s`. */
  lemma WrapUrlsCopyStep(afterParen: bool, s: string)
    requires s != [] && (UrlLength(s) == 0 || afterParen)
    ensures WrapUrls(afterParen, s) == [s[0]] + WrapUrls(s[0] == '(', s[1..])
  {
  }

  /** Slicing `x + y` inside `x`. */
  lemma SliceAppend(x: string, y: string, n: nat)
    requires 0 < n <= |x|
    ensures (x + y)[..n] == x[..n] && (x + y)[n..] == x[n..] + y && (x + y)[n - 1] == x[n - 1]
  {
  }

  /** The step of `WrapUrlsSplit` at a URL match in `x`. */
  lemma WrapUrlsSplitAtUrl(afterParen: bool, x: string, y: string)
    requires !afterParen && 0 < UrlLength(x) == UrlLength(x + y)
    requires var n := UrlLength(x); var after := x[n - 1] == '(';
      WrapUrls(after, x[n..] + y) == WrapUrls(after, x[n..]) + WrapUrls(false, y)
    ensures WrapUrls(afterParen, x + y) == WrapUrls(afterParen, x) + WrapUrls(false, y)
  {
    var n := UrlLength(x);
    SliceAppend(x, y, n);
    WrapUrlsWrapStep(afterParen, x + y);
    WrapUrlsWrapStep(afterParen, x);
    AppendAssoc(['('] + x[..n] + [')'], WrapUrls(x[n - 1] == '(', x[n..]), WrapUrls(false, y));
  }

  /** The step of `WrapUrlsSplit` at a copied character of `x`. */
  lemma WrapUrlsSplitAtChar(afterParen: bool, x: string, y: string)
    requires x != []
    requires UrlLength(x) == 0 || afterParen
    requires UrlLength(x + y) == 0 || afterParen
    requires var after := x[0] == '(';
      WrapUrls(after, x[1..] + y) == WrapUrls(after, x[1..]) + WrapUrls(false, y)
    ensures WrapUrls(afterParen, x + y) == WrapUrls(afterParen, x) + WrapUrls(false, y)
  {
    SliceAppend(x, y, 1);
    WrapUrlsCopyStep(afterParen, x + y);
    WrapUrlsCopyStep(afterParen, x);
    AppendAssoc([x[0]], WrapUrls(x[0] == '(', x[1..]), WrapUrls(false, y));
  }

  /** Text that ends in whitespace is rewritten independently of what
      follows it: no URL match runs across whitespace. */
  lemma {:induction false} WrapUrlsSplit(afterParen: bool, x: string, y: string)
    requires x != [] && IsSpace(x[|x| - 1])
    ensures WrapUrls(afterParen, x + y) == WrapUrls(afterParen, x) + WrapUrls(false, y)
    decreases |x|, 1
  {
    UrlLengthBeforeSpace(x, y);
    if UrlLength(x) > 0 && !afterParen {
      WrapUrlsSplitUrl(afterParen, x, y);
    } else {
      WrapUrlsSplitChar(afterParen, x, y);
    }
  }

  /** `WrapUrlsSplit` when a URL match starts `x`. */
  lemma {:induction false} WrapUrlsSplitUrl(afterParen: bool, x: string, y: string)
    requires x != [] && IsSpace(x[|x| - 1])
    requires !afterParen && 0 < UrlLength(x) == UrlLength(x + y)
    ensures WrapUrls(afterParen, x + y) == WrapUrls(afterParen, x) + WrapUrls(false, y)
    decreases |x|, 0
  {
    var n := UrlLength(x);
    assert n < |x|;
    var rest := x[n..];
    assert rest[|rest| - 1] == x[|x| - 1];
    WrapUrlsSplit(x[n - 1] == '(', rest, y);
    WrapUrlsSplitAtUrl(afterParen, x, y);
  }

  /** `WrapUrlsSplit` when the first character of `x` is copied. */
  lemma {:induction false} WrapUrlsSplitChar(afterParen: bool, x: string, y: string)
    requires x != [] && IsSpace(x[|x| - 1])
    requires UrlLength(x) == 0 || afterParen
    requires UrlLength(x + y) == 0 || afterParen
    ensures WrapUrls(afterParen, x + y) == WrapUrls(afterParen, x) + WrapUrls(false, y)
    decreases |x|, 0
  {
    if |x| == 1 {
      assert x[1..] + y == y && x[1..] == [];
      assert x[0] != '(';
    } else {
      assert x[1..][|x| - 2] == x[|x| - 1];
      WrapUrlsSplit(x[0] == '(', x[1..], y);
    }
    WrapUrlsSplitAtChar(afterParen, x, y);
  }

  /** Associativity of concatenation, stated once so that the proofs
      below need not rediscover it in a large context. */
  lemma AppendAssoc(a: string, b: string, c: string)
    ensures a + (b + c) == (a + b) + c
  {
  }

  /** Pass 2 copies text that starts with whitespace regardless of the
      character before it. */
  lemma WrapUrlsAfterSpace(afterParen: bool, q: string)
    requires q == [] || IsSpace(q[0])
    ensures WrapUrls(afterParen, q) == WrapUrls(false, q)
  {
    if q != [] {
      assert UrlLength(q) == 0;
    }
  }

  /** A URL at the front of `u + q`, delimited by whitespace, is wrapped. */
  lemma WrapUrlsUrlFirst(u: string, q: string)
    requires UrlLength(u) == |u| > 0
    requires q == [] || IsSpace(q[0])
    ensures WrapUrls(false, u + q) == ['('] + u + [')'] + WrapUrls(false, q)
  {
    var t := u + q;
    if q != [] {
      UrlLengthBeforeSpace(u, q);
    } else {
      assert t == u;
    }
    SliceAppend(u, q, |u|);
    assert u[..|u|] == u && u[|u|..] == [];
    WrapUrlsWrapStep(false, t);
    WrapUrlsAfterSpace(u[|u| - 1] == '(', q);
  }

  lemma Regroup(a: string, u: string, b: string)
    ensures a + (['('] + u + [')'] + b) == a + "(" + u + ")" + b
  {
  }

  /** `n` opening and `n` closing parentheses. */
  function Parens(n: nat): multiset<char> {
    if n == 0 then multiset{} else Parens(n - 1) + multiset{'(', ')'}
  }

  /** `w` is `s` with `k` more `(` and `k` more `)`. */
  predicate AddsPairs(s: string, w: string, k: nat) {
    |w| == |s| + 2 * k && multiset(w) == multiset(s) + Parens(k)
  }

  /** `w` is `s` with some number of `(` and the same number of `)`
      added. */
  predicate AddsParenPairs(s: string, w: string) {
    |w| >= |s| && (|w| - |s|) % 2 == 0 && AddsPairs(s, w, (|w| - |s|) / 2)
  }

  lemma AddsParenPairsOf(s: string, w: string, k: nat)
    requires AddsPairs(s, w, k)
    ensures AddsParenPairs(s, w)
  {
    assert (|w| - |s|) / 2 == k;
  }

  lemma AddsPairsWrap(u: string, v: string, w: string, k: nat)
    requires AddsPairs(v, w, k)
    ensures AddsPairs(u + v, ['('] + u + [')'] + w, k + 1)
  {
    var x := ['('] + u + [')'] + w;
    assert multiset(x) == multiset{'('} + multiset(u) + multiset{')'} + multiset(w);
    assert multiset(u + v) == multiset(u) + multiset(v);
  }

  lemma AddsParenPairsWrap(u: string, v: string, w: string)
    requires AddsParenPairs(v, w)
    ensures AddsParenPairs(u + v, ['('] + u + [')'] + w)
  {
    var k := (|w| - |v|) / 2;
    AddsPairsWrap(u, v, w, k);
    AddsParenPairsOf(u + v, ['('] + u + [')'] + w, k + 1);
  }

  lemma AddsParenPairsCopy(c: char, v: string, w: string)
    requires AddsParenPairs(v, w)
    ensures AddsParenPairs([c] + v, [c] + w)
  {
    var k := (|w| - |v|) / 2;
    assert multiset([c] + w) == multiset{c} + multiset(w);
    assert multiset([c] + v) == multiset{c} + multiset(v);
    AddsParenPairsOf([c] + v, [c] + w, k);
  }

  /** One step of pass 2 that wraps adds one pair. */
  lemma ParenPairsAtUrl(afterParen: bool, s: string)
    requires UrlLength(s) > 0 && !afterParen
    requires var n := UrlLength(s);
      AddsParenPairs(s[n..], WrapUrls(s[n - 1] == '(', s[n..]))
    ensures AddsParenPairs(s, WrapUrls(afterParen, s))
  {
    var n := UrlLength(s);
    var u, v := s[..n], s[n..];
    var w := WrapUrls(s[n - 1] == '(', v);
    assert s == u + v;
    WrapUrlsWrapStep(afterParen, s);
    AddsParenPairsWrap(u, v, w);
  }

  /** One step of pass 2 that copies adds nothing. */
  lemma ParenPairsAtChar(afterParen: bool, s: string)
    requires s != [] && (UrlLength(s) == 0 || afterParen)
    requires AddsParenPairs(s[1..], WrapUrls(s[0] == '(', s[1..]))
    ensures AddsParenPairs(s, WrapUrls(afterParen, s))
  {
    WrapUrlsCopyStep(afterParen, s);
    AddsParenPairsCopy(s[0], s[1..], WrapUrls(s[0] == '(', s[1..]));
    assert [s[0]] + s[1..] == s;
  }

  /** Pass 2 drops none of its input's characters, its own parentheses
      included, and adds nothing but parentheses, as many `(` as `)`. */
  lemma {:induction false} WrapUrlsAddsParenPairs(afterParen: bool, s: string)
    ensures AddsParenPairs(s, WrapUrls(afterParen, s))
    decreases |s|
  {
    if s == [] {
      assert WrapUrls(afterParen, s) == [];
    } else {
      var n := UrlLength(s);
      if n > 0 && !afterParen {
        WrapUrlsAddsParenPairs(s[n - 1] == '(', s[n..]);
        ParenPairsAtUrl(afterParen, s);
      } else {
        WrapUrlsAddsParenPairs(s[0] == '(', s[1..]);
        ParenPairsAtChar(afterParen, s);
      }
    }
  }

  /** A whitespace-delimited URL that does not follow `(` comes out
      wrapped in parentheses; the text around it is rewritten on its own.
      This is `GluedUrlIsWrapped` with nothing glued before the URL. */
  lemma UrlTokenIsWrapped(p: string, u: string, q: string)
    requires UrlLength(u) == |u| > 0
    requires p == [] || IsSpace(p[|p| - 1])
    requires q == [] || IsSpace(q[0])
    ensures WrapUrls(false, p + u + q) == WrapUrls(false, p) + "(" + u + ")" + WrapUrls(false, q)
  {
    GluedUrlIsWrapped(p, [], u, q);
    assert p + [] == p && WrapUrls(false, p) + [] == WrapUrls(false, p);
  }

  /** No URL match may start in `v`, followed by `q`, when scanning with
      `afterParen`: where `http://` or `https://` starts, the character
      before it is `(`. */
  predicate NoMatchIn(afterParen: bool, v: string, q: string) {
    forall k :: 0 <= k < |v| && SchemeLength((v + q)[k..]) > 0 ==>
      if k == 0 then afterParen else v[k - 1] == '('
  }

  lemma NoMatchInTail(afterParen: bool, v: string, q: string)
    requires v != [] && NoMatchIn(afterParen, v, q)
    ensures NoMatchIn(v[0] == '(', v[1..], q)
    ensures SchemeLength(v + q) == 0 || afterParen
  {
    var s := v + q;
    assert s[0..] == s;
    forall k | 0 <= k < |v[1..]| && SchemeLength((v[1..] + q)[k..]) > 0
      ensures if k == 0 then v[0] == '(' else v[1..][k - 1] == '('
    {
      assert (v[1..] + q)[k..] == s[k + 1..];
    }
  }

  /** Pass 2 copies `v` unchanged when no URL match may start in it. */
  lemma {:induction false} WrapUrlsCopies(afterParen: bool, v: string, q: string)
    requires NoMatchIn(afterParen, v, q)
    ensures WrapUrls(afterParen, v + q) == v + WrapUrls(if v == [] then afterParen else v[|v| - 1] == '(', q)
    decreases |v|
  {
    if v == [] {
      assert v + q == q;
    } else {
      NoMatchInTail(afterParen, v, q);
      SliceAppend(v, q, 1);
      WrapUrlsCopyStep(afterParen, v + q);
      var rest := WrapUrls(if v[1..] == [] then v[0] == '(' else v[|v| - 1] == '(', q);
      WrapUrlsCopies(v[0] == '(', v[1..], q);
      AppendAssoc([v[0]], v[1..], rest);
      assert [v[0]] + v[1..] == v;
    }
  }

  /** After `(`, a URL token with no further scheme inside it is copied
      as it is, and what follows the whitespace after it is rewritten on
      its own. */
  lemma WrapUrlsAfterParenUrl(u: string, q: string)
    requires UrlLength(u) == |u| > 0
    requires forall k :: 0 < k < |u| ==> SchemeLength(u[k..]) == 0
    requires q == [] || IsSpace(q[0])
    ensures WrapUrls(true, u + q) == u + WrapUrls(false, q)
  {
    forall k | 0 < k < |u|
      ensures SchemeLength((u + q)[k..]) == 0
    {
      assert (u + q)[k..] == u[k..] + q;
      if q != [] {
        SchemeLengthBeforeSpace(u[k..], q);
      } else {
        assert u[k..] + q == u[k..];
      }
    }
    assert NoMatchIn(true, u, q);
    WrapUrlsCopies(true, u, q);
    WrapUrlsAfterSpace(u[|u| - 1] == '(', q);
  }

  /** A whitespace-delimited URL that directly follows `(` is left as it is,
      provided no further `http://` or `https://` starts inside it. This is
      `GluedParenthesisedUrlIsKept` with nothing before the `(`. */
  lemma ParenthesisedUrlIsKept(p: string, u: string, q: string)
    requires UrlLength(u) == |u| > 0
    requires forall k :: 0 < k < |u| ==> SchemeLength(u[k..]) == 0
    requires p == [] || IsSpace(p[|p| - 1])
    requires q == [] || IsSpace(q[0])
    ensures WrapUrls(false, p + "(" + u + q) == WrapUrls(false, p) + "(" + u + WrapUrls(false, q)
  {
    assert NoMatchIn(false, [] + "(", u + q) by {
      assert ([] + "(" + (u + q))[0..][0] == '(';
    }
    GluedParenthesisedUrlIsKept(p, [], u, q);
    assert p + [] == p && WrapUrls(false, p) + [] == WrapUrls(false, p);
  }

  /** A URL glued to the text before it, as in `<https://x>`, `"https://x"`
      or `url=https://x`: when no match starts in the chunk `t` before it
      and `t` does not end in `(`, the URL token is wrapped whole (closing
      `>` or `"` included, since `[^\s]+` runs to the next whitespace), and
      `t` is copied. */
  lemma GluedUrlIsWrapped(p: string, t: string, u: string, q: string)
    requires UrlLength(u) == |u| > 0
    requires p == [] || IsSpace(p[|p| - 1])
    requires NoMatchIn(false, t, u + q) && (t == [] || t[|t| - 1] != '(')
    requires q == [] || IsSpace(q[0])
    ensures WrapUrls(false, p + t + u + q) == WrapUrls(false, p) + t + "(" + u + ")" + WrapUrls(false, q)
  {
    var wp, wq := WrapUrls(false, p), WrapUrls(false, q);
    var rest := t + (u + q);
    WrapUrlsCopies(false, t, u + q);
    WrapUrlsUrlFirst(u, q);
    assert WrapUrls(false, rest) == t + (['('] + u + [')'] + wq);
    assert p + t + u + q == p + rest by {
      AppendAssoc(p, t, u);
      AppendAssoc(p + t, u, q);
      AppendAssoc(p, t, u + q);
    }
    if p != [] {
      WrapUrlsSplit(false, p, rest);
    } else {
      assert p + rest == rest && wp == [];
    }
    GluedTail(wp, t, u, wq);
  }

  lemma GluedTail(wp: string, t: string, u: string, wq: string)
    ensures wp + (t + (['('] + u + [')'] + wq)) == wp + t + "(" + u + ")" + wq
  {
  }

  /** A URL right after a `(` glued to the text before it, as in the
      Markdown link `[text](https://x)`: the lookbehind sees the `(`, so
      the URL token (closing `)` included) is copied unchanged, provided
      no further scheme starts inside it and no match starts in `t(`. */
  lemma GluedParenthesisedUrlIsKept(p: string, t: string, u: string, q: string)
    requires UrlLength(u) == |u| > 0
    requires forall k :: 0 < k < |u| ==> SchemeLength(u[k..]) == 0
    requires p == [] || IsSpace(p[|p| - 1])
    requires NoMatchIn(false, t + "(", u + q)
    requires q == [] || IsSpace(q[0])
    ensures WrapUrls(false, p + t + "(" + u + q) == WrapUrls(false, p) + t + "(" + u + WrapUrls(false, q)
  {
    var wp, wq := WrapUrls(false, p), WrapUrls(false, q);
    var tp := t + "(";
    var rest := tp + (u + q);
    WrapUrlsCopies(false, tp, u + q);
    assert tp[|tp| - 1] == '(';
    WrapUrlsAfterParenUrl(u, q);
    assert WrapUrls(false, rest) == tp + (u + wq);
    assert p + t + "(" + u + q == p + rest by {
      AppendAssoc(p, t, "(");
      AppendAssoc(p + tp, u, q);
      AppendAssoc(p, tp, u + q);
      AppendAssoc(p + t, "(", u);
    }
    if p != [] {
      WrapUrlsSplit(false, p, rest);
    } else {
      assert p + rest == rest && wp == [];
    }
    KeptTail(wp, t, u, wq);
  }

  lemma KeptTail(wp: string, t: string, u: string, wq: string)
    ensures wp + ((t + "(") + (u + wq)) == wp + t + "(" + u + wq
  {
  }

  /** No match can start at a character that is not `h`. */
  lemma NoMatchAfterChar(c: char, v: string)
    requires c != 'h'
    ensures NoMatchIn(false, [c], v)
  {
    assert ([c] + v)[0..][0] == c;
  }

  /** A URL glued to one character other than `(` (such as `<`, `"` or
      `=`) is wrapped whole, the character staying outside. */
  lemma GluedAfterChar(c: char, u: string)
    requires c != 'h' && c != '('
    requires UrlLength(u) == |u| > 0
    ensures WrapUrls(false, [c] + u) == [c, '('] + u + [')']
  {
    NoMatchAfterChar(c, u + []);
    GluedUrlIsWrapped([], [c], u, []);
    assert [] + [c] + u + [] == [c] + u;
    assert WrapUrls(false, []) == [];
  }

  /** `<https://x>` becomes `<(https://x>)`: the URL token runs to the
      whitespace, so the closing `>` ends up inside the parentheses. */
  lemma AngleBracketUrlIsWrapped(u: string)
    requires UrlLength(u) == |u| > 0
    ensures WrapUrls(false, "<" + u) == "<(" + u + ")"
  {
    GluedAfterChar('<', u);
  }

  /** No match can start in a chunk without `h`. */
  lemma NoMatchWithoutH(t: string, v: string)
    requires forall i :: 0 <= i < |t| ==> t[i] != 'h'
    ensures NoMatchIn(false, t, v)
  {
    forall k | 0 <= k < |t|
      ensures SchemeLength((t + v)[k..]) == 0
    {
      assert (t + v)[k..][0] == t[k];
    }
  }

  /** A URL after a `(` glued to a chunk without `h` is kept as it is:
      the Markdown link `[text](https://x)`, with `t` the `[text]` part,
      comes out unchanged. */
  lemma GluedParenAfterChunk(t: string, u: string)
    requires forall i :: 0 <= i < |t| ==> t[i] != 'h'
    requires UrlLength(u) == |u| > 0
    requires forall k :: 0 < k < |u| ==> SchemeLength(u[k..]) == 0
    ensures WrapUrls(false, t + "(" + u) == t + "(" + u
  {
    var tp := t + "(";
    assert forall i :: 0 <= i < |tp| ==> tp[i] != 'h' by {
      assert forall i :: 0 <= i < |t| ==> tp[i] == t[i];
    }
    var v := u + [];
    assert v == u;
    NoMatchWithoutH(tp, v);
    WrapUrlsCopies(false, tp, v);
    assert tp[|tp| - 1] == '(';
    WrapUrlsAfterParenUrl(u, []);
    assert WrapUrls(false, []) == [];
  }

  /** Every `http://` or `https://` in `s` directly follows `(` (or, at the
      front, follows the character the lookbehind sees). */
  predicate UrlsParenthesised(afterParen: bool, s: string) {
    forall k :: 0 <= k < |s| && SchemeLength(s[k..]) > 0 ==>
      if k == 0 then afterParen else s[k - 1] == '('
  }

  /** Pass 2 leaves alone text whose every URL already follows `(`. */
  lemma WrapUrlsFixpoint(afterParen: bool, s: string)
    requires UrlsParenthesised(afterParen, s)
    ensures WrapUrls(afterParen, s) == s
  {
    assert s + [] == s;
    WrapUrlsCopies(afterParen, s, []);
  }

  // ---------------------------------------------------------------------------
  // clean_text

  /** `clean_text(input_text)`; `None` stands for any value that is not a
      `str`, for which the result is "". */
  function CleanText(input: Option<string>): (r: string)
    ensures input.None? ==> r == ""
    ensures r != [] ==> !IsSpace(r[0]) && !IsSpace(r[|r| - 1])
  {
    match input
    case None => ""
    case Some(s) => Strip(CollapseRuns(WrapUrls(false, CollapseRuns(s, NonAscii)), IsSpace))
  }

  /** The text is ASCII, its only whitespace characters are spaces, and no
      two of them are adjacent. */
  predicate Normalised(s: string) {
    && AllAscii(s)
    && (forall i :: 0 <= i < |s| && IsSpace(s[i]) ==> s[i] == ' ')
    && NoAdjacent(s, IsSpace)
  }

  /** Stripping a normalised text keeps it normalised and leaves no
      whitespace at either end. */
  lemma StripNormalised(s: string)
    requires Normalised(s)
    ensures Normalised(Strip(s))
    ensures var r := Strip(s); r != [] ==> !IsSpace(r[0]) && !IsSpace(r[|r| - 1])
  {
    var r := Strip(s);
    var start := LeadingSpaces(s);
    assert forall i :: 0 <= i < |r| ==> r[i] == s[start + i];
  }

  /** Pass 1 leaves only ASCII characters. */
  lemma AsciiAfterPass1(s: string)
    ensures AllAscii(CollapseRuns(s, NonAscii))
  {
    CollapseRunsShape(s, NonAscii);
  }

  /** Pass 2 keeps an ASCII text ASCII. */
  lemma AsciiAfterPass2(s: string)
    requires AllAscii(s)
    ensures AllAscii(WrapUrls(false, s))
  {
    WrapUrlsAscii(false, s);
  }

  /** Pass 3 turns an ASCII text into a normalised one. */
  lemma NormalisedAfterPass3(s: string)
    requires AllAscii(s)
    ensures Normalised(CollapseRuns(s, IsSpace))
  {
    CollapseRunsAscii(s, IsSpace);
    CollapseRunsShape(s, IsSpace);
  }

  /** What `clean_text` promises: the result is "" for a non-string, and
      otherwise ASCII, with single spaces as its only whitespace, and
      without whitespace at either end. */
  lemma CleanTextWellFormed(input: Option<string>)
    ensures input.None? ==> CleanText(input) == ""
    ensures Normalised(CleanText(input))
    ensures var r := CleanText(input); r != [] ==> !IsSpace(r[0]) && !IsSpace(r[|r| - 1])
  {
    if input.Some? {
      var ascii := CollapseRuns(input.value, NonAscii);
      AsciiAfterPass1(input.value);
      AsciiAfterPass2(ascii);
      NormalisedAfterPass3(WrapUrls(false, ascii));
      StripNormalised(CollapseRuns(WrapUrls(false, ascii), IsSpace));
    }
  }

  /** An ASCII text is left as it is by pass 1. */
  lemma AsciiUntouched(s: string)
    requires AllAscii(s)
    ensures CollapseRuns(s, NonAscii) == s
  {
    CollapseRunsFixpoint(s, NonAscii);
  }

  /** Cleaning is idempotent when the cleaned text has no URL that pass 2
      would wrap again: every `http://` or `https://` in it follows `(`. */
  lemma CleanTextIdempotent(s: string)
    requires UrlsParenthesised(false, CleanText(Some(s)))
    ensures CleanText(Some(CleanText(Some(s)))) == CleanText(Some(s))
  {
    var r := CleanText(Some(s));
    CleanTextWellFormed(Some(s));
    AsciiUntouched(r);
    WrapUrlsFixpoint(false, r);
    CollapseRunsFixpoint(r, IsSpace);
    StripUntouched(r);
  }

  /** On an ASCII text whose every URL already follows `(`, cleaning is
      collapsing each whitespace run to one space and stripping the ends. */
  lemma CleanTextParenthesised(s: string)
    requires AllAscii(s)
    requires UrlsParenthesised(false, s)
    ensures CleanText(Some(s)) == Strip(CollapseRuns(s, IsSpace))
  {
    AsciiUntouched(s);
    WrapUrlsFixpoint(false, s);
  }

  lemma Pass1Example(a: char, b: char)
    requires IsAscii(a) && IsAscii(b)
    ensures CollapseRuns([' ', a, '\U{E9}', '\t', ' ', b, ' '], NonAscii) == [' ', a, ' ', '\t', ' ', b, ' ']
  {
    var x, r, y := [' ', a], "\U{E9}", ['\t', ' ', b, ' '];
    assert [' ', a, '\U{E9}', '\t', ' ', b, ' '] == x + r + y;
    CollapseRunsRun(x, r, y, NonAscii);
    assert AllAscii(x) && AllAscii(y) by {
      assert forall i :: 0 <= i < |y| ==> y[i] == '\t' || y[i] == ' ' || y[i] == b;
    }
    AsciiUntouched(x);
    AsciiUntouched(y);
    assert x + " " + y == [' ', a, ' ', '\t', ' ', b, ' '];
  }

  /** Two characters that are not both whitespace, where whitespace is a
      space, are left alone by pass 3. */
  lemma Pass3KeepsPair(c: char, d: char)
    requires !(IsSpace(c) && IsSpace(d))
    requires IsSpace(c) ==> c == ' '
    requires IsSpace(d) ==> d == ' '
    ensures CollapseRuns([c, d], IsSpace) == [c, d]
  {
    var x := [c, d];
    assert forall i :: 0 <= i < |x| ==> x[i] == c || x[i] == d;
    assert NoAdjacent(x, IsSpace);
    CollapseRunsFixpoint(x, IsSpace);
  }

  lemma Pass3Example(a: char, b: char)
    requires !IsSpace(a) && !IsSpace(b)
    ensures CollapseRuns([' ', a, ' ', '\t', ' ', b, ' '], IsSpace) == [' ', a, ' ', b, ' ']
  {
    var x, r, y := [' ', a], " \t ", [b, ' '];
    assert [' ', a, ' ', '\t', ' ', b, ' '] == x + r + y;
    forall i | 0 <= i < |r|
      ensures IsSpace(r[i])
    {
      assert r[i] == ' ' || r[i] == '\t';
    }
    CollapseRunsRun(x, r, y, IsSpace);
    Pass3KeepsPair(' ', a);
    Pass3KeepsPair(b, ' ');
    assert x + " " + y == [' ', a, ' ', b, ' '];
  }

  lemma StripExample(a: char, b: char)
    requires !IsSpace(a) && !IsSpace(b)
    ensures Strip([' ', a, ' ', b, ' ']) == [a, ' ', b]
  {
    var s := [' ', a, ' ', b, ' '];
    assert LeadingSpaces(s[1..]) == 0;
    assert LeadingSpaces(s) == 1;
    assert s[1..] == [a, ' ', b] + [' '];
    assert TrimEnd([a, ' ', b]) == [a, ' ', b];
    assert TrimEnd(s[1..]) == TrimEnd([a, ' ', b]);
  }

  /** Cleaning ` a\u00e9\t b ` for any two ASCII non-whitespace characters
      `a` and `b`: the non-ASCII letter becomes a space, that space and
      the tab and space after it become one space, the single spaces stay,
      and the ends are stripped. */
  lemma CleanTextCollapsesRuns(a: char, b: char)
    requires IsAscii(a) && IsAscii(b) && !IsSpace(a) && !IsSpace(b)
    ensures CleanText(Some([' ', a, '\U{E9}', '\t', ' ', b, ' '])) == [a, ' ', b]
  {
    var pass1 := [' ', a, ' ', '\t', ' ', b, ' '];
    Pass1Example(a, b);
    assert UrlsParenthesised(false, pass1) by {
      assert SchemeLength(pass1) == 0;
      assert forall k :: 0 < k < |pass1| ==> |pass1[k..]| < 7;
    }
    WrapUrlsFixpoint(false, pass1);
    Pass3Example(a, b);
    StripExample(a, b);
  }

  /** A text with no whitespace is its own leading non-whitespace run. */
  lemma {:induction false} NonSpaceRunWhole(s: string)
    requires NoSpaces(s)
    ensures NonSpaceRun(s) == |s|
    decreases |s|
  {
    if s != [] {
      NonSpaceRunWhole(s[1..]);
    }
  }

  /** Text without whitespace at either end is its own `strip()`. */
  lemma StripUntouched(s: string)
    requires s != [] ==> !IsSpace(s[0]) && !IsSpace(s[|s| - 1])
    ensures Strip(s) == s
  {
    assert LeadingSpaces(s) == 0;
    assert s[0..] == s;
    assert TrimEnd(s) == s;
  }

  /** Pass 3 leaves alone text without whitespace. */
  lemma Pass3WithoutSpaces(s: string)
    requires NoSpaces(s)
    ensures CollapseRuns(s, IsSpace) == s
  {
    CollapseRunsFixpoint(s, IsSpace);
  }

  /** On an ASCII text without whitespace only pass 2 has any effect. */
  lemma CleanTextWithoutSpaces(s: string)
    requires AllAscii(s)
    requires NoSpaces(s)
    ensures CleanText(Some(s)) == WrapUrls(false, s)
  {
    var w := WrapUrls(false, s);
    assert CollapseRuns(s, NonAscii) == s by {
      AsciiUntouched(s);
    }
    assert CollapseRuns(w, IsSpace) == w by {
      WrapUrlsNoSpace(false, s);
      Pass3WithoutSpaces(w);
    }
    assert Strip(w) == w by {
      WrapUrlsNoSpace(false, s);
      StripUntouched(w);
    }
  }

  /** A text without whitespace that starts with a scheme and goes on past
      it is one URL, wrapped whole. */
  lemma WrapWholeUrl(u: string)
    requires NoSpaces(u) && 0 < SchemeLength(u) < |u|
    ensures WrapUrls(false, u) == "(" + u + ")"
  {
    NonSpaceRunWhole(u);
    assert UrlLength(u) == |u|;
    assert u[..|u|] == u && u[|u|..] == [];
    assert WrapUrls(false, u) == ['('] + u + [')'] + WrapUrls(u[|u| - 1] == '(', []);
  }

  /** Text with no whitespace that holds no URL match until a final bare
      URL: the text is copied and the URL wrapped. */
  lemma WrapUrlsFinalUrl(v: string, z: string)
    requires NoMatchIn(false, v, z)
    requires v != [] && v[|v| - 1] != '('
    requires NoSpaces(z) && 0 < SchemeLength(z) < |z|
    ensures WrapUrls(false, v + z) == v + ("(" + z + ")")
  {
    WrapUrlsCopies(false, v, z);
    WrapWholeUrl(z);
  }

  /** Cleaning a text of ASCII non-whitespace that is one URL wraps it. */
  lemma CleanTextWrapsBareUrl(u: string)
    requires AllAscii(u) && NoSpaces(u) && 0 < SchemeLength(u) < |u|
    ensures CleanText(Some(u)) == "(" + u + ")"
  {
    CleanTextWithoutSpaces(u);
    WrapWholeUrl(u);
  }

  /** The two halves of `(http://a?u=http://b)` split before the inner URL:
      plain ASCII without whitespace, and no URL match in the first half. */
  lemma InnerUrlExampleHalves()
    ensures AllAscii("(http://a?u=") && NoSpaces("(http://a?u=")
    ensures AllAscii("http://b)") && NoSpaces("http://b)")
    ensures NoMatchIn(false, "(http://a?u=", "http://b)")
  {
    var v, z := "(http://a?u=", "http://b)";
    forall k | 0 <= k < |v| && SchemeLength((v + z)[k..]) > 0
      ensures if k == 0 then false else v[k - 1] == '('
    {
      assert (v + z)[k..][0] == v[k] == 'h';
      assert k == 1;
    }
  }

  /** Cleaning `(http://a?u=http://b)`, the result of cleaning
      `http://a?u=http://b`: the outer URL follows `(` and is kept, the inner
      one follows `=` and is wrapped. */
  lemma CleanTextWrapsInnerUrl()
    ensures CleanText(Some("(http://a?u=http://b)")) == "(http://a?u=(http://b))"
  {
    var v, z := "(http://a?u=", "http://b)";
    assert v + z == "(http://a?u=http://b)";
    assert v + ("(" + z + ")") == "(http://a?u=(http://b))";
    InnerUrlExampleHalves();
    AllAsciiAppend(v, z);
    NoSpacesAppend(v, z);
    WrapUrlsFinalUrl(v, z);
    CleanTextWithoutSpaces(v + z);
  }

  /** Cleaning is not idempotent in general: a URL whose query holds a
      second URL is wrapped whole the first time, and the inner URL, which
      follows `=` and not `(`, is wrapped again the second time. */
  lemma CleanTextNotIdempotent()
    ensures CleanText(Some("http://a?u=http://b")) == "(http://a?u=http://b)"
    ensures CleanText(Some("(http://a?u=http://b)")) == "(http://a?u=(http://b))"
  {
    var x := "http://a?u=http://b";
    assert "(" + x + ")" == "(http://a?u=http://b)";
    CleanTextWrapsBareUrl(x);
    CleanTextWrapsInnerUrl();
  }
}
