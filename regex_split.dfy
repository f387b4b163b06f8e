/** `String.prototype.split` with a regular expression that has one capture
    group, for the three expressions the compiler splits on. JavaScript keeps
    each captured text as an array element of its own, so the pieces alternate:
    literal text at even positions, captured text at odd positions. */
module RegexSplit {
  import opened JsStrings

  /** The three expressions the compiler splits on. */
  datatype Pattern =
    | BraceGroup   // /{({[^{}]+})}/  (lib/domvm-hbs.js:44, 46): captures the inner `{x}` of `{{x}}`
    | QuotedPair   // /([\S]+="[^"]*")/  (lib/domvm-hbs.js:139, 257): captures the whole `key="value"`
    | MustacheRun  // /({{[^{}]+)}}/  (lib/domvm-hbs.js:298): captures `{{x` and drops the closing `}}`

  /** A match starting at some position: where it ends and what it captured. */
  datatype Match = Match(end: nat, capture: string)

  /** The matched text, given what the group captured. */
  function Enclose(pat: Pattern, capture: string): string {
    match pat
    case BraceGroup => "{" + capture + "}"
    case QuotedPair => capture
    case MustacheRun => capture + "}}"
  }

  /** The end of the run of characters other than `{` and `}` starting at `j`. */
  function BraceFreeEnd(s: string, j: nat): (k: nat)
    requires j <= |s|
    decreases |s| - j
    ensures j <= k <= |s|
    ensures forall m :: j <= m < k ==> s[m] != '{' && s[m] != '}'
    ensures k < |s| ==> s[k] == '{' || s[k] == '}'
  {
    if j == |s| || s[j] == '{' || s[j] == '}' then j else BraceFreeEnd(s, j + 1)
  }

  /** `{{` then one or more characters other than braces then `}}`, anchored at
      `q`; the result is the index of the closing `}}`. Because the run may not
      contain braces, no backtracking can change the outcome. */
  function DoubleBraces(s: string, q: nat): (r: Option<nat>)
    requires q <= |s|
    ensures r.Some? ==> (q + 2 < r.value && r.value + 2 <= |s|
      && s[q] == '{' && s[q + 1] == '{' && s[r.value] == '}' && s[r.value + 1] == '}'
      && forall m :: q + 2 <= m < r.value ==> s[m] != '{' && s[m] != '}')
  {
    if q + 2 <= |s| && s[q] == '{' && s[q + 1] == '{' then
      var j := BraceFreeEnd(s, q + 2);
      if j > q + 2 && j + 1 < |s| && s[j] == '}' && s[j + 1] == '}' then Some(j) else None
    else None
  }

  /** The end of the run of non-whitespace characters starting at `j`. */
  function NonSpaceEnd(s: string, j: nat): (k: nat)
    requires j <= |s|
    decreases |s| - j
    ensures j <= k <= |s|
  {
    if j == |s| || IsSpace(s[j]) then j else NonSpaceEnd(s, j + 1)
  }

  /** `[\S]+="[^"]*"` anchored at `q`, where the greedy `[\S]+` first tries to
      end at `k` and then gives back one character at a time: the first `k` at
      which `="` follows and a closing `"` exists wins. */
  function QuotedFrom(s: string, q: nat, k: nat): (r: Option<nat>)
    requires q < k <= |s|
    decreases k
    ensures r.Some? ==> q < r.value <= |s|
  {
    var close := if k + 2 <= |s| then IndexOfFrom(s, "\"", k + 2) else -1;
    if k + 1 < |s| && s[k] == '=' && s[k + 1] == '"' && close >= 0 then Some(close + 1)
    else if k == q + 1 then None
    else QuotedFrom(s, q, k - 1)
  }

  /** The regular expression tried at exactly position `q`. */
  function MatchAt(s: string, pat: Pattern, q: nat): (r: Option<Match>)
    requires q <= |s|
    ensures r.Some? ==> q < r.value.end <= |s|
  {
    match pat
    case BraceGroup =>
      (match DoubleBraces(s, q)
       case None => None
       case Some(j) => Some(Match(j + 2, s[q + 1..j + 1])))
    case MustacheRun =>
      (match DoubleBraces(s, q)
       case None => None
       case Some(j) => Some(Match(j + 2, s[q..j])))
    case QuotedPair =>
      if q < |s| && !IsSpace(s[q]) then
        match QuotedFrom(s, q, NonSpaceEnd(s, q))
        case None => None
        case Some(e) => Some(Match(e, s[q..e]))
      else None
  }

  /** A match consumes exactly the enclosed form of what it captured. */
  lemma MatchEnclose(s: string, pat: Pattern, q: nat)
    requires q <= |s| && MatchAt(s, pat, q).Some?
    ensures s[q..MatchAt(s, pat, q).value.end] == Enclose(pat, MatchAt(s, pat, q).value.capture)
  {
    var m := MatchAt(s, pat, q).value;
    match pat
    case BraceGroup =>
      var j := DoubleBraces(s, q).value;
      assert s[q..j + 2] == [s[q]] + s[q + 1..j + 1] + [s[j + 1]];
    case MustacheRun =>
      var j := DoubleBraces(s, q).value;
      assert s[q..j + 2] == s[q..j] + [s[j], s[j + 1]];
    case QuotedPair =>
  }

  /** What a match captures is no longer than what it consumes. */
  lemma CaptureLength(s: string, pat: Pattern, q: nat)
    requires q <= |s| && MatchAt(s, pat, q).Some?
    ensures |MatchAt(s, pat, q).value.capture| <= MatchAt(s, pat, q).value.end - q
  {
    MatchEnclose(s, pat, q);
  }

  /** `s.search(re) > -1` restricted to positions from `q` on. */
  predicate HasMatchFrom(s: string, pat: Pattern, q: nat)
    requires q <= |s|
    decreases |s| - q
  {
    q < |s| && (MatchAt(s, pat, q).Some? || HasMatchFrom(s, pat, q + 1))
  }

  /** `s.search(re) > -1`. */
  predicate HasMatch(s: string, pat: Pattern) {
    HasMatchFrom(s, pat, 0)
  }

  /** The split loop of ECMAScript: `p` is where the current piece started,
      `q` where the next match is tried. */
  function SplitFrom(s: string, pat: Pattern, p: nat, q: nat): (r: seq<string>)
    requires p <= q <= |s|
    decreases |s| - q
    ensures |r| % 2 == 1
  {
    if q == |s| then [s[p..]]
    else
      var mm := MatchAt(s, pat, q);
      if mm.None? then SplitFrom(s, pat, p, q + 1)
      else [s[p..q], mm.value.capture] + SplitFrom(s, pat, mm.value.end, mm.value.end)
  }

  /** `s.split(re)`. */
  function Split(s: string, pat: Pattern): (r: seq<string>)
    ensures |r| % 2 == 1
  {
    SplitFrom(s, pat, 0, 0)
  }

  /** Putting the pieces back together: each captured piece re-enclosed in
      the text its match consumed. */
  function Rebuild(pat: Pattern, pieces: seq<string>): string
    requires |pieces| % 2 == 1
  {
    if |pieces| == 1 then pieces[0]
    else pieces[0] + Enclose(pat, pieces[1]) + Rebuild(pat, pieces[2..])
  }

  /** One turn of the split loop, as an equation. */
  lemma SplitFromStep(s: string, pat: Pattern, p: nat, q: nat)
    requires p <= q < |s|
    ensures MatchAt(s, pat, q).None? ==> SplitFrom(s, pat, p, q) == SplitFrom(s, pat, p, q + 1)
    ensures MatchAt(s, pat, q).Some? ==> (SplitFrom(s, pat, p, q) ==
      [s[p..q], MatchAt(s, pat, q).value.capture] + SplitFrom(s, pat, MatchAt(s, pat, q).value.end, MatchAt(s, pat, q).value.end))
  {
  }

  lemma RebuildCons(pat: Pattern, a: string, b: string, rest: seq<string>)
    requires |rest| % 2 == 1
    ensures Rebuild(pat, [a, b] + rest) == a + Enclose(pat, b) + Rebuild(pat, rest)
  {
    assert ([a, b] + rest)[2..] == rest;
  }

  lemma SliceThree(s: string, p: nat, q: nat, e: nat)
    requires p <= q <= e <= |s|
    ensures s[p..] == s[p..q] + s[q..e] + s[e..]
  {
  }

  lemma {:induction false} SplitFromRebuild(s: string, pat: Pattern, p: nat, q: nat)
    requires p <= q <= |s|
    ensures Rebuild(pat, SplitFrom(s, pat, p, q)) == s[p..]
    decreases |s| - q
  {
    if q < |s| {
      SplitFromStep(s, pat, p, q);
      var mm := MatchAt(s, pat, q);
      if mm.None? {
        SplitFromRebuild(s, pat, p, q + 1);
      } else {
        var m := mm.value;
        SplitFromRebuild(s, pat, m.end, m.end);
        RebuildCons(pat, s[p..q], m.capture, SplitFrom(s, pat, m.end, m.end));
        MatchEnclose(s, pat, q);
        SliceThree(s, p, q, m.end);
      }
    }
  }

  /** Splitting loses nothing: re-enclosing the captures and concatenating
      the pieces gives the original string. */
  lemma SplitRebuild(s: string, pat: Pattern)
    ensures Rebuild(pat, Split(s, pat)) == s
  {
    SplitFromRebuild(s, pat, 0, 0);
  }

  lemma {:induction false} SplitFromNoMatch(s: string, pat: Pattern, p: nat, q: nat)
    requires p <= q <= |s| && !HasMatchFrom(s, pat, q)
    ensures SplitFrom(s, pat, p, q) == [s[p..]]
    decreases |s| - q
  {
    if q < |s| {
      SplitFromNoMatch(s, pat, p, q + 1);
    }
  }

  lemma ConsAt(a: string, b: string, rest: seq<string>, i: nat)
    requires 2 <= i < |rest| + 2
    ensures ([a, b] + rest)[i] == rest[i - 2]
  {
  }

  lemma {:induction false} SplitFromPieceLength(s: string, pat: Pattern, p: nat, q: nat, i: nat)
    requires p <= q <= |s| && i < |SplitFrom(s, pat, p, q)|
    ensures |SplitFrom(s, pat, p, q)[i]| <= |s| - p
    decreases |s| - q
  {
    if q < |s| {
      SplitFromStep(s, pat, p, q);
      var mm := MatchAt(s, pat, q);
      if mm.None? {
        SplitFromPieceLength(s, pat, p, q + 1, i);
      } else if i >= 2 {
        var rest := SplitFrom(s, pat, mm.value.end, mm.value.end);
        ConsAt(s[p..q], mm.value.capture, rest, i);
        SplitFromPieceLength(s, pat, mm.value.end, mm.value.end, i - 2);
      } else {
        CaptureLength(s, pat, q);
      }
    }
  }

  /** No piece is longer than the string split. */
  lemma SplitPieceLength(s: string, pat: Pattern, x: string)
    requires x in Split(s, pat)
    ensures |x| <= |s|
  {
    var i :| 0 <= i < |Split(s, pat)| && Split(s, pat)[i] == x;
    SplitFromPieceLength(s, pat, 0, 0, i);
  }

  /** Where the expression matches nowhere, `split` returns the whole string
      as its only piece: exactly what the segmenter's other branch builds. */
  lemma SplitNoMatch(s: string, pat: Pattern)
    requires !HasMatch(s, pat)
    ensures Split(s, pat) == [s]
  {
    SplitFromNoMatch(s, pat, 0, 0);
  }

  /** The shape of a brace-group capture. */
  predicate IsBraceCapture(x: string) {
    |x| >= 3 && x[0] == '{' && x[|x| - 1] == '}' && forall m :: 0 < m < |x| - 1 ==> x[m] != '{' && x[m] != '}'
  }

  lemma BraceMatchCapture(s: string, q: nat)
    requires q <= |s| && MatchAt(s, BraceGroup, q).Some?
    ensures IsBraceCapture(MatchAt(s, BraceGroup, q).value.capture)
  {
    var j := DoubleBraces(s, q).value;
    var x := s[q + 1..j + 1];
    assert MatchAt(s, BraceGroup, q).value.capture == x;
    forall k | 0 < k < |x| - 1 ensures x[k] != '{' && x[k] != '}' {
      assert x[k] == s[q + 1 + k];
    }
  }

  lemma {:induction false} SplitFromBraceCaptures(s: string, p: nat, q: nat, i: nat)
    requires p <= q <= |s| && i < |SplitFrom(s, BraceGroup, p, q)| && i % 2 == 1
    ensures IsBraceCapture(SplitFrom(s, BraceGroup, p, q)[i])
    decreases |s| - q
  {
    if q < |s| {
      SplitFromStep(s, BraceGroup, p, q);
      var mm := MatchAt(s, BraceGroup, q);
      if mm.None? {
        SplitFromBraceCaptures(s, p, q + 1, i);
      } else {
        var rest := SplitFrom(s, BraceGroup, mm.value.end, mm.value.end);
        var r := [s[p..q], mm.value.capture] + rest;
        assert SplitFrom(s, BraceGroup, p, q) == r;
        if i >= 2 {
          ConsAt(s[p..q], mm.value.capture, rest, i);
          SplitFromBraceCaptures(s, mm.value.end, mm.value.end, i - 2);
        } else {
          assert r[i] == mm.value.capture;
          BraceMatchCapture(s, q);
        }
      }
    }
  }

  /** Every captured piece of the brace-group split is `{x}` with `x` a
      non-empty run without braces. */
  lemma BraceCaptures(s: string, i: nat)
    requires i < |Split(s, BraceGroup)| && i % 2 == 1
    ensures IsBraceCapture(Split(s, BraceGroup)[i])
  {
    SplitFromBraceCaptures(s, 0, 0, i);
  }

  lemma {:induction false} RebuildQuotedEmpty(pieces: seq<string>)
    requires |pieces| % 2 == 1 && forall i :: 0 <= i < |pieces| ==> pieces[i] == ""
    ensures Rebuild(QuotedPair, pieces) == ""
  {
    if |pieces| > 1 {
      assert pieces[0] == "" && pieces[1] == "";
      var rest := pieces[2..];
      assert forall i :: 0 <= i < |rest| ==> rest[i] == pieces[i + 2];
      RebuildQuotedEmpty(rest);
    }
  }

  /** A non-empty string always leaves at least one non-empty piece behind
      when split on `key="value"` pairs, so `parameters[0]` exists after
      `filter(Boolean)` (lib/domvm-hbs.js:140-141). */
  lemma QuotedSplitHasPiece(s: string)
    requires s != ""
    ensures NonEmpty(Split(s, QuotedPair)) != []
  {
    var pieces := Split(s, QuotedPair);
    SplitRebuild(s, QuotedPair);
    if forall i :: 0 <= i < |pieces| ==> pieces[i] == "" {
      RebuildQuotedEmpty(pieces);
    }
    var i :| 0 <= i < |pieces| && pieces[i] != "";
    assert pieces[i] in NonEmpty(pieces);
  }

  /** A `key="value"` pair needs a double quote. */
  lemma {:induction false} QuotedFromNeedsQuote(s: string, q: nat, k: nat)
    requires q < k <= |s| && '"' !in s
    ensures QuotedFrom(s, q, k).None?
    decreases k
  {
    if k + 1 < |s| {
      assert s[k + 1] in s;
    }
    if k > q + 1 {
      QuotedFromNeedsQuote(s, q, k - 1);
    }
  }

  /** No match from `q` on when no position from `q` on matches. */
  lemma {:induction false} NoMatchFrom(s: string, pat: Pattern, q: nat)
    requires q <= |s|
    requires forall m :: q <= m <= |s| ==> MatchAt(s, pat, m).None?
    ensures !HasMatchFrom(s, pat, q)
    decreases |s| - q
  {
    if q < |s| {
      NoMatchFrom(s, pat, q + 1);
    }
  }

  /** Text without a double quote holds no `key="value"` pair. */
  lemma NoQuoteNoPair(s: string)
    requires '"' !in s
    ensures !HasMatch(s, QuotedPair)
  {
    forall m | 0 <= m <= |s|
      ensures MatchAt(s, QuotedPair, m).None?
    {
      if m < |s| && !IsSpace(s[m]) {
        QuotedFromNeedsQuote(s, m, NonSpaceEnd(s, m));
      }
    }
    NoMatchFrom(s, QuotedPair, 0);
  }

  /** Text without `{` holds no mustache. */
  lemma NoBraceNoMustache(s: string)
    requires '{' !in s
    ensures !HasMatch(s, MustacheRun)
  {
    forall m | 0 <= m <= |s|
      ensures MatchAt(s, MustacheRun, m).None?
    {
      if m < |s| {
        assert s[m] in s;
      }
    }
    NoMatchFrom(s, MustacheRun, 0);
  }

  /** Positions where nothing matches are skipped over. */
  lemma {:induction false} SkipNoMatch(s: string, pat: Pattern, p: nat, q: nat, e: nat)
    requires p <= q <= e <= |s|
    requires forall m :: q <= m < e ==> MatchAt(s, pat, m).None?
    ensures SplitFrom(s, pat, p, q) == SplitFrom(s, pat, p, e)
    decreases e - q
  {
    if q < e {
      SplitFromStep(s, pat, p, q);
      SkipNoMatch(s, pat, p, q + 1, e);
    }
  }

  /** `t{{k}}`, with no braces in `t` or `k`, splits into the text before,
      the captured `{{k` and the empty rest (lib/domvm-hbs.js:298). */
  lemma MustacheSplit(t: string, k: string)
    requires '{' !in t && '}' !in t && k != "" && '{' !in k && '}' !in k
    ensures Split(t + "{{" + k + "}}", MustacheRun) == [t, "{{" + k, ""]
  {
    var s := t + "{{" + k + "}}";
    var q := |t|;
    forall m | 0 <= m < q
      ensures MatchAt(s, MustacheRun, m).None?
    {
      assert s[m] == t[m];
    }
    SkipNoMatch(s, MustacheRun, 0, 0, q);
    MustacheMatch(t, k);
    SplitFromStep(s, MustacheRun, 0, q);
    assert s[|s|..] == "";
    assert SplitFrom(s, MustacheRun, |s|, |s|) == [""];
    assert s[0..q] == t;
  }

  /** The one match in `t{{k}}`: at the end of `t`, up to the end. */
  lemma MustacheMatch(t: string, k: string)
    requires '{' !in t && '}' !in t && k != "" && '{' !in k && '}' !in k
    ensures var s := t + "{{" + k + "}}";
      MatchAt(s, MustacheRun, |t|) == Some(Match(|s|, "{{" + k))
  {
    var s := t + "{{" + k + "}}";
    var q := |t|;
    assert s[q] == '{' && s[q + 1] == '{';
    forall m | q + 2 <= m < q + 2 + |k|
      ensures s[m] != '{' && s[m] != '}'
    {
      assert s[m] == k[m - q - 2];
    }
    assert s[q + 2 + |k|] == '}' && s[q + 3 + |k|] == '}';
    assert BraceFreeEnd(s, q + 2) == q + 2 + |k|;
    assert DoubleBraces(s, q) == Some(q + 2 + |k|);
    assert s[q..q + 2 + |k|] == "{{" + k;
  }
}
