/** The translators from handlebars syntax to JavaScript source text: paths
    (`block2js`), partial calls (`injectPartial`), text with a directive
    (`string2js`), block helpers (`expression2js`) and attribute values
    (`attrs2js`), all from lib/domvm-hbs.js. The only error any of them
    raises is the missing-partial error of `injectPartial`, which propagates
    out of every caller. */
module Translate {
  import opened JsStrings
  import opened RegexSplit

  datatype Error =
    | MissingPartial(name: string)  // lib/domvm-hbs.js:144-145
    | NoRootNode                    // `parse(template)[0]` is undefined (lib/domvm-hbs.js:359)

  datatype Result<+T> = Ok(value: T) | Err(error: Error) {
    predicate IsFailure() {
      Err?
    }

    function PropagateFailure<U>(): Result<U>
      requires Err?
    {
      Err(error)
    }

    function Extract(): T
      requires Ok?
    {
      value
    }
  }

  /** The registry `domvm_hbs.partials`: each partial's compiled source text. */
  type Partials = map<string, string>

  /** The text of the error `injectPartial` throws. */
  function MissingMessage(name: string): string {
    "Partial \"" + name + "\" is missing. Please add it to domvm_hbs.partials."
  }

  /** `if (s.indexOf("''+") == 0) s = s.slice(3)`: drop a leading
      empty-string concatenation. */
  function StripConcat(s: string): string {
    if |s| >= 3 && s[..3] == "''+" then s[3..] else s
  }

  /** `isHandlebarExpression` (lib/domvm-hbs.js:310-312). */
  predicate IsHandlebarExpression(s: string) {
    Contains(s, "{{#") || Contains(s, "{{/")
  }

  /** `isHandlebarBlock` (lib/domvm-hbs.js:319-321). */
  predicate IsHandlebarBlock(s: string) {
    Contains(s, "{{") && Contains(s, "}}")
  }

  // ---------------------------------------------------------------------
  // block2js and injectPartial
  // ---------------------------------------------------------------------

  /** The `pragma` property of the local suffix string that shadows the
      compiler options inside `block2js` (lib/domvm-hbs.js:180, 192): strings
      have no such property, so it is always `undefined`. */
  const ShadowedPragma := "undefined"

  /** `s.replace(/(this).?/, '').replace(/..\//g, 'parent.')`
      (lib/domvm-hbs.js:179). */
  function Sanitise(s: string): string {
    ReplaceParents(RemoveFirstThis(s))
  }

  /** The base key and the property suffix `block2js` cuts a path into, as
      written (lib/domvm-hbs.js:182-186): whether to cut is decided on the
      token before `this` is removed, so the cut can fall at index -1. */
  function CutAsWritten(s: string): (string, string) {
    var sanitised := Sanitise(s);
    var dot := IndexOf(sanitised, ".");
    if Contains(s, ".") && !Contains(s, "..") then (Slice(sanitised, 0, dot), SliceFrom(sanitised, dot))
    else (sanitised, "")
  }

  /** The cut, corrected: made only at a dot the sanitised path still has. */
  function Cut(s: string): (string, string) {
    var sanitised := Sanitise(s);
    var dot := IndexOf(sanitised, ".");
    if Contains(s, ".") && !Contains(s, "..") && dot >= 0 then (sanitised[..dot], sanitised[dot..])
    else (sanitised, "")
  }

  /** A context lookup, or the path itself when it starts with `parent`
      (lib/domvm-hbs.js:193, 197). As written the suffix is dropped in the
      second case; `keepParentSuffix` is the correction. */
  function Lookup(key: string, suffix: string, keepParentSuffix: bool): string {
    if IndexOf(key, "parent") == 0 then (if keepParentSuffix then key + suffix else key)
    else "context['" + key + "']" + suffix
  }

  /** Unescaped HTML: a `div` whose `innerHTML` is the looked-up value, built
      with the pragma of the shadowing suffix string. */
  function RawHtml(lookup: string): string {
    "options." + ShadowedPragma + "('div',{'innerHTML':''+" + lookup + "}, [])"
  }

  /** The emitted text for a cut path: the lookup, wrapped in a `div` with
      `innerHTML` when the key starts with `{` (lib/domvm-hbs.js:189-197). */
  function Emit(key: string, suffix: string, keepParentSuffix: bool): string {
    if First(key) == Some('{') then RawHtml(Lookup(key[1..], suffix, keepParentSuffix))
    else
      "''+" + Lookup(key, suffix, keepParentSuffix)
  }

  /** `block2js` after its first three cases, as written
      (lib/domvm-hbs.js:179-197). */
  function PathJsAsWritten(s: string): string {
    var cut := CutAsWritten(s);
    Emit(cut.0, cut.1, false)
  }

  /** `block2js` after its first three cases, corrected: the cut happens only
      at a dot the sanitised path still has, and `parent` paths keep their
      suffix. The translation uses it only when asked for the corrected
      behaviour. */
  function PathJs(s: string): string {
    var cut := Cut(s);
    Emit(cut.0, cut.1, true)
  }

  /** `block2js` (lib/domvm-hbs.js:175-198). By default paths are translated
      as written; `corrected` selects the corrected path translation, in this
      token and in every token it translates in turn. */
  function Block2Js(s: string, partials: Partials, corrected: bool := false): (r: Result<string>)
    ensures r.Err? ==> First(s) == Some('>') && r.error.MissingPartial?
    decreases |s|, 1
  {
    if s == "this" then Ok("context")
    else if First(s) == Some('@') then Ok("options['" + s + "']")
    else if First(s) == Some('>') then InjectPartial(s, partials, corrected)
    else Ok(if corrected then PathJs(s) else PathJsAsWritten(s))
  }

  /** `parameters` of `injectPartial`: the split on `key="value"` pairs with
      empty pieces dropped. */
  function PartialPieces(s: string): (r: seq<string>)
    requires s != ""
    ensures |r| > 0 && |r[0]| <= |s|
  {
    QuotedSplitHasPiece(s);
    var r := NonEmpty(Split(s, QuotedPair));
    assert r[0] in r;
    SplitPieceLength(s, QuotedPair, r[0]);
    r
  }

  /** `headers`: the words of the first piece after the first. */
  function PartialHeaders(s: string): (r: seq<string>)
    requires s != ""
    ensures forall i :: 0 <= i < |r| ==> |r[i]| + i + 1 <= |s|
  {
    SplitChar(PartialPieces(s)[0], ' ')[1..]
  }

  /** `headers[0]`, which JavaScript turns into the key "undefined" when
      there is no such word. */
  function PartialName(s: string): string
    requires s != ""
  {
    var headers := PartialHeaders(s);
    if |headers| > 0 then headers[0] else "undefined"
  }

  /** The call text `injectPartial` returns (lib/domvm-hbs.js:162-168). */
  function PartialCall(source: string, context: Option<string>, pieces: seq<string>): string {
    var kept := Filter(pieces, (p: string) => Trim(p) != "");
    var params := seq(|kept|, i requires 0 <= i < |kept| => ReplaceFirst(kept[i], "=", ":"));
    source + "(Runtime.merge"
      + (if context.Some? && context.value != "" then "(" + context.value else "(context")
      + (if |params| > 0 then ",{" + Join(params, ",") + "}))" else "))")
  }

  /** `injectPartial` (lib/domvm-hbs.js:138-169). */
  function InjectPartial(s: string, partials: Partials, corrected: bool := false): (r: Result<string>)
    requires s != ""
    ensures r.Err? ==> r.error.MissingPartial?
    ensures PartialName(s) !in partials || partials[PartialName(s)] == "" ==>
              r == Err(MissingPartial(PartialName(s)))
    ensures r.Ok? ==>
              && PartialName(s) in partials
              && |partials[PartialName(s)]| <= |r.value|
              && r.value[..|partials[PartialName(s)]|] == partials[PartialName(s)]
    decreases |s|, 0
  {
    var pieces := PartialPieces(s);
    var headers := PartialHeaders(s);
    var name := PartialName(s);
    if name !in partials || partials[name] == "" then Err(MissingPartial(name))
    else if |headers| > 1 && headers[1] != "" then
      if Contains(headers[1], "=") then
        ContainsChar(headers[1], '=');
        var parameter := SplitChar(headers[1], '=');
        var parsed :- Block2Js(parameter[1], partials, corrected);
        Ok(PartialCall(partials[name], Some("context"), pieces[1..] + [parameter[0] + "=" + StripConcat(parsed)]))
      else
        var context :- Block2Js(headers[1], partials, corrected);
        Ok(PartialCall(partials[name], Some(StripConcat(context)), pieces[1..]))
    else
      Ok(PartialCall(partials[name], None, pieces[1..]))
  }

  // ---------------------------------------------------------------------
  // string2js
  // ---------------------------------------------------------------------

  /** `string2js` (lib/domvm-hbs.js:205-214). */
  function String2Js(s: string, partials: Partials): (r: Result<string>)
    ensures IndexOf(s, "{{") == -1 || IndexOf(s, "}}") == -1 ==> r == Ok("'" + s + "'")
    ensures r.Err? ==> r.error.MissingPartial?
  {
    var open := IndexOf(s, "{{");
    var close := IndexOf(s, "}}");
    var value := Slice(s, open + 2, close);
    if open != -1 && close != -1 then
      var block :- Block2Js(value, partials);
      Ok(if open > 0 then "'" + Slice(s, 0, open) + "'+" + block else block)
    else
      Ok("'" + s + "'")
  }

  // ---------------------------------------------------------------------
  // expression2js
  // ---------------------------------------------------------------------

  /** One hash or positional argument of a block helper
      (lib/domvm-hbs.js:265-283). */
  function ArgumentJs(p: string, partials: Partials, corrected: bool := false): (r: Result<string>)
    ensures r.Err? ==> r.error.MissingPartial?
  {
    if Contains(p, "=") then
      ContainsChar(p, '=');
      TrimKeeps(p, '=');
      ContainsChar(Trim(p), '=');
      var parts := SplitChar(Trim(p), '=');
      var left :- Block2Js(parts[0], partials, corrected);
      var right :-
        if First(parts[1]) != Some('"') && Last(parts[1]) != Some('"') then
          var b :- Block2Js(parts[1], partials, corrected);
          Ok(StripConcat(b))
        else Ok(parts[1]);
      Ok("{ left: " + left + ", right: " + right + " }")
    else
      var b :- Block2Js(Trim(p), partials, corrected);
      Ok(StripConcat(b))
  }

  /** `xs.map(f)` where `f` may throw: the first element that throws ends it
      with that error. */
  function MapResults<T>(xs: seq<T>, f: T -> Result<string>): (r: Result<seq<string>>)
    ensures r.Ok? ==> |r.value| == |xs|
    ensures r.Ok? ==> forall i :: 0 <= i < |xs| ==> f(xs[i]) == Ok(r.value[i])
    ensures r.Err? <==> exists i :: 0 <= i < |xs| && f(xs[i]).Err?
    ensures r.Err? ==> exists i :: 0 <= i < |xs| && f(xs[i]) == Err(r.error)
  {
    if xs == [] then Ok([])
    else
      assert forall i :: 0 < i < |xs| ==> xs[1..][i - 1] == xs[i];
      var head :- f(xs[0]);
      var tail :- MapResults(xs[1..], f);
      Ok([head] + tail)
  }

  /** `map` over the arguments; the first argument that throws ends it. */
  function ArgumentsJs(ps: seq<string>, partials: Partials, corrected: bool := false): (r: Result<seq<string>>)
    ensures r.Ok? ==> |r.value| == |ps|
    ensures r.Ok? ==> forall i :: 0 <= i < |ps| ==> ArgumentJs(ps[i], partials, corrected) == Ok(r.value[i])
    ensures r.Err? <==> exists i :: 0 <= i < |ps| && ArgumentJs(ps[i], partials, corrected).Err?
    ensures r.Err? ==> r.error.MissingPartial?
  {
    MapResults(ps, p => ArgumentJs(p, partials, corrected))
  }

  /** The helper's name and argument list of a sanitised block opening. */
  function HelperName(x: string): string {
    Slice(x, 3, IndexOf(x, " "))
  }

  function HelperArguments(x: string): seq<string> {
    var rest := ReplaceFirst(Substring(x, IndexOf(x, " "), |x|), "}}", "");
    Filter(Split(rest, QuotedPair), IsArgument)
  }

  /** The filter of lib/domvm-hbs.js:258-260: neither empty nor one space. */
  predicate IsArgument(p: string) {
    p != "" && p != " "
  }

  /** The text every block opening ends with. */
  const OpeningTail := " }, function(context, parent, options){return ["

  /** `expression2js` (lib/domvm-hbs.js:242-289). */
  function Expression2Js(e: string, partials: Partials, corrected: bool := false): (r: Result<string>)
    ensures Contains(e, "{{/") ==> r == Ok("]})")
    ensures r.Ok? && !Contains(e, "{{/") ==>
              && |"Runtime."| + |OpeningTail| <= |r.value|
              && r.value[..|"Runtime."|] == "Runtime."
              && r.value[|r.value| - |OpeningTail|..] == OpeningTail
    ensures r.Err? ==> !Contains(e, "{{/") && r.error.MissingPartial?
  {
    if Contains(e, "{{/") then Ok("]})")
    else
      var x := ReplaceParents(RemoveFirstThis(e));
      var args :- ArgumentsJs(HelperArguments(x), partials, corrected);
      Ok("Runtime." + HelperName(x) + "(context, { value: " + Join(args, ",") + OpeningTail)
  }

  // ---------------------------------------------------------------------
  // attrs2js
  // ---------------------------------------------------------------------

  /** One segment of an attribute value (lib/domvm-hbs.js:299-301). */
  function SegmentJs(b: string, partials: Partials): (r: Result<string>)
    ensures r.Err? ==> r.error.MissingPartial?
  {
    if IsHandlebarExpression(b) then Expression2Js(b, partials)
    else if Contains(b, "{{") then Block2Js(SliceFrom(b, 2), partials)
    else Ok("'" + b + "'")
  }

  function SegmentsJs(bs: seq<string>, partials: Partials): (r: Result<seq<string>>)
    ensures r.Ok? ==> |r.value| == |bs|
    ensures r.Ok? ==> forall i :: 0 <= i < |bs| ==> SegmentJs(bs[i], partials) == Ok(r.value[i])
    ensures r.Err? <==> exists i :: 0 <= i < |bs| && SegmentJs(bs[i], partials).Err?
    ensures r.Err? ==> r.error.MissingPartial?
  {
    MapResults(bs, p => SegmentJs(p, partials))
  }

  /** `s.replace(/\+['']*\]/g, "]")`: a `+`, any run of single quotes, and a
      `]` become `]`, scanning left to right. */
  function DropPlusBeforeBracket(s: string): string
    decreases |s|
  {
    if |s| == 0 then ""
    else
      var k := QuoteRunEnd(s, 1);
      if s[0] == '+' && k < |s| && s[k] == ']' then "]" + DropPlusBeforeBracket(s[k + 1..])
      else [s[0]] + DropPlusBeforeBracket(s[1..])
  }

  /** The end of the run of single quotes starting at `j`. */
  function QuoteRunEnd(s: string, j: nat): (k: nat)
    requires j <= |s|
    decreases |s| - j
    ensures j <= k <= |s|
    ensures forall m :: j <= m < k ==> s[m] == '\''
    ensures k < |s| ==> s[k] != '\''
  {
    if j == |s| || s[j] != '\'' then j else QuoteRunEnd(s, j + 1)
  }

  /** The three clean-up replacements of lib/domvm-hbs.js:302. */
  function TidyBrackets(s: string): string {
    DropPlusBeforeBracket(ReplaceAll(ReplaceAll(s, "[+", "["), "[''+", "["))
  }

  /** `attrs2js` (lib/domvm-hbs.js:296-303). */
  function Attrs2Js(a: string, partials: Partials): (r: Result<string>)
    ensures r.Err? ==> r.error.MissingPartial?
  {
    var codes :- SegmentsJs(Split(EscapeQuotes(a), MustacheRun), partials);
    Ok(TidyBrackets(Join(codes, "+")))
  }


  // ---------------------------------------------------------------------
  // Properties of block2js
  // ---------------------------------------------------------------------

  /** A plain key: no dot, no slash, no `this`, not a special token, not
      starting with `parent`. */
  predicate PlainKey(k: string) {
    && k != "" && k != "this"
    && '.' !in k && '/' !in k && !Contains(k, "this")
    && First(k) != Some('{') && First(k) != Some('@') && First(k) != Some('>')
    && IndexOf(k, "parent") != 0
  }

  /** A plain key is neither rewritten nor cut. */
  lemma CutPlainKey(k: string)
    requires PlainKey(k)
    ensures Cut(k) == (k, "") && CutAsWritten(k) == (k, "")
  {
    ReplaceParentsNoSlash(k);
    ContainsChar(k, '.');
  }

  /** `this.` before a dot-free key is removed with its dot, and the dot
      decides the cut as written. */
  lemma ThisDotToken(k: string)
    requires '.' !in k
    ensures RemoveFirstThis("this." + k) == k
    ensures Contains("this." + k, ".") && !Contains("this." + k, "..")
  {
    var s := "this." + k;
    IndexOfZero(s, "this");
    assert s[5..] == k;
    assert OccursAt(s, ".", 4);
    forall j | 0 <= j && j + 2 <= |s|
      ensures !OccursAt(s, "..", j)
    {
      assert s[j..j + 2][0] == s[j] && s[j..j + 2][1] == s[j + 1];
      if j + 1 >= 5 {
        assert s[j + 1] == k[j + 1 - 5];
      } else {
        assert s[j] == "this."[j];
      }
    }
  }

  /** The cut of `this.k`: none once corrected; as written, at index -1. */
  lemma CutThisKey(k: string)
    requires PlainKey(k)
    ensures Cut("this." + k) == (k, "")
    ensures CutAsWritten("this." + k) == (k[..|k| - 1], k[|k| - 1..])
  {
    ThisDotToken(k);
    ReplaceParentsNoSlash(k);
    ContainsChar(k, '.');
    assert Sanitise("this." + k) == k;
  }

  /** As written, a path that starts with `parent` once rewritten and still
      holds a dot is cut at its first dot when the token has a single-dot
      run, and is not cut otherwise (a `../` token); either way the key
      still starts with `parent` and nothing of the path is lost. */
  lemma CutParent(s: string)
    requires IndexOf(Sanitise(s), "parent") == 0 && IndexOf(Sanitise(s), ".") >= 0
    ensures CutAsWritten(s).0 + CutAsWritten(s).1 == Sanitise(s)
    ensures IndexOf(CutAsWritten(s).0, "parent") == 0
    ensures Contains(s, ".") && !Contains(s, "..") ==>
              CutAsWritten(s).0 == Sanitise(s)[..IndexOf(Sanitise(s), ".")]
    ensures !(Contains(s, ".") && !Contains(s, "..")) ==> CutAsWritten(s).0 == Sanitise(s)
  {
    var sanitised := Sanitise(s);
    var dot := IndexOf(sanitised, ".");
    if Contains(s, ".") && !Contains(s, "..") {
      DotAfterParent(sanitised);
      assert sanitised[..dot] + sanitised[dot..] == sanitised;
    }
  }

  /** Corrected, a path that starts with `parent` once rewritten is cut into
      a key that still starts with `parent`, and nothing of it is lost. */
  lemma CutParentCorrected(s: string)
    requires IndexOf(Sanitise(s), "parent") == 0
    ensures Cut(s).0 + Cut(s).1 == Sanitise(s)
    ensures IndexOf(Cut(s).0, "parent") == 0
  {
    var sanitised := Sanitise(s);
    var dot := IndexOf(sanitised, ".");
    if Contains(s, ".") && !Contains(s, "..") && dot >= 0 {
      DotAfterParent(sanitised);
    }
  }

  /** In text that starts with `parent`, the first dot comes after it. */
  lemma DotAfterParent(x: string)
    requires IndexOf(x, "parent") == 0 && IndexOf(x, ".") >= 0
    ensures 6 <= IndexOf(x, ".") && IndexOf(x[..IndexOf(x, ".")], "parent") == 0
  {
    IndexOfZero(x, "parent");
    var dot := IndexOf(x, ".");
    var p := "parent";
    assert x[..6] == p;
    assert x[dot..dot + 1] == ".";
    forall j | 0 <= j < 6
      ensures x[j] != '.'
    {
      assert x[j] == p[j];
    }
    assert x[dot] == '.';
    assert x[..dot][..6] == p;
    IndexOfZero(x[..dot], p);
  }

  /** Emitting a key that is neither raw nor a `parent` path. */
  lemma EmitLookup(key: string, suffix: string, keep: bool)
    requires First(key) != Some('{') && IndexOf(key, "parent") != 0
    ensures Emit(key, suffix, keep) == "''+context['" + key + "']" + suffix
  {
    assert Lookup(key, suffix, keep) == "context['" + key + "']" + suffix;
    assert Emit(key, suffix, keep) == "''+" + Lookup(key, suffix, keep);
    assert "''+" + "context['" == "''+context['";
  }

  /** `this` is the context itself, and an `@` token reads the per-block
      options (lib/domvm-hbs.js:176-177). */
  lemma Block2JsSpecial(s: string, partials: Partials)
    ensures s == "this" ==> Block2Js(s, partials) == Ok("context")
    ensures First(s) == Some('@') ==> Block2Js(s, partials) == Ok("options['" + s + "']")
  {
  }

  /** A plain key is looked up in the context (lib/domvm-hbs.js:197). */
  lemma PlainKeyLookup(k: string, partials: Partials)
    requires PlainKey(k)
    ensures Block2Js(k, partials) == Ok("''+context['" + k + "']")
    ensures PathJsAsWritten(k) == PathJs(k)
  {
    CutPlainKey(k);
    EmitLookup(k, "", true);
    EmitLookup(k, "", false);
    assert "''+context['" + k + "']" + "" == "''+context['" + k + "']";
  }

  /** As written, a path that starts with `parent` once rewritten and holds
      a dot is emitted with no context lookup around it, and with everything
      from its first dot dropped when the token has a single-dot run. */
  lemma ParentPathAsWritten(s: string, partials: Partials)
    requires s != "this" && First(s) != Some('@') && First(s) != Some('>')
    requires IndexOf(Sanitise(s), "parent") == 0 && IndexOf(Sanitise(s), ".") >= 0
    ensures Contains(s, ".") && !Contains(s, "..") ==>
              Block2Js(s, partials) == Ok("''+" + Sanitise(s)[..IndexOf(Sanitise(s), ".")])
    ensures !(Contains(s, ".") && !Contains(s, "..")) ==>
              Block2Js(s, partials) == Ok("''+" + Sanitise(s))
  {
    CutParent(s);
    ParentKeyEmitted(CutAsWritten(s).0, CutAsWritten(s).1);
    Block2JsPath(s, partials, false);
  }

  /** As written, a key that starts with `parent` is emitted without its
      suffix. */
  lemma ParentKeyEmitted(key: string, suffix: string)
    requires IndexOf(key, "parent") == 0
    ensures Emit(key, suffix, false) == "''+" + key
  {
    IndexOfZero(key, "parent");
    assert key[0] == 'p';
  }

  /** Corrected, a path that starts with `parent` once rewritten is emitted
      whole, with no context lookup around it. */
  lemma ParentPathKept(s: string, partials: Partials)
    requires s != "this" && First(s) != Some('@') && First(s) != Some('>')
    requires IndexOf(Sanitise(s), "parent") == 0
    ensures Block2Js(s, partials, true) == Ok("''+" + Sanitise(s))
  {
    CutParentCorrected(s);
    ParentKeyKept(Cut(s).0, Cut(s).1);
    Block2JsPath(s, partials, true);
  }

  /** Corrected, a key that starts with `parent` is emitted with its
      suffix. */
  lemma ParentKeyKept(key: string, suffix: string)
    requires IndexOf(key, "parent") == 0
    ensures Emit(key, suffix, true) == "''+" + (key + suffix)
  {
    IndexOfZero(key, "parent");
    assert key[0] == 'p';
  }

  /** Every token that is not `this`, an `@` token or a partial is a path. */
  lemma Block2JsPath(s: string, partials: Partials, corrected: bool)
    requires s != "this" && First(s) != Some('@') && First(s) != Some('>')
    ensures Block2Js(s, partials, corrected) ==
      Ok(if corrected then PathJs(s) else PathJsAsWritten(s))
  {
  }

  /** Corrected, `this.k` reads the same as `k`. */
  lemma ThisPrefixDropped(k: string, partials: Partials)
    requires PlainKey(k)
    ensures Block2Js("this." + k, partials, true) == Block2Js(k, partials, true)
  {
    var s := "this." + k;
    CutThisKey(k);
    CutPlainKey(k);
    assert PathJs(s) == PathJs(k);
    assert s[0] == 't';
    Block2JsPath(s, partials, true);
    Block2JsPath(k, partials, true);
  }

  /** A triple-stash key `{k` renders unescaped HTML through a `div` with
      `innerHTML`, under the pragma of the shadowing suffix string. */
  lemma RawHtmlBranch(k: string, partials: Partials)
    requires PlainKey(k)
    ensures Block2Js("{" + k, partials) == Ok(RawHtml("context['" + k + "']"))
  {
    var s := "{" + k;
    assert s[0] == '{' && s[1..] == k;
    assert Cut(s) == (s, "") by {
      assert s == ['{'] + k;
      ContainsCons('{', k, "this");
      ContainsChar(s, '.');
      SanitiseIdentity(s);
    }
    assert CutAsWritten(s) == (s, "");
    assert Lookup(k, "", false) == "context['" + k + "']" by {
      assert "context['" + k + "']" + "" == "context['" + k + "']";
    }
    Block2JsPath(s, partials, false);
  }

  /** As written, `this.k` loses the last character of `k` to a cut at -1,
      which then trails the lookup. */
  lemma ThisDotAsWritten(k: string, partials: Partials)
    requires PlainKey(k)
    ensures Block2Js("this." + k, partials) ==
      Ok("''+context['" + k[..|k| - 1] + "']" + k[|k| - 1..])
  {
    assert ("this." + k)[0] == 't';
    Block2JsPath("this." + k, partials, false);
    ThisDotPath(k);
  }

  lemma ThisDotPath(k: string)
    requires PlainKey(k)
    ensures PathJsAsWritten("this." + k) ==
      "''+context['" + k[..|k| - 1] + "']" + k[|k| - 1..]
  {
    CutThisKey(k);
    var key := k[..|k| - 1];
    if IndexOf(key, "parent") == 0 {
      IndexOfZeroPrefix(k, |k| - 1, "parent");
    }
    assert |key| > 0 ==> key[0] == k[0];
    EmitLookup(key, k[|k| - 1..], false);
  }

  /** Text without a slash or `this` is left alone by sanitising. */
  lemma SanitiseIdentity(s: string)
    requires '/' !in s && !Contains(s, "this")
    ensures Sanitise(s) == s
  {
    ReplaceParentsNoSlash(s);
  }

  /** The cut as written, when the token has a single-dot run and the
      sanitised path has a dot. */
  lemma CutAsWrittenAt(s: string)
    requires Contains(s, ".") && !Contains(s, "..") && IndexOf(Sanitise(s), ".") >= 0
    ensures CutAsWritten(s) ==
      (Sanitise(s)[..IndexOf(Sanitise(s), ".")], Sanitise(s)[IndexOf(Sanitise(s), ".")..])
  {
  }

  /** `parent.k` for a dot-free, slash-free `k` without `this`: as written
      the cut at the dot loses `.k`. `{{#each ../k}}` hands exactly this
      token to `block2js` (see `ParentBlockArgument`). */
  lemma ParentSuffixAsWritten(k: string, partials: Partials)
    requires '.' !in k && '/' !in k && !Contains("parent." + k, "this")
    ensures Block2Js("parent." + k, partials) == Ok("''+parent")
  {
    assert ("parent." + k)[0] == 'p';
    Block2JsPath("parent." + k, partials, false);
    ParentSuffixPath(k);
  }

  lemma ParentSuffixPath(k: string)
    requires '.' !in k && '/' !in k && !Contains("parent." + k, "this")
    ensures PathJsAsWritten("parent." + k) == "''+parent"
  {
    var s := "parent." + k;
    SanitiseIdentity(s);
    ParentDotFacts(k);
    CutAsWrittenAt(s);
    assert s[..6] == "parent";
    IndexOfZero("parent", "parent");
  }

  /** Corrected, `parent.k` is emitted whole. */
  lemma ParentSuffixKept(k: string, partials: Partials)
    requires '.' !in k && '/' !in k && !Contains("parent." + k, "this")
    ensures Block2Js("parent." + k, partials, true) == Ok("''+" + ("parent." + k))
  {
    var s := "parent." + k;
    SanitiseIdentity(s);
    ParentDotFacts(k);
    ParentPathKept(s, partials);
  }

  /** Where the dots of `parent.k` are. */
  lemma ParentDotFacts(k: string)
    requires '.' !in k
    ensures IndexOf("parent." + k, ".") == 6
    ensures !Contains("parent." + k, "..")
    ensures IndexOf("parent." + k, "parent") == 0
  {
    var s := "parent." + k;
    IndexOfChar(s, '.', 6);
    forall j | 0 <= j && j + 2 <= |s|
      ensures !OccursAt(s, "..", j)
    {
      assert s[j..j + 2][0] == s[j] && s[j..j + 2][1] == s[j + 1];
      if j >= 6 {
        assert s[j + 1] == k[j + 1 - 7];
      }
    }
    assert s[..6] == "parent";
    IndexOfZero(s, "parent");
  }

  // ---------------------------------------------------------------------
  // Properties of injectPartial
  // ---------------------------------------------------------------------

  /** A partial that is not registered, or whose source is empty and so
      falsy, is an error that names it (lib/domvm-hbs.js:144-145). */
  lemma MissingPartialThrows(s: string, partials: Partials)
    requires First(s) == Some('>')
    requires PartialName(s) !in partials || partials[PartialName(s)] == ""
    ensures Block2Js(s, partials) == Err(MissingPartial(PartialName(s)))
  {
  }

  /** The thrown message names the missing partial. */
  lemma MissingMessageNames(name: string)
    ensures Contains(MissingMessage(name), name)
  {
    var m := MissingMessage(name);
    assert m[9..9 + |name|] == name;
    assert OccursAt(m, name, 9);
  }

  /** `code` starts with the partial's source applied to `Runtime.merge(`. */
  predicate CallsSource(code: string, source: string) {
    |code| > |source| + 15 && code[..|source| + 15] == source + "(Runtime.merge("
  }

  /** Every partial call starts with the partial's source applied to a
      merged context. */
  lemma PartialCallPrefix(source: string, context: Option<string>, pieces: seq<string>)
    ensures CallsSource(PartialCall(source, context, pieces), source)
  {
    var r := PartialCall(source, context, pieces);
    var head := source + "(Runtime.merge";
    var ctx := if context.Some? && context.value != "" then "(" + context.value else "(context";
    var tail := r[|head| + |ctx|..];
    assert r == head + ctx + tail;
    assert ctx[0] == '(';
    assert r[..|source| + 15] == head + [ctx[0]];
  }

  /** A partial that translates is a registered one with a non-empty source,
      and its code calls that source on a merged context
      (lib/domvm-hbs.js:168). */
  lemma InjectPartialFound(s: string, partials: Partials)
    requires s != "" && InjectPartial(s, partials).Ok?
    ensures PartialName(s) in partials && partials[PartialName(s)] != ""
    ensures CallsSource(InjectPartial(s, partials).value, partials[PartialName(s)])
  {
    var pieces := PartialPieces(s);
    var headers := PartialHeaders(s);
    var name := PartialName(s);
    if |headers| > 1 && headers[1] != "" {
      if Contains(headers[1], "=") {
        ContainsChar(headers[1], '=');
        var parameter := SplitChar(headers[1], '=');
        var parsed := Block2Js(parameter[1], partials).value;
        PartialCallPrefix(partials[name], Some("context"), pieces[1..] + [parameter[0] + "=" + StripConcat(parsed)]);
      } else {
        var context := Block2Js(headers[1], partials).value;
        PartialCallPrefix(partials[name], Some(StripConcat(context)), pieces[1..]);
      }
    } else {
      PartialCallPrefix(partials[name], None, pieces[1..]);
    }
  }

  /** The same, for a `>` token handed to `block2js`. */
  lemma PartialFound(s: string, partials: Partials)
    requires First(s) == Some('>') && Block2Js(s, partials).Ok?
    ensures PartialName(s) in partials && partials[PartialName(s)] != ""
    ensures CallsSource(Block2Js(s, partials).value, partials[PartialName(s)])
  {
    InjectPartialFound(s, partials);
  }

  /** The words of `> name` and of `> name context`, when the name and the
      context hold no space and the token no double quote. */
  lemma PartialWords(name: string, context: Option<string>)
    requires ' ' !in name && (context.Some? ==> ' ' !in context.value)
    requires '"' !in PartialToken(name, context)
    ensures PartialPieces(PartialToken(name, context)) == [PartialToken(name, context)]
    ensures PartialHeaders(PartialToken(name, context)) ==
      if context.Some? then [name, context.value] else [name]
  {
    var s := PartialToken(name, context);
    NoQuoteNoPair(s);
    SplitNoMatch(s, QuotedPair);
    assert NonEmpty([s]) == [s];
    var rest := if context.Some? then name + " " + context.value else name;
    assert s == ">" + [' '] + rest;
    SplitCharAt(">", ' ', rest);
    if context.Some? {
      assert rest == name + [' '] + context.value;
      SplitCharAt(name, ' ', context.value);
      SplitCharAbsent(context.value, ' ');
    } else {
      SplitCharAbsent(name, ' ');
    }
  }

  /** `> name`, or `> name context`. */
  function PartialToken(name: string, context: Option<string>): string {
    if context.Some? then "> " + name + " " + context.value else "> " + name
  }

  /** A partial call with no hash parameters. */
  lemma PartialCallNoPieces(source: string, context: Option<string>)
    ensures PartialCall(source, context, []) == source + "(Runtime.merge(" +
      (if context.Some? && context.value != "" then context.value else "context") + "))"
  {
    var kept := Filter([], (p: string) => Trim(p) != "");
    assert |kept| == 0;
    var c := if context.Some? && context.value != "" then context.value else "context";
    assert PartialCall(source, context, []) == source + "(Runtime.merge" + ("(" + c) + "))";
    MergeCallRegrouped(source, c);
  }

  /** The call text read as the partial, the merge and its one argument. */
  lemma MergeCallRegrouped(source: string, c: string)
    ensures source + "(Runtime.merge" + ("(" + c) + "))" == source + "(Runtime.merge(" + c + "))"
  {
    assert "(Runtime.merge" + "(" == "(Runtime.merge(";
  }

  /** `{{> name}}` calls the partial on the current context. */
  lemma SimplePartial(name: string, partials: Partials)
    requires ' ' !in name && '"' !in name && name in partials && partials[name] != ""
    ensures Block2Js("> " + name, partials) == Ok(partials[name] + "(Runtime.merge(context))")
  {
    var s := "> " + name;
    assert s != "this" by { assert s[0] == '>'; }
    assert First(s) == Some('>');
    assert Block2Js(s, partials) == InjectPartial(s, partials);
    SimplePartialInjected(name, partials);
    PartialCallOnContext(partials[name]);
  }

  /** Without a context argument or parameters the call merges `context`. */
  lemma PartialCallOnContext(source: string)
    ensures PartialCall(source, None, []) == source + "(Runtime.merge(context))"
  {
    PartialCallNoPieces(source, None);
    assert "(Runtime.merge(" + "context" + "))" == "(Runtime.merge(context))";
    assert source + "(Runtime.merge(" + "context" + "))" == source + ("(Runtime.merge(" + "context" + "))");
  }

  /** The token of `{{> name}}` names the partial and passes nothing else. */
  lemma SimplePartialInjected(name: string, partials: Partials)
    requires ' ' !in name && '"' !in name && name in partials && partials[name] != ""
    ensures InjectPartial(PartialToken(name, None), partials) == Ok(PartialCall(partials[name], None, []))
  {
    var s := PartialToken(name, None);
    assert s == "> " + name;
    assert forall m :: 0 <= m < |s| ==> s[m] != '"' by {
      forall m | 0 <= m < |s| ensures s[m] != '"' {
        if m >= 2 { assert s[m] == name[m - 2]; }
      }
    }
    PartialWords(name, None);
    assert PartialPieces(s)[1..] == [];
    assert PartialName(s) == name;
  }

  /** `{{> name ctx}}` calls the partial on the translation of `ctx`, its
      leading empty-string concatenation dropped; an error there is the
      error of the whole partial. */
  lemma PartialWithContext(name: string, ctx: string, partials: Partials)
    requires ' ' !in name && '"' !in name && name in partials && partials[name] != ""
    requires ctx != "" && ' ' !in ctx && '"' !in ctx && '=' !in ctx
    ensures Block2Js(ctx, partials).Err? ==>
      Block2Js(PartialToken(name, Some(ctx)), partials) == Err(Block2Js(ctx, partials).error)
    ensures Block2Js(ctx, partials).Ok? && StripConcat(Block2Js(ctx, partials).value) != "" ==>
      Block2Js(PartialToken(name, Some(ctx)), partials) ==
        Ok(partials[name] + "(Runtime.merge(" + StripConcat(Block2Js(ctx, partials).value) + "))")
  {
    var s := PartialToken(name, Some(ctx));
    assert s == "> " + name + " " + ctx && s[0] == '>';
    assert forall m :: 0 <= m < |s| ==> s[m] != '"' by {
      forall m | 0 <= m < |s| ensures s[m] != '"' {
        if 2 <= m < 2 + |name| { assert s[m] == name[m - 2]; }
        else if m > 2 + |name| { assert s[m] == ctx[m - 3 - |name|]; }
      }
    }
    PartialWords(name, Some(ctx));
    assert PartialPieces(s)[1..] == [];
    var headers := PartialHeaders(s);
    assert PartialName(s) == name && |headers| == 2 && headers[1] == ctx;
    ContainsChar(ctx, '=');
    if Block2Js(ctx, partials).Ok? {
      var c := StripConcat(Block2Js(ctx, partials).value);
      assert InjectPartial(s, partials) == Ok(PartialCall(partials[name], Some(c), []));
      PartialCallNoPieces(partials[name], Some(c));
    }
  }

  // ---------------------------------------------------------------------
  // Properties of string2js
  // ---------------------------------------------------------------------

  /** Text without a complete `{{…}}` is quoted as it is
      (lib/domvm-hbs.js:213). */
  lemma String2JsPlain(s: string, partials: Partials)
    requires !IsHandlebarBlock(s)
    ensures String2Js(s, partials) == Ok("'" + s + "'")
  {
  }

  /** `t{{k` holds no `}` when neither `t` nor `k` does. */
  lemma OpeningHasNoClose(t: string, k: string)
    requires '}' !in t && '}' !in k
    ensures '}' !in t + "{{" + k
  {
    var head := t + "{{" + k;
    forall m | 0 <= m < |head| ensures head[m] != '}' {
      if m < |t| { assert head[m] == t[m]; }
      else if m >= |t| + 2 { assert head[m] == k[m - |t| - 2]; }
    }
  }

  /** Where `string2js` finds the first directive of `t{{k}}rest`. */
  lemma DirectiveBounds(t: string, k: string, rest: string)
    requires '{' !in t && '}' !in t && '}' !in k
    ensures var s := t + "{{" + k + "}}" + rest;
      && IndexOf(s, "{{") == |t| && IndexOf(s, "}}") == |t| + 2 + |k|
      && Slice(s, |t| + 2, |t| + 2 + |k|) == k && Slice(s, 0, |t|) == t
  {
    var s := t + "{{" + k + "}}" + rest;
    var head := t + "{{" + k;
    assert IndexOf(s, "{{") == |t| by {
      assert s == t + "{{" + (k + "}}" + rest);
      IndexOfFirstChar(t, "{{", k + "}}" + rest);
    }
    assert IndexOf(s, "}}") == |head| by {
      OpeningHasNoClose(t, k);
      IndexOfFirstChar(head, "}}", rest);
    }
    assert s[|t| + 2..|head|] == k;
    assert s[..|t|] == t;
  }

  /** Text before a directive is quoted and concatenated with the directive's
      translation; whatever follows the first `}}` is dropped
      (lib/domvm-hbs.js:205-212). */
  lemma String2JsDirective(t: string, k: string, rest: string, partials: Partials)
    requires '{' !in t && '}' !in t && '}' !in k
    ensures String2Js(t + "{{" + k + "}}" + rest, partials) ==
      match Block2Js(k, partials)
      case Err(e) => Err(e)
      case Ok(b) => Ok(if t == "" then b else "'" + t + "'+" + b)
  {
    var s := t + "{{" + k + "}}" + rest;
    DirectiveBounds(t, k, rest);
    String2JsFound(s, |t|, |t| + 2 + |k|, t, k, partials);
  }

  /** With both delimiters found, the translation is that of the text between
      them, preceded by the quoted text before the `{{` if there is any. */
  lemma String2JsFound(s: string, open: nat, close: nat, before: string, value: string, partials: Partials)
    requires IndexOf(s, "{{") == open && IndexOf(s, "}}") == close
    requires Slice(s, 0, open) == before && Slice(s, open + 2, close) == value
    requires |before| == open
    ensures String2Js(s, partials) ==
      match Block2Js(value, partials)
      case Err(e) => Err(e)
      case Ok(b) => Ok(if before == "" then b else "'" + before + "'+" + b)
  {
    var r := Block2Js(value, partials);
    if r.Ok? {
      assert (open > 0) == (before != "");
    }
  }

  // ---------------------------------------------------------------------
  // Properties of expression2js
  // ---------------------------------------------------------------------

  /** Every closing block ends the children array, the callback and the
      helper call (lib/domvm-hbs.js:244-245). */
  lemma ClosingBlock(e: string, partials: Partials)
    requires Contains(e, "{{/")
    ensures Expression2Js(e, partials) == Ok("]})")
  {
  }

  /** `{{#h` holds no space when `h` does not. */
  lemma OpeningHasNoSpace(h: string)
    requires ' ' !in h
    ensures ' ' !in "{{#" + h
  {
    var a := "{{#" + h;
    forall m | 0 <= m < |a| ensures a[m] != ' ' {
      if m >= 3 { assert a[m] == h[m - 3]; }
    }
  }

  /** `" " + p` holds a character exactly when `p` does, for any other than
      the space. */
  lemma PaddedLacks(p: string, c: char)
    requires c != ' ' && c !in p
    ensures c !in " " + p
  {
    var arg := " " + p;
    forall m | 0 <= m < |arg| ensures arg[m] != c {
      if m >= 1 { assert arg[m] == p[m - 1]; }
    }
  }

  /** The argument list after the helper name: the closing `}}` removed, a
      single quote-free word kept. */
  lemma ArgumentList(arg: string)
    requires '}' !in arg && '"' !in arg && arg != "" && arg != " "
    ensures Filter(Split(ReplaceFirst(arg + "}}", "}}", ""), QuotedPair), IsArgument) == [arg]
  {
    assert arg + "}}" == arg + "}}" + "";
    IndexOfFirstChar(arg, "}}", "");
    assert (arg + "}}")[..|arg|] + "" + (arg + "}}")[|arg| + 2..] == arg;
    NoQuoteNoPair(arg);
    SplitNoMatch(arg, QuotedPair);
    assert [arg][1..] == [];
  }

  /** The helper name and the argument list of `{{#h p}}` for a one-word
      argument. */
  lemma OpeningParts(h: string, p: string)
    requires ' ' !in h && p != "" && '"' !in p && '}' !in p
    ensures HelperName("{{#" + h + " " + p + "}}") == h
    ensures HelperArguments("{{#" + h + " " + p + "}}") == [" " + p]
  {
    var x := "{{#" + h + " " + p + "}}";
    var a := "{{#" + h;
    OpeningHasNoSpace(h);
    assert x == a + " " + (p + "}}");
    IndexOfFirstChar(a, " ", p + "}}");
    assert x[3..|a|] == h;
    var arg := " " + p;
    assert x[|a|..|x|] == arg + "}}";
    assert Substring(x, |a|, |x|) == arg + "}}";
    PaddedLacks(p, '}');
    PaddedLacks(p, '"');
    ArgumentList(arg);
  }

  /** A block opening with one argument: the runtime helper of that name is
      called with the argument's translation as its value and a callback
      that opens the children array (lib/domvm-hbs.js:286-288); an error
      in the argument is the error of the whole opening. */
  lemma OpeningBlock(e: string, h: string, p: string, partials: Partials, corrected: bool)
    requires !Contains(e, "{{/") && Sanitise(e) == "{{#" + h + " " + p + "}}"
    requires ' ' !in h && p != "" && '"' !in p && '}' !in p
    ensures Expression2Js(e, partials, corrected) ==
      match ArgumentJs(" " + p, partials, corrected)
      case Err(err) => Err(err)
      case Ok(a) => Ok("Runtime." + h + "(context, { value: " + a + OpeningTail)
  {
    OpeningParts(h, p);
    var args := ArgumentsJs([" " + p], partials, corrected);
    if args.Ok? {
      assert Join(args.value, ",") == args.value[0];
    }
  }

  /** A character `s` lacks is lacking from `"prefix" + s` too, for a
      prefix without it. */
  lemma PrefixedLacks(prefix: string, s: string, c: char)
    requires c !in prefix && c !in s
    ensures c !in prefix + s
  {
    var t := prefix + s;
    forall m | 0 <= m < |t| ensures t[m] != c {
      if m < |prefix| { assert t[m] == prefix[m]; } else { assert t[m] == s[m - |prefix|]; }
    }
  }

  /** `{{#h ../k}}` is sanitised to `{{#h parent.k}}`. */
  lemma SanitiseParentBlock(h: string, k: string)
    requires '/' !in h && '/' !in k
    requires !Contains("{{#" + h + " ../" + k + "}}", "this")
    ensures Sanitise("{{#" + h + " ../" + k + "}}") == "{{#" + h + " " + ("parent." + k) + "}}"
  {
    var e := "{{#" + h + " ../" + k + "}}";
    var x := "{{#" + h + " ";
    var tail := k + "}}";
    assert e == x + (['.', '.', '/'] + tail);
    PrefixedLacks("{{#", h, '/');
    PrefixedLacks("{{#" + h, " ", '/');
    ReplaceParentsAfter(x, ['.', '.', '/'] + tail);
    ReplaceParentsStep('.', '.', tail);
    PrefixedLacks(k, "}}", '/');
    ReplaceParentsNoSlash(tail);
  }

  /** An argument without `=` is a path, its leading empty-string
      concatenation dropped (lib/domvm-hbs.js:279-282). */
  lemma PositionalArgument(arg: string, partials: Partials, corrected: bool)
    requires '=' !in arg
    ensures ArgumentJs(arg, partials, corrected) ==
      match Block2Js(Trim(arg), partials, corrected)
      case Err(e) => Err(e)
      case Ok(b) => Ok(StripConcat(b))
  {
    ContainsChar(arg, '=');
    assert !Contains(arg, "=");
    var r := Block2Js(Trim(arg), partials, corrected);
    if r.Err? {
      assert ArgumentJs(arg, partials, corrected) == Err(r.error);
    } else {
      assert ArgumentJs(arg, partials, corrected) == Ok(StripConcat(r.value));
    }
  }

  /** `StripConcat` undoes a leading `''+`. */
  lemma StripConcatPrefix(x: string)
    ensures StripConcat("''+" + x) == x
  {
    assert ("''+" + x)[..3] == "''+" && ("''+" + x)[3..] == x;
  }

  /** A one-word argument without `=` after the helper name's space is
      translated as the path it names. */
  lemma WordArgument(p: string, partials: Partials, corrected: bool)
    requires p != "" && '=' !in p && !IsSpace(p[0]) && !IsSpace(p[|p| - 1])
    ensures ArgumentJs(" " + p, partials, corrected) ==
      match Block2Js(p, partials, corrected)
      case Err(e) => Err(e)
      case Ok(b) => Ok(StripConcat(b))
  {
    PaddedLacks(p, '=');
    PositionalArgument(" " + p, partials, corrected);
    TrimPadded(p);
  }

  /** A one-word argument that translates to a concatenated expression is
      passed as that expression. */
  lemma ConcatArgument(p: string, v: string, partials: Partials, corrected: bool)
    requires p != "" && '=' !in p && !IsSpace(p[0]) && !IsSpace(p[|p| - 1])
    requires Block2Js(p, partials, corrected) == Ok("''+" + v)
    ensures ArgumentJs(" " + p, partials, corrected) == Ok(v)
  {
    WordArgument(p, partials, corrected);
    StripConcatPrefix(v);
  }

  /** The characters of `parent.k` that matter to an argument list. */
  lemma ParentWord(k: string)
    requires k != "" && '"' !in k && '}' !in k && '=' !in k && !IsSpace(k[|k| - 1])
    ensures var p := "parent." + k;
      '"' !in p && '}' !in p && '=' !in p && !IsSpace(p[0]) && !IsSpace(p[|p| - 1])
  {
    var p := "parent." + k;
    PrefixedLacks("parent.", k, '"');
    PrefixedLacks("parent.", k, '}');
    PrefixedLacks("parent.", k, '=');
    assert p[0] == 'p' && p[|p| - 1] == k[|k| - 1];
  }

  /** `{{#h ../k}}`, as in `{{#each ../items}}`, as written: the helper
      receives the parent scope itself, not its `k`, because the argument
      `parent.k` loses its suffix (see `ParentSuffixAsWritten`). */
  lemma ParentBlockArgumentAsWritten(h: string, k: string, partials: Partials)
    requires ' ' !in h && '/' !in h
    requires k != "" && '.' !in k && '/' !in k && '"' !in k && '}' !in k && '=' !in k
    requires !IsSpace(k[|k| - 1]) && !Contains("parent." + k, "this")
    requires !Contains("{{#" + h + " ../" + k + "}}", "this")
    requires !Contains("{{#" + h + " ../" + k + "}}", "{{/")
    ensures Expression2Js("{{#" + h + " ../" + k + "}}", partials) ==
      Ok("Runtime." + h + "(context, { value: parent" + OpeningTail)
  {
    var e := "{{#" + h + " ../" + k + "}}";
    var p := "parent." + k;
    SanitiseParentBlock(h, k);
    ParentWord(k);
    OpeningBlock(e, h, p, partials, false);
    ParentSuffixAsWritten(k, partials);
    ParentLiterals(h);
    ConcatArgument(p, "parent", partials, false);
  }

  lemma ParentLiterals(h: string)
    ensures "''+parent" == "''+" + "parent"
    ensures "Runtime." + h + "(context, { value: " + "parent" + OpeningTail
      == "Runtime." + h + "(context, { value: parent" + OpeningTail
  {
    assert "(context, { value: " + "parent" == "(context, { value: parent";
  }

  /** `{{#h ../k}}`, corrected: the helper receives the parent scope's `k`. */
  lemma ParentBlockArgument(h: string, k: string, partials: Partials)
    requires ' ' !in h && '/' !in h
    requires k != "" && '.' !in k && '/' !in k && '"' !in k && '}' !in k && '=' !in k
    requires !IsSpace(k[|k| - 1]) && !Contains("parent." + k, "this")
    requires !Contains("{{#" + h + " ../" + k + "}}", "this")
    requires !Contains("{{#" + h + " ../" + k + "}}", "{{/")
    ensures Expression2Js("{{#" + h + " ../" + k + "}}", partials, true) ==
      Ok("Runtime." + h + "(context, { value: " + ("parent." + k) + OpeningTail)
  {
    var e := "{{#" + h + " ../" + k + "}}";
    var p := "parent." + k;
    SanitiseParentBlock(h, k);
    ParentWord(k);
    OpeningBlock(e, h, p, partials, true);
    ParentSuffixKept(k, partials);
    ConcatArgument(p, p, partials, true);
  }

  // ---------------------------------------------------------------------
  // Properties of attrs2js
  // ---------------------------------------------------------------------

  /** Without a `]` there is nothing for the `+'…]` clean-up to remove. */
  lemma {:induction false} DropPlusNoBracket(s: string)
    requires ']' !in s
    ensures DropPlusBeforeBracket(s) == s
    decreases |s|
  {
    if |s| > 0 {
      var k := QuoteRunEnd(s, 1);
      if k < |s| {
        assert s[k] in s;
      }
      DropPlusNoBracket(s[1..]);
      assert s == [s[0]] + s[1..];
    }
  }

  /** Where the clean-up fires: a `+`, a run of single quotes and a `]`
      become the `]` alone, and the scan goes on after it. */
  lemma DropPlusFires(q: string, y: string)
    requires forall m :: 0 <= m < |q| ==> q[m] == '\''
    ensures DropPlusBeforeBracket("+" + q + "]" + y) == "]" + DropPlusBeforeBracket(y)
  {
    var s := "+" + q + "]" + y;
    forall m | 1 <= m < |q| + 1
      ensures s[m] == '\''
    {
      assert s[m] == q[m - 1];
    }
    QuoteRunEndAt(s, 1, |q| + 1);
    assert s[|q| + 1] == ']';
    assert s[|q| + 2..] == y;
  }

  /** The end of a quote run that stops at `k`. */
  lemma {:induction false} QuoteRunEndAt(s: string, j: nat, k: nat)
    requires j <= k < |s| && s[k] != '\''
    requires forall m :: j <= m < k ==> s[m] == '\''
    ensures QuoteRunEnd(s, j) == k
    decreases k - j
  {
    if j < k {
      QuoteRunEndAt(s, j + 1, k);
    }
  }

  /** The clean-up deletes only plus signs and single quotes: every other
      character occurs in the result as often as in its input. */
  lemma {:induction false} DropPlusDeletes(s: string, c: char)
    requires c != '+' && c != '\''
    ensures multiset(DropPlusBeforeBracket(s))[c] == multiset(s)[c]
    decreases |s|
  {
    if |s| > 0 {
      var k := QuoteRunEnd(s, 1);
      if s[0] == '+' && k < |s| && s[k] == ']' {
        DropPlusDeletes(s[k + 1..], c);
        DropPlusFiredCount(s, k, c);
      } else {
        DropPlusDeletes(s[1..], c);
        DropPlusKeptCount(s, c);
      }
    }
  }

  /** The count of `c` after a rewrite at the head of `s`. */
  lemma DropPlusFiredCount(s: string, k: nat, c: char)
    requires c != '+' && c != '\''
    requires 0 < |s| && k == QuoteRunEnd(s, 1) && s[0] == '+' && k < |s| && s[k] == ']'
    requires multiset(DropPlusBeforeBracket(s[k + 1..]))[c] == multiset(s[k + 1..])[c]
    ensures multiset(DropPlusBeforeBracket(s))[c] == multiset(s)[c]
  {
    var rest := s[k + 1..];
    QuoteRunLacks(s, k, c);
    assert s[k..] == [s[k]] + rest;
    assert multiset(s[k..]) == multiset([s[k]]) + multiset(rest);
    var r := DropPlusBeforeBracket(rest);
    assert DropPlusBeforeBracket(s) == [s[k]] + r;
    assert multiset([s[k]] + r) == multiset([s[k]]) + multiset(r);
  }

  /** The count of `c` when the head of `s` is kept. */
  lemma DropPlusKeptCount(s: string, c: char)
    requires 0 < |s|
    requires !(s[0] == '+' && QuoteRunEnd(s, 1) < |s| && s[QuoteRunEnd(s, 1)] == ']')
    requires multiset(DropPlusBeforeBracket(s[1..]))[c] == multiset(s[1..])[c]
    ensures multiset(DropPlusBeforeBracket(s))[c] == multiset(s)[c]
  {
    var r := DropPlusBeforeBracket(s[1..]);
    assert s == [s[0]] + s[1..];
    assert multiset(s) == multiset([s[0]]) + multiset(s[1..]);
    assert DropPlusBeforeBracket(s) == [s[0]] + r;
    assert multiset([s[0]] + r) == multiset([s[0]]) + multiset(r);
  }

  /** A `+` and the quote run after it hold no other character. */
  lemma QuoteRunLacks(s: string, k: nat, c: char)
    requires 0 < k < |s| && s[0] == '+' && c != '+' && c != '\''
    requires forall m :: 1 <= m < k ==> s[m] == '\''
    ensures multiset(s)[c] == multiset(s[k..])[c]
  {
    assert s == s[..k] + s[k..];
    assert c !in s[..k] by {
      forall m | 0 <= m < k ensures s[..k][m] != c {
        assert s[..k][m] == s[m];
      }
    }
    assert multiset(s) == multiset(s[..k]) + multiset(s[k..]);
  }

  /** Text without brackets is left alone by the clean-up. */
  lemma TidyPlain(s: string)
    requires '[' !in s && ']' !in s
    ensures TidyBrackets(s) == s
  {
    CharAbsent(s, "[+", 0);
    ReplaceAllAbsent(s, "[+", "[");
    CharAbsent(s, "[''+", 0);
    ReplaceAllAbsent(s, "[''+", "[");
    DropPlusNoBracket(s);
  }

  /** A segment without `{` is a quoted literal (lib/domvm-hbs.js:301). */
  lemma LiteralSegment(x: string, partials: Partials)
    requires '{' !in x
    ensures SegmentJs(x, partials) == Ok("'" + x + "'")
  {
    CharAbsent(x, "{{#", 0);
    CharAbsent(x, "{{/", 0);
    CharAbsent(x, "{{", 0);
  }

  /** An attribute value without mustaches or brackets becomes one quoted
      string literal, its single quotes escaped. */
  lemma LiteralAttribute(a: string, partials: Partials)
    requires '{' !in a && '[' !in a && ']' !in a
    ensures Attrs2Js(a, partials) == Ok("'" + EscapeQuotes(a) + "'")
  {
    var x := EscapeQuotes(a);
    EscapeKeeps(a, '{');
    EscapeKeeps(a, '[');
    EscapeKeeps(a, ']');
    NoBraceNoMustache(x);
    SplitNoMatch(x, MustacheRun);
    LiteralSegment(x, partials);
    var y := "'" + x + "'";
    var codes := SegmentsJs([x], partials);
    assert codes.Ok? && |codes.value| == 1 && codes.value[0] == y;
    assert codes.value == [y];
    assert Join([y], "+") == y;
    assert '[' !in y && ']' !in y by {
      PrefixedLacks("'", x, '[');
      PrefixedLacks("'", x, ']');
      PrefixedLacks("'" + x, "'", '[');
      PrefixedLacks("'" + x, "'", ']');
    }
    TidyPlain(y);
  }

  /** The clean-up passes over a prefix without `]` in which every `+` has
      something other than a quote after it. */
  lemma {:induction false} DropPlusPrefix(x: string, y: string)
    requires ']' !in x
    requires PlusFollowedBy(x)
    ensures DropPlusBeforeBracket(x + y) == x + DropPlusBeforeBracket(y)
    decreases |x|
  {
    if x != [] {
      DropPlusHead(x, y);
      PlusFollowedTail(x);
      DropPlusPrefix(x[1..], y);
      calc {
        DropPlusBeforeBracket(x + y);
        [x[0]] + DropPlusBeforeBracket(x[1..] + y);
        [x[0]] + (x[1..] + DropPlusBeforeBracket(y));
        { assert x == [x[0]] + x[1..]; }
        x + DropPlusBeforeBracket(y);
      }
    } else {
      assert x + y == y;
    }
  }

  /** Every `+` in `x` has a character other than a quote after it in `x`. */
  predicate PlusFollowedBy(x: string) {
    forall i :: 0 <= i < |x| && x[i] == '+' ==> exists j :: i < j < |x| && x[j] != '\''
  }

  /** The property carries over to the tail of a string. */
  lemma PlusFollowedTail(x: string)
    requires x != [] && PlusFollowedBy(x) && ']' !in x
    ensures PlusFollowedBy(x[1..]) && ']' !in x[1..]
  {
    assert forall m :: 0 <= m < |x[1..]| ==> x[1..][m] == x[m + 1];
    forall i | 0 <= i < |x[1..]| && x[1..][i] == '+'
      ensures exists j :: i < j < |x[1..]| && x[1..][j] != '\''
    {
      var j :| i + 1 < j < |x| && x[j] != '\'';
      assert x[1..][j - 1] == x[j];
    }
  }

  /** The first character of such a prefix is kept as it is. */
  lemma DropPlusHead(x: string, y: string)
    requires x != [] && ']' !in x && PlusFollowedBy(x)
    ensures DropPlusBeforeBracket(x + y) == [x[0]] + DropPlusBeforeBracket(x[1..] + y)
  {
    var s := x + y;
    var k := QuoteRunEnd(s, 1);
    if x[0] == '+' {
      var j :| 0 < j < |x| && x[j] != '\'';
      assert s[j] == x[j];
      assert k <= j;
      assert s[k] == x[k];
      assert x[k] in x;
    }
    assert s[1..] == x[1..] + y;
    assert !(s[0] == '+' && k < |s| && s[k] == ']');
  }

  /** An attribute value `t{{k}}`: the literal text, the lookup and an empty
      literal for the text after the mustache, joined with `+`. The empty
      literals the split leaves at either side of the mustache stay in the
      output. */
  lemma MustacheAttribute(t: string, k: string, partials: Partials)
    requires '{' !in t && '}' !in t && '[' !in t && ']' !in t && '\'' !in t
    requires PlainKey(k) && '{' !in k && '}' !in k && '[' !in k && ']' !in k
    requires '\'' !in k && '+' !in k && '#' !in k
    ensures Attrs2Js(t + "{{" + k + "}}", partials) == Ok("'" + t + "'+''+context['" + k + "']+''")
  {
    var a := t + "{{" + k + "}}";
    assert '\'' !in a by {
      assert a == t + ("{{" + k + "}}");
    }
    EscapeNoQuote(a);
    MustacheSplit(t, k);
    MustacheSegments(t, k, partials);
    var codes := ["'" + t + "'", "''+context['" + k + "']", "''"];
    JoinThree(codes[0], codes[1], codes[2], "+");
    assert Join(codes, "+") == MustacheJoined(t, k);
    TidyMustache(t, k);
  }

  /** The three pieces of `t{{k}}` translate one by one. */
  lemma MustacheSegments(t: string, k: string, partials: Partials)
    requires '{' !in t && PlainKey(k) && '#' !in k
    ensures SegmentsJs([t, "{{" + k, ""], partials) ==
      Ok(["'" + t + "'", "''+context['" + k + "']", "''"])
  {
    var parts := [t, "{{" + k, ""];
    var codes := ["'" + t + "'", "''+context['" + k + "']", "''"];
    forall i | 0 <= i < |parts| ensures SegmentJs(parts[i], partials) == Ok(codes[i]) {
      if i == 0 {
        LiteralSegment(t, partials);
      } else if i == 1 {
        MustacheLookupSegment(k, partials);
      } else {
        EmptySegment(partials);
      }
    }
    SegmentsAllOk(parts, codes, partials);
  }

  /** The empty piece after a trailing mustache is the empty string literal. */
  lemma EmptySegment(partials: Partials)
    ensures SegmentJs("", partials) == Ok("''")
  {
    LiteralSegment("", partials);
    assert "'" + "" + "'" == "''";
  }

  /** The mustache piece `{{k` of a split attribute is a context lookup. */
  lemma MustacheLookupSegment(k: string, partials: Partials)
    requires PlainKey(k) && '#' !in k
    ensures SegmentJs("{{" + k, partials) == Ok("''+context['" + k + "']")
  {
    assert !IsHandlebarExpression("{{" + k) by {
      CharAbsent("{{" + k, "{{#", 2);
      CharAbsent("{{" + k, "{{/", 2);
    }
    IndexOfZero("{{" + k, "{{");
    assert SliceFrom("{{" + k, 2) == k;
    PlainKeyLookup(k, partials);
  }

  /** Segments that all translate give the list of their translations. */
  lemma SegmentsAllOk(bs: seq<string>, codes: seq<string>, partials: Partials)
    requires |bs| == |codes|
    requires forall i :: 0 <= i < |bs| ==> SegmentJs(bs[i], partials) == Ok(codes[i])
    ensures SegmentsJs(bs, partials) == Ok(codes)
  {
    var r := SegmentsJs(bs, partials);
    assert r.Ok?;
    assert r.value == codes;
  }

  /** The codes of `MustacheAttribute`, joined with `+`. */
  function MustacheJoined(t: string, k: string): string {
    "'" + t + "'" + "+" + ("''+context['" + k + "']") + "+" + "''"
  }

  /** The clean-up leaves the joined codes of `MustacheAttribute` alone. */
  lemma TidyMustache(t: string, k: string)
    requires '[' !in t && ']' !in t && k != "" && '[' !in k && ']' !in k
    requires '\'' !in k && '+' !in k
    ensures TidyBrackets(MustacheJoined(t, k)) == "'" + t + "'+''+context['" + k + "']+''"
  {
    MustacheNoOpening(t, k);
    MustacheNoClosing(t, k);
    MustacheRegrouped(t, k);
  }

  lemma MustacheRegrouped(t: string, k: string)
    ensures MustacheJoined(t, k) == "'" + t + "'+''+context['" + k + "']+''"
  {
    var a := "'" + t;
    assert "'" + "+" + "''+context['" == "'+''+context['";
    assert "']" + "+" + "''" == "']+''";
    calc {
      MustacheJoined(t, k);
      a + "'" + "+" + ("''+context['" + k + "']") + "+" + "''";
      a + ("'" + "+" + "''+context['") + k + ("']" + "+" + "''");
    }
  }

  /** Neither `[+` nor `[''+` occurs: the one `[` is followed by a quote and
      the key. */
  lemma MustacheNoOpening(t: string, k: string)
    requires '[' !in t && k != "" && '[' !in k && '\'' !in k
    ensures var joined := MustacheJoined(t, k);
      ReplaceAll(ReplaceAll(joined, "[+", "["), "[''+", "[") == joined
  {
    var joined := MustacheJoined(t, k);
    var before := "'" + t + "'+''+context";
    var after := "'" + k + "']+''";
    assert joined == before + ['['] + after;
    assert '[' !in before;
    assert '[' !in after;
    LoneFirstChar(before, '[', after, "[+", 1);
    ReplaceAllAbsent(joined, "[+", "[");
    assert after[1] == k[0];
    LoneFirstChar(before, '[', after, "[''+", 2);
    ReplaceAllAbsent(joined, "[''+", "[");
  }

  /** In `a + k + "'"`, with `k` non-empty and free of `+` and quotes,
      every `+` has a character other than a quote after it. */
  lemma PlusFollowed(a: string, k: string)
    requires k != "" && '+' !in k && '\'' !in k
    ensures PlusFollowedBy(a + k + "'")
  {
    var x := a + k + "'";
    forall i | 0 <= i < |x| && x[i] == '+'
      ensures exists j :: i < j < |x| && x[j] != '\''
    {
      assert x[|x| - 2] == k[|k| - 1];
      assert k[|k| - 1] in k;
      assert x[|x| - 1] == '\'';
      assert i < |x| - 2;
    }
  }

  /** No `+` is followed by quotes and then `]`: the one `]` comes after the
      key, which holds no `+` and does not end in a quote. */
  lemma MustacheNoClosing(t: string, k: string)
    requires ']' !in t && k != "" && ']' !in k && '\'' !in k && '+' !in k
    ensures DropPlusBeforeBracket(MustacheJoined(t, k)) == MustacheJoined(t, k)
  {
    var x := "'" + t + "'+''+context['" + k + "'";
    assert MustacheJoined(t, k) == x + "]+''";
    assert ']' !in x;
    PlusFollowed("'" + t + "'+''+context['", k);
    ClosingTail(x);
  }

  /** The `]+''` that ends a mustache attribute's code survives the clean-up
      when nothing before it can be dropped. */
  lemma ClosingTail(x: string)
    requires ']' !in x && PlusFollowedBy(x)
    ensures DropPlusBeforeBracket(x + "]+''") == x + "]+''"
  {
    DropPlusPrefix(x, "]+''");
    ClosingLiteral();
  }

  /** The code's last three characters pass the clean-up unchanged. */
  lemma ClosingLiteral()
    ensures DropPlusBeforeBracket("]+''") == "]+''"
  {
    DropPlusNoBracket("+''");
    assert DropPlusBeforeBracket("]+''") == "]" + DropPlusBeforeBracket("+''");
  }
}
