/** Code generation and the `compile` entry point (lib/domvm-hbs.js:118-377):
    the template is cleaned up, parsed into a tree, the first root is turned
    into hyperscript calls by `toJavaScript` and `node2js`, and the result is
    wrapped in the function text that `compile` returns with `raw` set. */
module Codegen {
  import opened JsStrings
  import opened Translate
  import opened Tree

  /** Children come after their parent in the arena and every child index
      points at a node, so the recursion over a subtree ends. */
  predicate ChildrenAfter(nodes: seq<Node>) {
    forall i, k :: 0 <= i < |nodes| && nodes[i].TagNode? && 0 <= k < |nodes[i].children| ==>
      i < nodes[i].children[k] < |nodes|
  }

  lemma WellFormedChildrenAfter(f: Forest)
    requires WellFormed(f)
    ensures ChildrenAfter(f.nodes)
  {
  }

  /** `options.pragma || "h"` (lib/domvm-hbs.js:124). */
  function Pragma(option: string): string {
    if option == "" then "h" else option
  }

  // ---------------------------------------------------------------------
  // The text toJavaScript and node2js build
  // ---------------------------------------------------------------------

  /** `.replace(/return \[,/g, "return [").replace(/,\]}\)\]/g, "]})]")`
      (lib/domvm-hbs.js:332): the comma after a block opening and the comma
      before a block closing are removed. */
  function TidyBlocks(s: string): string {
    ReplaceAll(ReplaceAll(s, "return [,", "return ["), ",]})]", "]})]")
  }

  /** The text that replaces `node.children`: the children's code in an
      array literal (lib/domvm-hbs.js:329-333), or `[]` when there are none
      (lib/domvm-hbs.js:222-224). */
  function ChildrenJs(codes: seq<string>): string {
    if codes == [] then "[]" else TidyBlocks("[" + Join(codes, ",") + "]")
  }

  /** One `name:value` entry of the attributes object
      (lib/domvm-hbs.js:338-340). */
  function AttributeJs(attr: (string, string), partials: Partials): (r: Result<string>)
    ensures r.Err? ==> r.error.MissingPartial?
  {
    var name :- String2Js(attr.0, partials);
    var value :- Attrs2Js(attr.1, partials);
    Ok(name + ":" + value)
  }

  /** The entries of all attributes, in order; the first error ends it. */
  function AttributesJs(attrs: seq<(string, string)>, partials: Partials): (r: Result<seq<string>>)
    ensures r.Ok? ==> |r.value| == |attrs|
    ensures r.Ok? ==> forall k :: 0 <= k < |attrs| ==> AttributeJs(attrs[k], partials) == Ok(r.value[k])
    ensures r.Err? <==> exists k :: 0 <= k < |attrs| && AttributeJs(attrs[k], partials).Err?
    ensures r.Err? ==> r.error.MissingPartial?
  {
    MapResults(attrs, a => AttributeJs(a, partials))
  }

  /** The text that replaces `node.attributes` (lib/domvm-hbs.js:335-342). */
  function ObjectJs(entries: seq<string>): string {
    "{" + Join(entries, ",") + "}"
  }

  /** `node2js`'s result (lib/domvm-hbs.js:225). */
  function TagJs(pragma: string, name: string, attributes: string, children: string): string {
    "options." + pragma + "(" + Join([name, attributes, children], ",") + ")"
  }

  /** `toJavaScript` of node `i` (lib/domvm-hbs.js:327-356): a text node is a
      block helper call or a string; a tag is a pragma call on its name, its
      attributes and its children. Children are translated first, then the
      attributes, then the name, so an error in a child comes first. */
  function NodeCode(nodes: seq<Node>, i: nat, pragma: string, partials: Partials): (r: Result<string>)
    requires i < |nodes| && ChildrenAfter(nodes)
    ensures r.Err? ==> r.error.MissingPartial?
    ensures r.Ok? && nodes[i].TagNode? ==>
              && |"options." + pragma + "("| <= |r.value|
              && r.value[..|"options." + pragma + "("|] == "options." + pragma + "("
    decreases |nodes| - i, if nodes[i].TagNode? then |nodes[i].children| + 1 else 0
  {
    match nodes[i]
    case TextNode(content) =>
      if IsHandlebarExpression(content) then Expression2Js(content, partials) else String2Js(content, partials)
    case TagNode(name, attributes, children, _) =>
      var codes :- ChildCodes(nodes, i, children, pragma, partials);
      var entries :- AttributesJs(attributes, partials);
      var nameJs :- String2Js(name, partials);
      Ok(TagJs(pragma, nameJs, ObjectJs(entries), ChildrenJs(codes)))
  }

  /** `node.children.map(toJavaScript)` for the children `cs` of `parent`. */
  function ChildCodes(nodes: seq<Node>, parent: nat, cs: seq<nat>, pragma: string, partials: Partials): (r: Result<seq<string>>)
    requires ChildrenAfter(nodes) && forall k :: 0 <= k < |cs| ==> parent < cs[k] < |nodes|
    ensures r.Err? ==> r.error.MissingPartial?
    decreases |nodes| - parent, |cs|
  {
    if cs == [] then Ok([])
    else
      var head :- NodeCode(nodes, cs[0], pragma, partials);
      var tail :- ChildCodes(nodes, parent, cs[1..], pragma, partials);
      Ok([head] + tail)
  }

  /** The first child's code in front of the codes of the others, or the
      first error among them. */
  lemma ChildCodesCons(nodes: seq<Node>, parent: nat, cs: seq<nat>, pragma: string, partials: Partials)
    requires ChildrenAfter(nodes) && cs != [] && forall k :: 0 <= k < |cs| ==> parent < cs[k] < |nodes|
    ensures ChildCodes(nodes, parent, cs, pragma, partials) ==
      match NodeCode(nodes, cs[0], pragma, partials)
      case Err(e) => Err(e)
      case Ok(head) => Prepend([head], ChildCodes(nodes, parent, cs[1..], pragma, partials))
  {
  }

  /** `codes` in front of the values of `r`, or the error of `r`. */
  function Prepend(codes: seq<string>, r: Result<seq<string>>): Result<seq<string>> {
    match r
    case Err(e) => Err(e)
    case Ok(v) => Ok(codes + v)
  }

  /** The children are translated one by one, in order; the map fails
      exactly when one child's code does. */
  lemma {:induction false} ChildCodesEach(nodes: seq<Node>, parent: nat, cs: seq<nat>, pragma: string, partials: Partials)
    requires ChildrenAfter(nodes) && forall k :: 0 <= k < |cs| ==> parent < cs[k] < |nodes|
    ensures var r := ChildCodes(nodes, parent, cs, pragma, partials);
      && (r.Ok? ==> |r.value| == |cs|)
      && (r.Ok? ==> forall k :: 0 <= k < |cs| ==> NodeCode(nodes, cs[k], pragma, partials) == Ok(r.value[k]))
      && (r.Err? <==> exists k :: 0 <= k < |cs| && NodeCode(nodes, cs[k], pragma, partials).Err?)
    decreases |cs|
  {
    if cs != [] {
      var tail := cs[1..];
      assert forall k :: 0 < k < |cs| ==> tail[k - 1] == cs[k];
      ChildCodesEach(nodes, parent, tail, pragma, partials);
      ChildCodesCons(nodes, parent, cs, pragma, partials);
      var rest := ChildCodes(nodes, parent, tail, pragma, partials);
      if NodeCode(nodes, cs[0], pragma, partials).Ok? && rest.Err? {
        var k :| 0 <= k < |tail| && NodeCode(nodes, tail[k], pragma, partials).Err?;
        assert cs[k + 1] == tail[k];
      }
    }
  }

  /** One more child translated: an error is the result of the whole map,
      a code joins the ones in front. */
  lemma ChildCodesAdvance(nodes: seq<Node>, parent: nat, cs: seq<nat>, k: nat, codes: seq<string>,
                          code: Result<string>, pragma: string, partials: Partials)
    requires ChildrenAfter(nodes) && k < |cs| && forall j :: 0 <= j < |cs| ==> parent < cs[j] < |nodes|
    requires ChildCodes(nodes, parent, cs, pragma, partials)
      == Prepend(codes, ChildCodes(nodes, parent, cs[k..], pragma, partials))
    requires code == NodeCode(nodes, cs[k], pragma, partials)
    ensures code.Err? ==> ChildCodes(nodes, parent, cs, pragma, partials) == Err(code.error)
    ensures code.Ok? ==>
      ChildCodes(nodes, parent, cs, pragma, partials)
        == Prepend(codes + [code.value], ChildCodes(nodes, parent, cs[k + 1..], pragma, partials))
  {
    assert cs[k..][1..] == cs[k + 1..];
    ChildCodesCons(nodes, parent, cs[k..], pragma, partials);
    if code.Ok? {
      PrependStep(codes, code.value, ChildCodes(nodes, parent, cs[k + 1..], pragma, partials));
    }
  }

  /** Nothing in front leaves the result as it is. */
  lemma PrependNothing(r: Result<seq<string>>)
    ensures Prepend([], r) == r
  {
    if r.Ok? {
      assert [] + r.value == r.value;
    }
  }

  /** Adding one more code to the front part. */
  lemma PrependStep(codes: seq<string>, code: string, rest: Result<seq<string>>)
    ensures Prepend(codes, Prepend([code], rest)) == Prepend(codes + [code], rest)
  {
    if rest.Ok? {
      assert codes + ([code] + rest.value) == codes + [code] + rest.value;
    }
  }

  // ---------------------------------------------------------------------
  // compile
  // ---------------------------------------------------------------------

  /** The clean-up of lib/domvm-hbs.js:127-131: whitespace between tags and
      mustaches is dropped, then every newline and tab. */
  function Preprocess(template: string): string {
    var s := ReplaceAll(ReplaceAll(ReplaceAll(template, "> <", "><"), "> {{", ">{{"), "}} <", "}}<");
    ReplaceAll(ReplaceAll(s, "\n", ""), "\t", "")
  }

  /** `fn.replace(/(\r\n|\n|\r)/gm, "")` (lib/domvm-hbs.js:368): every
      carriage return and every newline goes, alone or in a pair. */
  function RemoveLineBreaks(s: string): string {
    if s == [] then []
    else (if s[0] == '\r' || s[0] == '\n' then [] else [s[0]]) + RemoveLineBreaks(s[1..])
  }

  /** The wrapper of lib/domvm-hbs.js:363, in pieces short enough to check one at a time. */
  const PrologueOpen := "(function(vm, " + "state) {  " + "var Runtime = "
  const PrologueRuntime := "domvm_hbs_" + "runtime.methods; " + "return "
  const PrologueFunction := "function(){  " + "var context = "
  const PrologueContext := "(state || " + "originalState); " + "return "
  const Prologue := PrologueOpen + PrologueRuntime + PrologueFunction + PrologueContext
  const Epilogue := "}.bind({})}.bind({}))"

  /** The code of the first root of the tree the callbacks `events` build
      (`toJavaScript(parse(template)[0])`, lib/domvm-hbs.js:359-365); with no
      root, `toJavaScript` would read a property of `undefined`. */
  function Generate(events: seq<Event>, pragma: string, partials: Partials): Result<string> {
    var f := Build(events);
    if f.tree == [] then Err(NoRootNode)
    else
      WellFormedChildrenAfter(f);
      NodeCode(f.nodes, f.tree[0], pragma, partials)
  }

  /** `compile(template, {raw: true, pragma})` (lib/domvm-hbs.js:118-377):
      the source text of the render function for the first root of the
      template, or the error that stopped it. */
  function CompileSpec(template: string, pragmaOption: string, partials: Partials,
                       tokenize: string -> seq<Event>): (r: Result<string>)
    ensures Build(tokenize(Preprocess(template))).tree == [] ==> r == Err(NoRootNode)
    ensures r.Ok? ==>
              && '\n' !in r.value && '\r' !in r.value
              && |Prologue| <= |r.value| && r.value[..|Prologue|] == Prologue
  {
    var code :- Generate(tokenize(Preprocess(template)), Pragma(pragmaOption), partials);
    WrappedLineBreaks(code);
    NoLineBreaks(Prologue + code + Epilogue);
    Ok(RemoveLineBreaks(Prologue + code + Epilogue))
  }

  // ---------------------------------------------------------------------
  // The generator, overwriting each node's fields as it goes
  // ---------------------------------------------------------------------

  /** `toJavaScript` replaces each tag's `children` and `attributes` with
      their code text. The node list is fixed while it runs; the two
      overwritten fields of every node are the arrays `childrenText` and
      `attributesText`, indexed like the nodes. */
  class Generator {
    const nodes: seq<Node>
    const pragma: string
    const partials: Partials
    const childrenText: array<string>
    const attributesText: array<string>

    predicate Valid()
      reads this
    {
      && ChildrenAfter(nodes)
      && childrenText.Length == |nodes| && attributesText.Length == |nodes|
      && childrenText != attributesText
    }

    constructor(nodes: seq<Node>, pragma: string, partials: Partials)
      requires ChildrenAfter(nodes)
      ensures Valid() && this.nodes == nodes && this.pragma == pragma && this.partials == partials
      ensures fresh(childrenText) && fresh(attributesText)
    {
      this.nodes := nodes;
      this.pragma := pragma;
      this.partials := partials;
      childrenText := new string[|nodes|](_ => "");
      attributesText := new string[|nodes|](_ => "");
    }

    /** `toJavaScript(nodes[i])`. On success a tag's two fields hold the text
        `node2js` read; the fields of the nodes before `i`, which include its
        ancestors, are left alone. */
    method ToJavaScript(i: nat) returns (r: Result<string>)
      requires Valid() && i < |nodes|
      modifies childrenText, attributesText
      decreases |nodes| - i, if nodes[i].TagNode? then |nodes[i].children| + 1 else 0
      ensures r == NodeCode(nodes, i, pragma, partials)
      ensures r.Ok? && nodes[i].TagNode? ==>
        var children := ChildCodes(nodes, i, nodes[i].children, pragma, partials);
        var attributes := AttributesJs(nodes[i].attributes, partials);
        && children.Ok? && attributes.Ok?
        && childrenText[i] == ChildrenJs(children.value)
        && attributesText[i] == ObjectJs(attributes.value)
      ensures forall j :: 0 <= j < i ==>
        childrenText[j] == old(childrenText[j]) && attributesText[j] == old(attributesText[j])
    {
      match nodes[i]
      case TextNode(content) =>
        if IsHandlebarExpression(content) {
          r := Expression2Js(content, partials);
        } else {
          r := String2Js(content, partials);
        }
      case TagNode(name, attributes, children, _) =>
        var childCodes := ChildrenToJavaScript(i, children);
        if childCodes.Err? {
          return Err(childCodes.error);
        }
        var codes := childCodes.value;
        if |children| > 0 {
          childrenText[i] := TidyBlocks("[" + Join(codes, ",") + "]");
        }
        var entries := AttributesJs(attributes, partials);
        if entries.Err? {
          return Err(entries.error);
        }
        attributesText[i] := ObjectJs(entries.value);
        if |children| == 0 {
          childrenText[i] := "[]";
        }
        var nameJs := String2Js(name, partials);
        if nameJs.Err? {
          return Err(nameJs.error);
        }
        r := Ok(TagJs(pragma, nameJs.value, attributesText[i], childrenText[i]));
    }

    /** `children.map(toJavaScript)` for the children of node `i`, the
        first error ending it. */
    method ChildrenToJavaScript(i: nat, children: seq<nat>) returns (r: Result<seq<string>>)
      requires Valid() && i < |nodes| && forall k :: 0 <= k < |children| ==> i < children[k] < |nodes|
      modifies childrenText, attributesText
      decreases |nodes| - i, |children|
      ensures r == ChildCodes(nodes, i, children, pragma, partials)
      ensures forall j :: 0 <= j <= i ==>
        childrenText[j] == old(childrenText[j]) && attributesText[j] == old(attributesText[j])
    {
      var codes: seq<string> := [];
      var k := 0;
      assert children[0..] == children;
      PrependNothing(ChildCodes(nodes, i, children, pragma, partials));
      while k < |children|
        invariant 0 <= k <= |children|
        invariant ChildCodes(nodes, i, children, pragma, partials)
          == Prepend(codes, ChildCodes(nodes, i, children[k..], pragma, partials))
        invariant forall j :: 0 <= j <= i ==>
          childrenText[j] == old(childrenText[j]) && attributesText[j] == old(attributesText[j])
      {
        var code := ToJavaScript(children[k]);
        ChildCodesAdvance(nodes, i, children, k, codes, code, pragma, partials);
        if code.Err? {
          return Err(code.error);
        }
        codes := codes + [code.value];
        k := k + 1;
      }
      assert children[k..] == [];
      assert codes + [] == codes;
      r := Ok(codes);
    }
  }

  /** `compile` with `raw` set: parse, generate from the first root, wrap and
      strip line breaks. */
  method Compile(template: string, pragmaOption: string, partials: Partials,
                 tokenize: string -> seq<Event>) returns (r: Result<string>)
    ensures r == CompileSpec(template, pragmaOption, partials, tokenize)
  {
    var f := Parse(Preprocess(template), tokenize);
    if f.tree == [] {
      return Err(NoRootNode);
    }
    WellFormedChildrenAfter(f);
    var generator := new Generator(f.nodes, Pragma(pragmaOption), partials);
    var code := generator.ToJavaScript(f.tree[0]);
    if code.Err? {
      return Err(code.error);
    }
    r := Ok(RemoveLineBreaks(Prologue + code.value + Epilogue));
  }

  // ---------------------------------------------------------------------
  // Properties
  // ---------------------------------------------------------------------

  /** The line-break removal leaves no carriage return and no newline. */
  lemma {:induction false} NoLineBreaks(s: string)
    ensures '\n' !in RemoveLineBreaks(s) && '\r' !in RemoveLineBreaks(s)
  {
    if s != [] {
      NoLineBreaks(s[1..]);
    }
  }

  /** It removes nothing else: text without line breaks is kept. */
  lemma {:induction false} LineBreakFree(s: string)
    requires '\n' !in s && '\r' !in s
    ensures RemoveLineBreaks(s) == s
  {
    if s != [] {
      LineBreakFree(s[1..]);
      assert s == [s[0]] + s[1..];
    }
  }

  /** It works piece by piece. */
  lemma {:induction false} RemoveLineBreaksConcat(a: string, b: string)
    ensures RemoveLineBreaks(a + b) == RemoveLineBreaks(a) + RemoveLineBreaks(b)
  {
    if a != [] {
      assert (a + b)[1..] == a[1..] + b;
      RemoveLineBreaksConcat(a[1..], b);
    } else {
      assert a + b == b;
    }
  }

  // The prologue in short pieces, so that each membership test stays small.
  lemma PrologueOpenFlat()
    ensures '\n' !in PrologueOpen && '\r' !in PrologueOpen
  {
  }

  lemma PrologueRuntimeFlat()
    ensures '\n' !in PrologueRuntime && '\r' !in PrologueRuntime
  {
  }

  lemma PrologueFunctionFlat()
    ensures '\n' !in PrologueFunction && '\r' !in PrologueFunction
  {
  }

  lemma PrologueContextFlat()
    ensures '\n' !in PrologueContext && '\r' !in PrologueContext
  {
  }

  /** The fixed wrapper text holds no line break. */
  lemma PrologueFlat()
    ensures RemoveLineBreaks(Prologue) == Prologue
  {
    PrologueOpenFlat();
    PrologueRuntimeFlat();
    PrologueFunctionFlat();
    PrologueContextFlat();
    LineBreakFree(Prologue);
  }

  lemma EpilogueFlat()
    ensures RemoveLineBreaks(Epilogue) == Epilogue
  {
    LineBreakFree(Epilogue);
  }

  /** Removing line breaks from the wrapped code touches only the code. */
  lemma WrappedLineBreaks(code: string)
    ensures RemoveLineBreaks(Prologue + code + Epilogue) == Prologue + RemoveLineBreaks(code) + Epilogue
  {
    RemoveLineBreaksConcat(Prologue + code, Epilogue);
    RemoveLineBreaksConcat(Prologue, code);
    PrologueFlat();
    EpilogueFlat();
  }

  /** The compiled text is the root's code, line breaks removed, between
      the fixed prologue and epilogue, and holds no line break. */
  lemma CompiledShape(template: string, pragmaOption: string, partials: Partials,
                      tokenize: string -> seq<Event>)
    requires CompileSpec(template, pragmaOption, partials, tokenize).Ok?
    ensures var code := Generate(tokenize(Preprocess(template)), Pragma(pragmaOption), partials);
      var out := CompileSpec(template, pragmaOption, partials, tokenize).value;
      && code.Ok?
      && out == Prologue + RemoveLineBreaks(code.value) + Epilogue
      && '\n' !in out && '\r' !in out
  {
    var code := Generate(tokenize(Preprocess(template)), Pragma(pragmaOption), partials).value;
    WrappedLineBreaks(code);
    NoLineBreaks(Prologue + code + Epilogue);
  }

  /** The template handed to the tokenizer holds no newline and no tab. */
  lemma PreprocessedFlat(template: string)
    ensures '\n' !in Preprocess(template) && '\t' !in Preprocess(template)
  {
    var s := ReplaceAll(ReplaceAll(ReplaceAll(template, "> <", "><"), "> {{", ">{{"), "}} <", "}}<");
    ReplaceAllRemoves(s, '\n');
    ReplaceAllLacks(ReplaceAll(s, "\n", ""), "\t", "", '\n');
    ReplaceAllRemoves(ReplaceAll(s, "\n", ""), '\t');
  }

  /** The pragma reaches the output: when the first root is a tag, the
      compiled text opens with the prologue and then the call of the pragma
      option, or of `h` when none is given (lib/domvm-hbs.js:124, 225, 363). */
  lemma PragmaEmitted(template: string, pragmaOption: string, partials: Partials,
                      tokenize: string -> seq<Event>)
    requires CompileSpec(template, pragmaOption, partials, tokenize).Ok?
    requires var f := Build(tokenize(Preprocess(template)));
      f.tree != [] && f.nodes[f.tree[0]].TagNode?
    requires '\n' !in pragmaOption && '\r' !in pragmaOption
    ensures var out := CompileSpec(template, pragmaOption, partials, tokenize).value;
      var head := Prologue + ("options." + Pragma(pragmaOption) + "(");
      |head| <= |out| && out[..|head|] == head
  {
    var pragma := Pragma(pragmaOption);
    var events := tokenize(Preprocess(template));
    CompiledShape(template, pragmaOption, partials, tokenize);
    GenerateTag(events, pragma, partials);
    CallFlat(pragma);
    FlatPrefixKept(Prologue, "options." + pragma + "(", Generate(events, pragma, partials).value, Epilogue);
  }

  /** A tag root's code is a call of the pragma. */
  lemma GenerateTag(events: seq<Event>, pragma: string, partials: Partials)
    requires Generate(events, pragma, partials).Ok?
    requires Build(events).tree != [] && Build(events).nodes[Build(events).tree[0]].TagNode?
    ensures var code := Generate(events, pragma, partials).value;
      var call := "options." + pragma + "(";
      |call| <= |code| && code[..|call|] == call
  {
  }

  /** The opening of a pragma call holds no line break when the pragma
      does not. */
  lemma CallFlat(pragma: string)
    requires '\n' !in pragma && '\r' !in pragma
    ensures var call := "options." + pragma + "(";
      '\n' !in call && '\r' !in call
  {
    PrefixedLacks("options.", pragma, '\n');
    PrefixedLacks("options." + pragma, "(", '\n');
    PrefixedLacks("options.", pragma, '\r');
    PrefixedLacks("options." + pragma, "(", '\r');
  }

  /** A prefix of the code without line breaks is still a prefix of the
      wrapped code once line breaks are removed. */
  lemma FlatPrefixKept(before: string, call: string, code: string, after: string)
    requires |call| <= |code| && code[..|call|] == call
    requires '\n' !in call && '\r' !in call
    ensures var out := before + RemoveLineBreaks(code) + after;
      |before + call| <= |out| && out[..|before + call|] == before + call
  {
    assert code == call + code[|call|..];
    RemoveLineBreaksConcat(call, code[|call|..]);
    LineBreakFree(call);
    var out := before + RemoveLineBreaks(code) + after;
    assert out == (before + call) + (RemoveLineBreaks(code[|call|..]) + after);
  }

  /** A tag without attributes or children. */
  lemma LeafTag(nodes: seq<Node>, i: nat, pragma: string, partials: Partials)
    requires i < |nodes| && ChildrenAfter(nodes)
    requires nodes[i].TagNode? && nodes[i].attributes == [] && nodes[i].children == []
    requires String2Js(nodes[i].name, partials).Ok?
    ensures NodeCode(nodes, i, pragma, partials) ==
      Ok("options." + pragma + "(" + String2Js(nodes[i].name, partials).value + ",{},[])")
  {
    var name := String2Js(nodes[i].name, partials).value;
    assert ChildCodes(nodes, i, [], pragma, partials) == Ok([]);
    assert AttributesJs([], partials) == Ok([]);
    assert ObjectJs([]) == "{}";
    assert ChildrenJs([]) == "[]";
    assert NodeCode(nodes, i, pragma, partials) == Ok(TagJs(pragma, name, "{}", "[]"));
    EmptyTagJs(pragma, name);
  }

  /** The call for a tag with empty attributes and children. */
  lemma EmptyTagJs(pragma: string, name: string)
    ensures TagJs(pragma, name, "{}", "[]") == "options." + pragma + "(" + name + ",{},[])"
  {
    JoinThree(name, "{}", "[]", ",");
    assert name + "," + "{}" + "," + "[]" == name + ",{},[]";
    var head := "options." + pragma + "(";
    assert ",{},[]" + ")" == ",{},[])";
    assert head + (name + ",{},[]") + ")" == head + name + ",{},[])";
  }

  /** Node `i`'s code is the same when only the first `n` nodes are kept,
      provided the subtree of `i` lies within them. */
  lemma NodeCodePrefix(nodes: seq<Node>, n: nat, i: nat, pragma: string, partials: Partials)
    requires ChildrenAfter(nodes) && n <= |nodes| && ChildrenAfter(nodes[..n]) && i < n
    ensures NodeCode(nodes, i, pragma, partials) == NodeCode(nodes[..n], i, pragma, partials)
    decreases |nodes| - i, if nodes[i].TagNode? then |nodes[i].children| + 1 else 0
  {
    assert nodes[..n][i] == nodes[i];
    if nodes[i].TagNode? {
      ChildCodesPrefix(nodes, n, i, nodes[i].children, pragma, partials);
    }
  }

  lemma ChildCodesPrefix(nodes: seq<Node>, n: nat, parent: nat, cs: seq<nat>, pragma: string, partials: Partials)
    requires ChildrenAfter(nodes) && n <= |nodes| && ChildrenAfter(nodes[..n])
    requires forall k :: 0 <= k < |cs| ==> parent < cs[k] < n
    ensures ChildCodes(nodes, parent, cs, pragma, partials) == ChildCodes(nodes[..n], parent, cs, pragma, partials)
    decreases |nodes| - parent, |cs|
  {
    if cs != [] {
      NodeCodePrefix(nodes, n, cs[0], pragma, partials);
      ChildCodesPrefix(nodes, n, parent, cs[1..], pragma, partials);
    }
  }

  /** Only the first root is compiled (lib/domvm-hbs.js:359): once the first
      top-level element or text is complete and no element is open, nothing
      the tokenizer reports afterwards changes the generated code. */
  lemma FirstRootOnly(first: seq<Event>, later: seq<Event>, pragma: string, partials: Partials)
    requires Build(first).tree != [] && Build(first).current.None?
    ensures Generate(first + later, pragma, partials) == Generate(first, pragma, partials)
  {
    var f := Build(first);
    var n := |f.nodes|;
    BuildKeepsSettled(first, later, n);
    var g := Build(first + later);
    assert g.tree[0] == f.tree[0];
    assert f.nodes[..n] == f.nodes;
    WellFormedChildrenAfter(f);
    WellFormedChildrenAfter(g);
    NodeCodePrefix(g.nodes, n, f.tree[0], pragma, partials);
  }
}
