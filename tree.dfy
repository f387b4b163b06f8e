/** The tree builder behind `parse` (lib/domvm-hbs.js:20-96). The HTML
    tokenizer is not modelled: it is the function `tokenize` that turns the
    markup into the sequence of callbacks it would make. The node objects,
    which the handlers link to each other and mutate in place, live in an
    arena `nodes` and refer to each other by index. */
module Tree {
  import opened JsStrings
  import Segmenter

  /** One callback the tokenizer makes: `onopentag`, `ontext`, `onclosetag`.
      Attributes keep the order in which the tokenizer reports them. */
  datatype Event =
    | OpenTag(name: string, attrs: seq<(string, string)>)
    | Text(text: string)
    | CloseTag(name: string)

  /** A node object: `{type: 'tag', parent, name, attributes, children}` or
      `{type: 'text', content}`. */
  datatype Node =
    | TagNode(name: string, attributes: seq<(string, string)>, children: seq<nat>, parent: Option<nat>)
    | TextNode(content: string)

  /** Everything `parse` keeps while it runs: the nodes made so far, the
      top-level list `tree` and the open element `current` (`null` is
      `None`). */
  datatype Forest = Forest(nodes: seq<Node>, tree: seq<nat>, current: Option<nat>)

  const Empty := Forest([], [], None)

  predicate IsTag(nodes: seq<Node>, i: nat) {
    i < |nodes| && nodes[i].TagNode?
  }

  /** A tag's parent link agrees with the children lists: a tag with a parent
      is one of its parent's children, a tag without one is in `tree`. */
  predicate ParentLinked(f: Forest, i: nat)
    requires IsTag(f.nodes, i)
  {
    match f.nodes[i].parent
    case None => i in f.tree
    case Some(p) => p < i && IsTag(f.nodes, p) && i in f.nodes[p].children
  }

  /** The invariant the handlers keep: every index points at a node, children
      come after their parent, parent links agree with children lists, and
      `current` is a tag. */
  predicate WellFormed(f: Forest) {
    && (forall k :: 0 <= k < |f.tree| ==> f.tree[k] < |f.nodes|)
    && (forall i, k :: 0 <= i < |f.nodes| && IsTag(f.nodes, i) && 0 <= k < |f.nodes[i].children| ==>
          i < f.nodes[i].children[k] < |f.nodes|)
    && (forall i :: 0 <= i < |f.nodes| && IsTag(f.nodes, i) ==> ParentLinked(f, i))
    && (f.current.Some? ==> IsTag(f.nodes, f.current.value))
  }

  /** `current.children.push(node)`, or `tree.push(node)` at the top level. */
  function Attach(f: Forest, node: Node): (g: Forest)
    requires f.current.Some? ==> IsTag(f.nodes, f.current.value)
  {
    var idx := |f.nodes|;
    match f.current
    case None => Forest(f.nodes + [node], f.tree + [idx], None)
    case Some(c) =>
      var p := f.nodes[c];
      Forest(f.nodes[c := p.(children := p.children + [idx])] + [node], f.tree, f.current)
  }

  /** `onopentag` (lib/domvm-hbs.js:26-41). */
  function Open(f: Forest, name: string, attrs: seq<(string, string)>): (g: Forest)
    requires WellFormed(f)
    ensures WellFormed(g)
    ensures g.current == Some(|f.nodes|)
  {
    AttachKeeps(f, TagNode(name, attrs, [], f.current));
    Attach(f, TagNode(name, attrs, [], f.current)).(current := Some(|f.nodes|))
  }

  /** One text node of `ontext` (lib/domvm-hbs.js:69-79): the fragment with
      its single quotes escaped. */
  function AddText(f: Forest, text: string): (g: Forest)
    requires WellFormed(f)
    ensures WellFormed(g)
    ensures g.current == f.current
  {
    AttachKeeps(f, TextNode(EscapeQuotes(text)));
    Attach(f, TextNode(EscapeQuotes(text)))
  }

  /** The indices `lo`, `lo + 1`, ..., `lo + n - 1`. */
  function Indices(lo: nat, n: nat): (r: seq<nat>)
    ensures |r| == n && forall k :: 0 <= k < n ==> r[k] == lo + k
  {
    seq(n, k requires 0 <= k < n => lo + k)
  }

  /** The text nodes of `texts`, added in order: their indices are appended
      to the open element's children, or to `tree` when no element is open,
      and no node made before changes otherwise. */
  function AddTexts(f: Forest, texts: seq<string>): (g: Forest)
    requires WellFormed(f)
    ensures WellFormed(g)
    ensures g.current == f.current
    ensures |g.nodes| == |f.nodes| + |texts|
    ensures f.current.None? ==>
              g.tree == f.tree + Indices(|f.nodes|, |texts|) && g.nodes[..|f.nodes|] == f.nodes
    ensures f.current.Some? ==>
              var c := f.current.value;
              && g.tree == f.tree
              && g.nodes[..|f.nodes|] ==
                   f.nodes[c := f.nodes[c].(children := f.nodes[c].children + Indices(|f.nodes|, |texts|))]
    decreases |texts|
  {
    if texts == [] then
      assert f.nodes[..|f.nodes|] == f.nodes;
      if f.current.Some? then
        var c := f.current.value;
        assert f.nodes[c].children + Indices(|f.nodes|, 0) == f.nodes[c].children;
        f
      else
        f
    else
      var g := AddTexts(f, texts[..|texts| - 1]);
      AddTextAppends(f, g, texts[|texts| - 1], |texts| - 1);
      AddText(g, texts[|texts| - 1])
  }

  /** One more text node appends one more index, after those of the texts
      added before it. */
  lemma AddTextAppends(f: Forest, g: Forest, text: string, n: nat)
    requires WellFormed(f) && WellFormed(g) && g.current == f.current
    requires |g.nodes| == |f.nodes| + n
    requires f.current.None? ==>
               g.tree == f.tree + Indices(|f.nodes|, n) && g.nodes[..|f.nodes|] == f.nodes
    requires f.current.Some? ==>
               var c := f.current.value;
               && g.tree == f.tree
               && g.nodes[..|f.nodes|] ==
                    f.nodes[c := f.nodes[c].(children := f.nodes[c].children + Indices(|f.nodes|, n))]
    ensures var h := AddText(g, text);
      && (f.current.None? ==>
            h.tree == f.tree + Indices(|f.nodes|, n + 1) && h.nodes[..|f.nodes|] == f.nodes)
      && (f.current.Some? ==>
            var c := f.current.value;
            && h.tree == f.tree
            && h.nodes[..|f.nodes|] ==
                 f.nodes[c := f.nodes[c].(children := f.nodes[c].children + Indices(|f.nodes|, n + 1))])
  {
    var h := AddText(g, text);
    var lo := |f.nodes|;
    assert Indices(lo, n) + [lo + n] == Indices(lo, n + 1);
    match f.current
    case None =>
      assert h.nodes[..lo] == g.nodes[..lo];
    case Some(c) =>
      assert g.nodes[..lo][c] == g.nodes[c];
      var x := f.nodes[c].(children := f.nodes[c].children + Indices(lo, n + 1));
      assert g.nodes[c] == f.nodes[c].(children := f.nodes[c].children + Indices(lo, n));
      assert g.nodes[c].(children := g.nodes[c].children + [lo + n]) == x;
      assert h.nodes[..lo] == g.nodes[..lo][c := x];
      assert g.nodes[..lo][c := x] == f.nodes[c := x];
  }

  /** `onclosetag` (lib/domvm-hbs.js:81-83): the tag name is ignored and the
      open element's parent becomes the open element. */
  function Close(f: Forest): (g: Forest)
    requires WellFormed(f)
    ensures WellFormed(g)
    ensures g.nodes == f.nodes && g.tree == f.tree
    ensures f.current.None? ==> g.current.None?
    ensures f.current.Some? && g.current.Some? ==> f.current.value in g.nodes[g.current.value].children
    ensures f.current.Some? && g.current.None? ==> f.current.value in g.tree
  {
    match f.current
    case None => f
    case Some(c) => f.(current := f.nodes[c].parent)
  }

  /** The handler for one callback. */
  function Step(f: Forest, e: Event): (g: Forest)
    requires WellFormed(f)
    ensures WellFormed(g)
  {
    match e
    case OpenTag(name, attrs) => Open(f, name, attrs)
    case Text(text) => AddTexts(f, Segmenter.Segments(text))
    case CloseTag(_) => Close(f)
  }

  /** What `parse` has built after the callbacks `events`. */
  function Build(events: seq<Event>): (f: Forest)
    ensures WellFormed(f)
  {
    if events == [] then Empty else Step(Build(events[..|events| - 1]), events[|events| - 1])
  }

  lemma AttachKeeps(f: Forest, node: Node)
    requires WellFormed(f)
    requires node.TagNode? ==> node.children == [] && node.parent == f.current
    ensures WellFormed(Attach(f, node))
  {
    var g := Attach(f, node);
    var idx := |f.nodes|;
    forall i | 0 <= i < |g.nodes| && IsTag(g.nodes, i)
      ensures ParentLinked(g, i)
    {
      if i < idx {
        assert IsTag(f.nodes, i) && ParentLinked(f, i);
        match f.nodes[i].parent
        case None =>
        case Some(p) =>
          assert g.nodes[p].children[..|f.nodes[p].children|] == f.nodes[p].children;
      }
    }
  }

  /** The attached node is the last child of the open element, or the last
      top-level node when no element is open; no other node changes. */
  lemma AttachedLast(f: Forest, node: Node)
    requires WellFormed(f)
    ensures var g := Attach(f, node);
      && g.nodes == (match f.current
                     case None => f.nodes
                     case Some(c) => f.nodes[c := f.nodes[c].(children := f.nodes[c].children + [|f.nodes|])])
                    + [node]
      && g.tree == (if f.current.None? then f.tree + [|f.nodes|] else f.tree)
  {
  }

  /** Closing what was just opened makes the previous element current again. */
  lemma OpenThenClose(f: Forest, name: string, closing: string, attrs: seq<(string, string)>)
    requires WellFormed(f)
    ensures Step(Step(f, OpenTag(name, attrs)), CloseTag(closing)).current == f.current
  {
  }

  /** A text event adds one text node per segment, in order, escaped, and
      leaves the open element open. */
  lemma {:induction false} TextNodes(f: Forest, texts: seq<string>, k: nat)
    requires WellFormed(f) && k < |texts|
    ensures AddTexts(f, texts).nodes[|f.nodes| + k] == TextNode(EscapeQuotes(texts[k]))
    decreases |texts|
  {
    if k < |texts| - 1 {
      TextNodes(f, texts[..|texts| - 1], k);
      var g := AddTexts(f, texts[..|texts| - 1]);
      assert AddTexts(f, texts) == AddText(g, texts[|texts| - 1]);
    }
  }

  /** `b` is node `a` after later callbacks: a text node is unchanged, a tag
      keeps its name, attributes and parent and its children list only grows
      at the end. */
  predicate Grows(a: Node, b: Node) {
    match a
    case TextNode(_) => b == a
    case TagNode(name, attributes, children, parent) =>
      && b.TagNode? && b.name == name && b.attributes == attributes && b.parent == parent
      && |children| <= |b.children| && b.children[..|children|] == children
  }

  lemma GrowsTrans(a: Node, b: Node, c: Node)
    requires Grows(a, b) && Grows(b, c)
    ensures Grows(a, c)
  {
    if a.TagNode? {
      assert c.children[..|a.children|] == c.children[..|b.children|][..|a.children|];
    }
  }

  lemma AttachGrows(f: Forest, node: Node, i: nat)
    requires WellFormed(f) && i < |f.nodes|
    ensures Grows(f.nodes[i], Attach(f, node).nodes[i])
  {
    var n := Attach(f, node).nodes[i];
    if f.nodes[i].TagNode? {
      assert n.children[..|f.nodes[i].children|] == f.nodes[i].children;
    }
  }

  /** A node already built is never replaced: later callbacks only append
      to children lists and move `current`. */
  lemma StepKeepsNodes(f: Forest, e: Event, i: nat)
    requires WellFormed(f) && i < |f.nodes|
    ensures i < |Step(f, e).nodes| && Grows(f.nodes[i], Step(f, e).nodes[i])
  {
    match e
    case OpenTag(name, attrs) => AttachGrows(f, TagNode(name, attrs, [], f.current), i);
    case Text(text) => AddTextsKeepsNodes(f, Segmenter.Segments(text), i);
    case CloseTag(_) =>
  }

  lemma {:induction false} AddTextsKeepsNodes(f: Forest, texts: seq<string>, i: nat)
    requires WellFormed(f) && i < |f.nodes|
    ensures Grows(f.nodes[i], AddTexts(f, texts).nodes[i])
    decreases |texts|
  {
    if texts == [] {
      if f.nodes[i].TagNode? {
        assert f.nodes[i].children[..|f.nodes[i].children|] == f.nodes[i].children;
      }
    } else {
      AddTextsKeepsNodes(f, texts[..|texts| - 1], i);
      var g := AddTexts(f, texts[..|texts| - 1]);
      AttachGrows(g, TextNode(EscapeQuotes(texts[|texts| - 1])), i);
      GrowsTrans(f.nodes[i], g.nodes[i], AddTexts(f, texts).nodes[i]);
    }
  }

  /** A close tag with no element open changes nothing. */
  lemma StrayCloseIgnored(f: Forest, name: string)
    requires WellFormed(f) && f.current.None?
    ensures Step(f, CloseTag(name)) == f
  {
  }

  /** Nothing before index `n` can change any more: the open element, and
      the parent of every tag from `n` on, is at `n` or after. */
  predicate Settled(f: Forest, n: nat) {
    && n <= |f.nodes|
    && (f.current.Some? ==> f.current.value >= n)
    && forall j :: n <= j < |f.nodes| && f.nodes[j].TagNode? && f.nodes[j].parent.Some? ==>
         f.nodes[j].parent.value >= n
  }

  /** `g` extends `f` without touching its first `n` nodes or its top-level
      list. */
  predicate KeepsPrefix(f: Forest, g: Forest, n: nat)
    requires n <= |f.nodes|
  {
    n <= |g.nodes| && g.nodes[..n] == f.nodes[..n]
    && |f.tree| <= |g.tree| && g.tree[..|f.tree|] == f.tree
  }

  lemma AttachSettled(f: Forest, node: Node, n: nat)
    requires WellFormed(f) && Settled(f, n)
    requires node.TagNode? ==> node.parent == f.current
    ensures Settled(Attach(f, node), n) && KeepsPrefix(f, Attach(f, node), n)
  {
    var g := Attach(f, node);
    AttachedLast(f, node);
    assert g.nodes[..n] == f.nodes[..n];
    forall j | n <= j < |g.nodes| && g.nodes[j].TagNode? && g.nodes[j].parent.Some?
      ensures g.nodes[j].parent.value >= n
    {
      if j < |f.nodes| {
        AttachGrows(f, node, j);
      }
    }
  }

  lemma {:induction false} AddTextsSettled(f: Forest, texts: seq<string>, n: nat)
    requires WellFormed(f) && Settled(f, n)
    ensures Settled(AddTexts(f, texts), n) && KeepsPrefix(f, AddTexts(f, texts), n)
    decreases |texts|
  {
    if texts != [] {
      var g := AddTexts(f, texts[..|texts| - 1]);
      AddTextsSettled(f, texts[..|texts| - 1], n);
      AttachSettled(g, TextNode(EscapeQuotes(texts[|texts| - 1])), n);
      var h := AddTexts(f, texts);
      assert h.tree[..|f.tree|] == h.tree[..|g.tree|][..|f.tree|];
    }
  }

  /** Every callback keeps a settled prefix settled and unchanged. */
  lemma StepSettled(f: Forest, e: Event, n: nat)
    requires WellFormed(f) && Settled(f, n)
    ensures Settled(Step(f, e), n) && KeepsPrefix(f, Step(f, e), n)
  {
    match e
    case OpenTag(name, attrs) =>
      AttachSettled(f, TagNode(name, attrs, [], f.current), n);
    case Text(text) =>
      AddTextsSettled(f, Segmenter.Segments(text), n);
    case CloseTag(_) =>
      assert f.tree[..|f.tree|] == f.tree;
  }

  /** Once no element is open, later callbacks leave every node built so far
      and the top-level list built so far as they are. */
  lemma {:induction false} BuildKeepsSettled(first: seq<Event>, later: seq<Event>, n: nat)
    requires Settled(Build(first), n)
    ensures Settled(Build(first + later), n) && KeepsPrefix(Build(first), Build(first + later), n)
    decreases |later|
  {
    var f := Build(first);
    if later == [] {
      assert first + later == first;
      assert f.nodes[..n] == f.nodes[..n] && f.tree[..|f.tree|] == f.tree;
    } else {
      var init := later[..|later| - 1];
      assert (first + later)[..|first + later| - 1] == first + init;
      assert (first + later)[|first + later| - 1] == later[|later| - 1];
      BuildKeepsSettled(first, init, n);
      var g := Build(first + init);
      StepSettled(g, later[|later| - 1], n);
      var h := Build(first + later);
      assert h.nodes[..n] == g.nodes[..n];
      assert h.tree[..|f.tree|] == h.tree[..|g.tree|][..|f.tree|];
    }
  }

  /** The handlers as one object whose fields they update in place. */
  class TreeBuilder {
    var nodes: seq<Node>
    var tree: seq<nat>
    var current: Option<nat>

    function State(): Forest
      reads this
    {
      Forest(nodes, tree, current)
    }

    predicate Valid()
      reads this
    {
      WellFormed(State())
    }

    constructor()
      ensures State() == Empty && Valid()
    {
      nodes := [];
      tree := [];
      current := None;
    }

    method Push(node: Node)
      requires Valid()
      requires node.TagNode? ==> node.children == [] && node.parent == current
      modifies this
      ensures State() == Attach(old(State()), node) && Valid()
    {
      AttachKeeps(State(), node);
      var idx := |nodes|;
      if current.Some? {
        var c := current.value;
        nodes := nodes[c := nodes[c].(children := nodes[c].children + [idx])];
      } else {
        tree := tree + [idx];
      }
      nodes := nodes + [node];
    }

    method OnOpenTag(name: string, attrs: seq<(string, string)>)
      requires Valid()
      modifies this
      ensures State() == Open(old(State()), name, attrs) && Valid()
    {
      var node := TagNode(name, attrs, [], current);
      var idx := |nodes|;
      Push(node);
      current := Some(idx);
    }

    method OnText(text: string)
      requires Valid()
      modifies this
      ensures State() == AddTexts(old(State()), Segmenter.Segments(text)) && Valid()
    {
      var fragments := Segmenter.SegmentText(text);
      for k := 0 to |fragments|
        invariant Valid() && State() == AddTexts(old(State()), fragments[..k])
      {
        assert fragments[..k + 1][..k] == fragments[..k];
        Push(TextNode(EscapeQuotes(fragments[k])));
      }
      assert fragments[..|fragments|] == fragments;
    }

    method OnCloseTag(name: string)
      requires Valid()
      modifies this
      ensures State() == Close(old(State())) && Valid()
    {
      if current.Some? {
        current := nodes[current.value].parent;
      }
    }

    /** The tokenizer invoking the handler registered for `e`. */
    method Handle(e: Event)
      requires Valid()
      modifies this
      ensures State() == Step(old(State()), e) && Valid()
    {
      match e
      case OpenTag(name, attrs) => OnOpenTag(name, attrs);
      case Text(text) => OnText(text);
      case CloseTag(name) => OnCloseTag(name);
    }
  }

  /** `parse`: feed every callback to the handlers and return what they
      built. */
  method Parse(html: string, tokenize: string -> seq<Event>) returns (f: Forest)
    ensures f == Build(tokenize(html))
  {
    var events := tokenize(html);
    var builder := new TreeBuilder();
    for k := 0 to |events|
      invariant builder.Valid() && builder.State() == Build(events[..k])
    {
      assert events[..k + 1][..k] == events[..k];
      builder.Handle(events[k]);
    }
    assert events[..|events|] == events;
    f := builder.State();
  }
}
