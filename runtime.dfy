/** The runtime the compiled templates call (lib/domvm-hbs-runtime.js): the
    block helpers `if`, `unless` and `each`, `merge`, which copies the own
    properties of its arguments into a fresh object, and the helper table
    that `registerHelper` extends. JavaScript values are modelled as an
    immutable datatype; the callbacks the compiled code passes in are
    function parameters. */
module Runtime {

  /** The JavaScript values a template context holds. Numbers are reals
      (NaN is not modelled); `Fn` is a function value, known by name. */
  datatype Value =
    | Undefined
    | Null
    | Bool(b: bool)
    | Num(n: real)
    | Str(s: string)
    | Obj(fields: map<string, Value>)
    | Arr(items: seq<Value>)
    | Fn(name: string)

  /** JavaScript truthiness: `undefined`, `null`, `false`, `0` and `""` are
      falsy, every object, array and function is truthy. */
  predicate Truthy(v: Value) {
    match v
    case Undefined => false
    case Null => false
    case Bool(b) => b
    case Num(n) => n != 0.0
    case Str(s) => s != ""
    case Obj(_) => true
    case Arr(_) => true
    case Fn(_) => true
  }

  /** `isObject` (lib/domvm-hbs-runtime.js:15-17): the class tag is
      `[object Object]`, which holds for plain objects only, not for arrays,
      functions or primitives. */
  predicate IsObject(v: Value) {
    v.Obj?
  }

  /** A plain object is always truthy, so `if` never hands a falsy scope on. */
  lemma ObjectTruthy(v: Value)
    ensures IsObject(v) ==> Truthy(v)
  {
  }

  // ---------------------------------------------------------------------
  // if and unless
  // ---------------------------------------------------------------------

  /** What a block helper returns: the callback's rendering, or `""`. */
  datatype Block<R> = Rendered(r: R) | EmptyString

  /** The scope a conditional block renders in: the value itself when it is a
      plain object, otherwise the enclosing context. */
  function Scope(context: Value, value: Value): (s: Value)
    ensures IsObject(s) || s == context
  {
    if IsObject(value) then value else context
  }

  /** `methods.if` (lib/domvm-hbs-runtime.js:34-39). */
  function If<R>(context: Value, value: Value, callback: (Value, Value) -> R): (b: Block<R>)
    ensures b.Rendered? <==> Truthy(value)
    ensures b.Rendered? ==> b.r == callback(Scope(context, value), context)
  {
    if Truthy(value) then Rendered(callback(Scope(context, value), context)) else EmptyString
  }

  /** `methods.unless` (lib/domvm-hbs-runtime.js:40-45). */
  function Unless<R>(context: Value, value: Value, callback: (Value, Value) -> R): (b: Block<R>)
    ensures b.Rendered? <==> !Truthy(value)
  {
    if !Truthy(value) then Rendered(callback(Scope(context, value), context)) else EmptyString
  }

  /** A falsy value is never a plain object, so `unless` always renders in
      the enclosing context. */
  lemma UnlessKeepsContext<R>(context: Value, value: Value, callback: (Value, Value) -> R)
    ensures Unless(context, value, callback) ==
      if Truthy(value) then EmptyString else Rendered(callback(context, context))
  {
    if !Truthy(value) {
      assert !IsObject(value);
    }
  }

  /** For one value and one callback, exactly one of `if` and `unless`
      renders, and both pass the same arguments to the callback. */
  lemma IfUnlessComplement<R>(context: Value, value: Value, callback: (Value, Value) -> R)
    ensures If(context, value, callback).Rendered? != Unless(context, value, callback).Rendered?
    ensures If(context, value, callback).Rendered? ==>
      Unless(context, value, callback) == EmptyString
  {
  }

  /** `if` renders an object value in its own scope. */
  lemma IfObjectScope<R>(context: Value, fields: map<string, Value>, callback: (Value, Value) -> R)
    ensures If(context, Obj(fields), callback) == Rendered(callback(Obj(fields), context))
  {
  }

  // ---------------------------------------------------------------------
  // each
  // ---------------------------------------------------------------------

  /** The `options` object `each` passes with every item. */
  datatype EachOptions = EachOptions(index: nat, first: bool, last: bool)

  /** The options for item `i` of `n` (lib/domvm-hbs-runtime.js:48-51). */
  function OptionsAt(i: nat, n: nat): (o: EachOptions)
    ensures o.index == i
    ensures o.first <==> i == 0
    ensures o.last <==> i + 1 == n
  {
    EachOptions(i, i == 0, i == n - 1)
  }

  /** Why `each` cannot run: its value has no `map` method. */
  datatype EachError = NotAnArray(value: Value)

  datatype EachResult<R> = Mapped(rendered: seq<R>) | EachFailed(error: EachError)

  /** `methods.each` (lib/domvm-hbs-runtime.js:46-54): `value.map(...)`,
      which throws when the value is not an array. */
  function Each<R>(context: Value, value: Value, callback: (Value, Value, EachOptions) -> R): (r: EachResult<R>)
    ensures r.Mapped? <==> value.Arr?
    ensures r.Mapped? ==> |r.rendered| == |value.items|
    ensures r.Mapped? ==> forall i :: 0 <= i < |r.rendered| ==>
      r.rendered[i] == callback(value.items[i], context, OptionsAt(i, |value.items|))
  {
    match value
    case Arr(items) =>
      Mapped(seq(|items|, i requires 0 <= i < |items| => callback(items[i], context, OptionsAt(i, |items|))))
    case _ => EachFailed(NotAnArray(value))
  }

  /** An item is both first and last exactly when the array has one item. */
  lemma FirstAndLast(i: nat, n: nat)
    requires i < n
    ensures OptionsAt(i, n).first && OptionsAt(i, n).last <==> n == 1
  {
  }

  /** Exactly one item of a non-empty array is marked first and exactly one
      is marked last. */
  lemma OneFirstOneLast(n: nat, i: nat, j: nat)
    requires i < n && j < n
    ensures OptionsAt(i, n).first && OptionsAt(j, n).first ==> i == j
    ensures OptionsAt(i, n).last && OptionsAt(j, n).last ==> i == j
    ensures 0 < n ==> OptionsAt(0, n).first && OptionsAt(n - 1, n).last
  {
  }

  /** `each` over a concatenation renders the first part as it would on its
      own, with the `@last` flag of its final item cleared. */
  lemma {:induction false} EachPrefix<R>(context: Value, xs: seq<Value>, ys: seq<Value>,
                                          callback: (Value, Value, EachOptions) -> R)
    requires ys != []
    ensures var whole := Each(context, Arr(xs + ys), callback).rendered;
      forall i :: 0 <= i < |xs| ==>
        whole[i] == callback(xs[i], context, EachOptions(i, i == 0, false))
  {
    var whole := Each(context, Arr(xs + ys), callback).rendered;
    forall i | 0 <= i < |xs|
      ensures whole[i] == callback(xs[i], context, EachOptions(i, i == 0, false))
    {
      assert (xs + ys)[i] == xs[i];
      assert OptionsAt(i, |xs + ys|) == EachOptions(i, i == 0, false);
    }
  }

  // ---------------------------------------------------------------------
  // merge
  // ---------------------------------------------------------------------

  /** The decimal text of an index, the key a `for ... in` loop yields for
      an array element or a string character. */
  function Decimal(n: nat): (d: string)
    ensures |d| >= 1
    ensures n < 10 <==> |d| == 1
  {
    if n < 10 then [Digit(n)] else Decimal(n / 10) + [Digit(n % 10)]
  }

  function Digit(d: nat): char
    requires d < 10
  {
    (48 + d) as char
  }

  /** Different indices have different keys. */
  lemma {:induction false} DecimalInjective(a: nat, b: nat)
    ensures Decimal(a) == Decimal(b) ==> a == b
  {
    if Decimal(a) == Decimal(b) && a >= 10 && b >= 10 {
      var da, db := Decimal(a / 10), Decimal(b / 10);
      assert Decimal(a)[..|da|] == da;
      assert Decimal(b)[..|db|] == db;
      assert Decimal(a)[|da|] == Digit(a % 10);
      assert Decimal(b)[|db|] == Digit(b % 10);
      DecimalInjective(a / 10, b / 10);
    }
  }

  /** The keys `for ... in` visits that pass `hasOwnProperty`, with their
      values: an object's own properties, an array's or a string's indices;
      `undefined`, `null`, booleans, numbers and functions have none. */
  function OwnEntries(v: Value): map<string, Value> {
    match v
    case Obj(fields) => fields
    case Arr(items) => IndexEntries(items)
    case Str(s) => IndexEntries(seq(|s|, i requires 0 <= i < |s| => Str([s[i]])))
    case _ => map[]
  }

  /** The entries `"0"`, `"1"`, ... up to `|items| - 1`. */
  function IndexEntries(items: seq<Value>): map<string, Value> {
    if items == [] then map[]
    else IndexEntries(items[..|items| - 1])[Decimal(|items| - 1) := items[|items| - 1]]
  }

  /** An array or a string enumerates each of its indices, as its decimal
      key holding the element at that index. */
  lemma {:induction false} IndexEntriesHas(items: seq<Value>, i: nat)
    requires i < |items|
    ensures Decimal(i) in IndexEntries(items) && IndexEntries(items)[Decimal(i)] == items[i]
  {
    var n := |items| - 1;
    var front := items[..n];
    assert IndexEntries(items) == IndexEntries(front)[Decimal(n) := items[n]];
    if i < n {
      IndexEntriesHas(front, i);
      DecimalInjective(i, n);
      assert front[i] == items[i];
    }
  }

  /** ... and no other key. */
  lemma {:induction false} IndexEntriesOnly(items: seq<Value>, k: string)
    requires k in IndexEntries(items)
    ensures exists i :: 0 <= i < |items| && k == Decimal(i)
  {
    var n := |items| - 1;
    var front := items[..n];
    assert IndexEntries(items) == IndexEntries(front)[Decimal(n) := items[n]];
    if k != Decimal(n) {
      IndexEntriesOnly(front, k);
      var i :| 0 <= i < |front| && k == Decimal(i);
      assert i < |items|;
    }
  }

  /** What `merge(args...)` returns (lib/domvm-hbs-runtime.js:58-71): the
      own entries of every argument, a later argument overriding an earlier
      one. */
  function Merged(args: seq<Value>): map<string, Value> {
    if args == [] then map[]
    else Merged(args[..|args| - 1]) + OwnEntries(args[|args| - 1])
  }

  /** `methods.merge`: a fresh object, filled argument by argument and key
      by key. The arguments are values, so nothing the caller holds changes. */
  method Merge(args: seq<Value>) returns (r: Value)
    ensures r == Obj(Merged(args))
    ensures args == [] ==> r == Obj(map[])
  {
    var obj: map<string, Value> := map[];
    var i := 0;
    while i < |args|
      invariant 0 <= i <= |args|
      invariant obj == Merged(args[..i])
    {
      var own := OwnEntries(args[i]);
      var pending := own.Keys;
      while pending != {}
        invariant pending <= own.Keys
        invariant obj == Merged(args[..i]) + (own - pending)
        decreases pending
      {
        var key :| key in pending;
        obj := obj[key := own[key]];
        pending := pending - {key};
      }
      assert own - {} == own;
      assert args[..i + 1][..i] == args[..i];
      i := i + 1;
    }
    assert args[..|args|] == args;
    r := Obj(obj);
  }

  /** A key is in the merged object exactly when some argument owns it. */
  lemma {:induction false} MergedKeys(args: seq<Value>, k: string)
    ensures k in Merged(args) <==> exists i :: 0 <= i < |args| && k in OwnEntries(args[i])
  {
    if args != [] {
      var front := args[..|args| - 1];
      MergedKeys(front, k);
      if k in Merged(front) {
        var i :| 0 <= i < |front| && k in OwnEntries(front[i]);
        assert args[i] == front[i];
      }
      if exists i :: 0 <= i < |args| && k in OwnEntries(args[i]) {
        var i :| 0 <= i < |args| && k in OwnEntries(args[i]);
        if i < |front| {
          assert front[i] == args[i];
        }
      }
    }
  }

  /** Each key takes its value from the last argument that owns it. */
  lemma {:induction false} MergedLastOwner(args: seq<Value>, i: nat, k: string)
    requires i < |args| && k in OwnEntries(args[i])
    requires forall j :: i < j < |args| ==> k !in OwnEntries(args[j])
    ensures k in Merged(args) && Merged(args)[k] == OwnEntries(args[i])[k]
  {
    var front := args[..|args| - 1];
    if i < |args| - 1 {
      assert front[i] == args[i];
      forall j | i < j < |front|
        ensures k !in OwnEntries(front[j])
      {
        assert front[j] == args[j];
      }
      MergedLastOwner(front, i, k);
    }
  }

  /** `merge(context)`, as a partial call uses it, copies an object. */
  lemma MergeCopies(fields: map<string, Value>)
    ensures Merged([Obj(fields)]) == fields
  {
    assert [Obj(fields)][..0] == [];
  }

  /** Merging in one more argument overrides exactly its own keys. */
  lemma MergedAppend(args: seq<Value>, v: Value, k: string)
    ensures k in Merged(args + [v]) <==> k in Merged(args) || k in OwnEntries(v)
    ensures k in OwnEntries(v) ==> Merged(args + [v])[k] == OwnEntries(v)[k]
    ensures k !in OwnEntries(v) && k in Merged(args) ==> Merged(args + [v])[k] == Merged(args)[k]
  {
    assert (args + [v])[..|args|] == args;
  }

  /** An array merges in under its indices. */
  lemma MergedArray(items: seq<Value>, i: nat)
    requires i < |items|
    ensures Decimal(i) in Merged([Arr(items)]) && Merged([Arr(items)])[Decimal(i)] == items[i]
  {
    assert [Arr(items)][..0] == [];
    IndexEntriesHas(items, i);
  }

  // ---------------------------------------------------------------------
  // The helper table
  // ---------------------------------------------------------------------

  /** What a helper name refers to: one of the built-in methods, or a
      handler registered by the application, known by an identity. */
  datatype Handler = IfHelper | UnlessHelper | EachHelper | MergeHelper | Registered(id: nat)

  /** The table after `methods[name] = handler`. */
  function WithHelper(methods: map<string, Handler>, name: string, handler: Handler): (m: map<string, Handler>)
    ensures m.Keys == methods.Keys + {name}
    ensures m[name] == handler
    ensures forall other :: other in methods && other != name ==> m[other] == methods[other]
  {
    methods[name := handler]
  }

  /** Registering twice under one name keeps the later handler only. */
  lemma ReRegister(methods: map<string, Handler>, name: string, h1: Handler, h2: Handler)
    ensures WithHelper(WithHelper(methods, name, h1), name, h2) == WithHelper(methods, name, h2)
  {
  }

  /** Registrations under different names commute. */
  lemma RegisterCommutes(methods: map<string, Handler>, a: string, ha: Handler, b: string, hb: Handler)
    requires a != b
    ensures WithHelper(WithHelper(methods, a, ha), b, hb) == WithHelper(WithHelper(methods, b, hb), a, ha)
  {
  }

  /** `domvm_hbs_runtime.methods` (lib/domvm-hbs-runtime.js:33-72) and
      `registerHelper` (lib/domvm-hbs-runtime.js:28-30), which writes into
      it. */
  class HelperTable {
    var methods: map<string, Handler>

    /** The built-in helpers. */
    predicate HasBuiltins()
      reads this
    {
      "if" in methods && "unless" in methods && "each" in methods && "merge" in methods
    }

    constructor ()
      ensures methods == map["if" := IfHelper, "unless" := UnlessHelper,
                             "each" := EachHelper, "merge" := MergeHelper]
      ensures HasBuiltins()
    {
      methods := map["if" := IfHelper, "unless" := UnlessHelper,
                     "each" := EachHelper, "merge" := MergeHelper];
    }

    /** `registerHelper(name, handler)`: a new name is added, an existing
        one, built-ins included, is replaced. */
    method RegisterHelper(name: string, handler: Handler)
      modifies this
      ensures methods == WithHelper(old(methods), name, handler)
      ensures old(HasBuiltins()) ==> HasBuiltins()
    {
      methods := methods[name := handler];
    }
  }
}
