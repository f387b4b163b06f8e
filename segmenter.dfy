/** The text segmenter of the `ontext` handler (lib/domvm-hbs.js:42-67): a
    text run that holds adjacent `{{…}}` markers is split around them, the
    brace fragments the split leaves behind are re-wrapped, and empty
    fragments are dropped. */
module Segmenter {
  import opened JsStrings
  import opened RegexSplit

  /** `item[0] == "{" && item.length > 1`. */
  predicate OpensBrace(item: string) {
    |item| > 1 && item[0] == '{'
  }

  /** `array[index + 1]`, `None` standing for `undefined` past the end. */
  function NextSlot(arr: seq<string>, i: nat): Option<string> {
    if i + 1 < |arr| then Some(arr[i + 1]) else None
  }

  /** One visit of the `map` callback (lib/domvm-hbs.js:47-59): the value it
      returns, and whether it blanks the next slot of the array being mapped.
      The empty string also stands for `undefined`: both are falsy, and the
      only later step that looks at them is `filter(Boolean)`. */
  function Visit(item: string, next: Option<string>): (v: (string, bool))
    ensures v.1 ==> next == Some("}")
  {
    if item == "" then ("", false)
    else if item == "{" then ("", false)
    else if OpensBrace(item) && next != Some("}") then ("{" + item + "}", false)
    else if OpensBrace(item) && next == Some("}") then ("{{" + item + "}}", true)
    else (item, false)
  }

  /** `arr.map(callback)` from slot `i` on. The callback's write
      `text[index + 1] = ""` goes into the very array being mapped, and `map`
      reads each slot only when it reaches it, so the write is seen. */
  function MapFrom(arr: seq<string>, i: nat): (r: seq<string>)
    requires i <= |arr|
    decreases |arr| - i
    ensures |r| == |arr| - i
  {
    if i == |arr| then []
    else
      var v := Visit(arr[i], NextSlot(arr, i));
      [v.0] + MapFrom(if v.1 then arr[i + 1 := ""] else arr, i + 1)
  }

  /** One step of the `map`. */
  lemma MapFromStep(arr: seq<string>, i: nat)
    requires i < |arr|
    ensures var v := Visit(arr[i], NextSlot(arr, i));
      MapFrom(arr, i) == [v.0] + MapFrom(if v.1 then arr[i + 1 := ""] else arr, i + 1)
  {
  }

  /** The filter of lib/domvm-hbs.js:60-62, `item != "{" || item != "}"`. */
  predicate NotBoth(item: string) {
    item != "{" || item != "}"
  }

  /** The fragments one text event turns into, before quote escaping. */
  function Segments(text: string): (r: seq<string>)
    ensures forall x :: x in r ==> x != ""
  {
    var mapped :=
      if HasMatch(text, BraceGroup) then Filter(MapFrom(Split(text, BraceGroup), 0), NotBoth)
      else [text];
    NonEmpty(mapped)
  }

  /** The filter at lib/domvm-hbs.js:60-62 keeps every element: no string is
      both `{` and `}`. */
  lemma {:induction false} NotBothKeepsAll(xs: seq<string>)
    ensures Filter(xs, NotBoth) == xs
  {
    if |xs| > 0 {
      NotBothKeepsAll(xs[1..]);
      assert xs == [xs[0]] + xs[1..];
    }
  }

  /** What slot `i` holds when the callback reaches it: blanked exactly when
      the slot before it opened a brace group and this slot is a lone `}`. */
  function SlotSeen(parts: seq<string>, i: nat): string
    requires i < |parts|
  {
    if 0 < i && OpensBrace(parts[i - 1]) && parts[i] == "}" then "" else parts[i]
  }

  lemma {:induction false} MapFromSeen(parts: seq<string>, arr: seq<string>, i: nat, k: nat)
    requires |arr| == |parts| && i <= k < |parts|
    requires forall j :: i < j < |parts| ==> arr[j] == parts[j]
    requires arr[i] == SlotSeen(parts, i)
    ensures MapFrom(arr, i)[k - i] == Visit(SlotSeen(parts, k), NextSlot(parts, k)).0
    decreases k - i
  {
    assert NextSlot(arr, i) == NextSlot(parts, i);
    var v := Visit(arr[i], NextSlot(arr, i));
    if k > i {
      var arr' := if v.1 then arr[i + 1 := ""] else arr;
      assert arr'[i + 1] == SlotSeen(parts, i + 1);
      assert MapFrom(arr, i)[k - i] == MapFrom(arr', i + 1)[k - (i + 1)];
      MapFromSeen(parts, arr', i + 1, k);
    }
  }

  /** The mapped array in closed form: slot `k` is the callback applied to
      what the slot holds when it is reached and to the original next slot. */
  lemma MappedAt(parts: seq<string>, k: nat)
    requires k < |parts|
    ensures MapFrom(parts, 0)[k] == Visit(SlotSeen(parts, k), NextSlot(parts, k)).0
  {
    MapFromSeen(parts, parts, 0, k);
  }

  /** A lone `{` fragment is dropped. */
  lemma LoneOpenBraceDropped(parts: seq<string>, k: nat)
    requires k < |parts| && parts[k] == "{"
    ensures MapFrom(parts, 0)[k] == ""
  {
    MappedAt(parts, k);
  }

  /** A `{x}` fragment not followed by a lone `}` becomes `{{x}}`. */
  lemma GroupRewrapped(parts: seq<string>, k: nat)
    requires k < |parts| && OpensBrace(parts[k]) && NextSlot(parts, k) != Some("}")
    ensures MapFrom(parts, 0)[k] == "{" + parts[k] + "}"
  {
    MappedAt(parts, k);
  }

  /** A `{x}` fragment followed by a lone `}` becomes `{{{x}}}`, and that `}`
      fragment is erased. */
  lemma GroupTripled(parts: seq<string>, k: nat)
    requires k + 1 < |parts| && OpensBrace(parts[k]) && parts[k + 1] == "}"
    ensures MapFrom(parts, 0)[k] == "{{" + parts[k] + "}}"
    ensures MapFrom(parts, 0)[k + 1] == ""
  {
    MappedAt(parts, k);
    MappedAt(parts, k + 1);
  }

  /** Every captured `{x}` of a text run comes back as the directive `{{x}}`
      it was cut out of, or as `{{{x}}}` when a lone `}` followed it. */
  lemma CaptureRestored(text: string, k: nat)
    requires k < |Split(text, BraceGroup)| && k % 2 == 1
    ensures var parts := Split(text, BraceGroup);
      MapFrom(parts, 0)[k] ==
        if NextSlot(parts, k) == Some("}") then "{{" + parts[k] + "}}" else "{" + parts[k] + "}"
  {
    var parts := Split(text, BraceGroup);
    BraceCaptures(text, k);
    MappedAt(parts, k);
  }

  /** A text run without adjacent markers stays one fragment (or none, when
      it is empty). */
  lemma PlainTextOneSegment(text: string)
    requires !HasMatch(text, BraceGroup) && text != ""
    ensures Segments(text) == [text]
  {
  }

  /** The `map` of lib/domvm-hbs.js:47-59 run over an array, the callback
      blanking the slot after a brace group that a lone `}` follows. */
  method MapInPlace(parts: seq<string>) returns (mapped: seq<string>)
    ensures mapped == MapFrom(parts, 0)
  {
    var a := new string[|parts|](j requires 0 <= j < |parts| => parts[j]);
    assert a[..] == parts;
    mapped := [];
    var i := 0;
    while i < a.Length
      invariant 0 <= i <= a.Length
      invariant mapped + MapFrom(a[..], i) == MapFrom(parts, 0)
    {
      ghost var before := a[..];
      MapFromStep(before, i);
      var next := if i + 1 < a.Length then Some(a[i + 1]) else None;
      var v := Visit(a[i], next);
      if v.1 {
        a[i + 1] := "";
      }
      assert a[..] == if v.1 then before[i + 1 := ""] else before;
      assert MapFrom(before, i) == [v.0] + MapFrom(a[..], i + 1);
      mapped := mapped + [v.0];
      i := i + 1;
    }
  }

  /** The segmenter as the source runs it: split, the in-place `map`, then
      the two filters. */
  method SegmentText(text: string) returns (fragments: seq<string>)
    ensures fragments == Segments(text)
  {
    var mapped: seq<string>;
    if HasMatch(text, BraceGroup) {
      var parts := Split(text, BraceGroup);
      mapped := MapInPlace(parts);
      mapped := Filter(mapped, NotBoth);
    } else {
      mapped := [text];
    }
    fragments := NonEmpty(mapped);
  }
}
