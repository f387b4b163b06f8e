/** The JavaScript string primitives the compiler is built from, each with the
    ECMAScript behaviour the templates can reach, over strings of Unicode
    scalar values rather than UTF-16 code units: `indexOf`, `slice`,
    `substring`, `trim`, `split` on a one-character separator, `join`,
    `replace` with a string pattern (first occurrence only) and the literal
    global regular expressions used for rewriting. */
module JsStrings {

  datatype Option<+T> = None | Some(value: T)

  // ---------------------------------------------------------------------
  // Searching
  // ---------------------------------------------------------------------

  /** `p` occurs in `s` starting at index `j`. */
  predicate OccursAt(s: string, p: string, j: int) {
    0 <= j && j + |p| <= |s| && s[j..j + |p|] == p
  }

  /** `s.indexOf(p, from)`: the first occurrence at or after `from`, or -1. */
  function IndexOfFrom(s: string, p: string, from: nat): (r: int)
    requires from <= |s|
    decreases |s| - from
    ensures r == -1 || (from <= r && OccursAt(s, p, r))
    ensures r == -1 ==> forall j :: from <= j ==> !OccursAt(s, p, j)
    ensures r >= 0 ==> forall j :: from <= j < r ==> !OccursAt(s, p, j)
  {
    if from + |p| > |s| then -1
    else if s[from..from + |p|] == p then from
    else IndexOfFrom(s, p, from + 1)
  }

  /** `s.indexOf(p)`. */
  function IndexOf(s: string, p: string): (r: int)
    ensures r == -1 || OccursAt(s, p, r)
    ensures r == -1 <==> forall j :: !OccursAt(s, p, j)
    ensures r >= 0 ==> forall j :: j < r ==> !OccursAt(s, p, j)
  {
    IndexOfFrom(s, p, 0)
  }

  /** `s.indexOf(p) > -1`. */
  predicate Contains(s: string, p: string) {
    IndexOf(s, p) >= 0
  }

  /** `s.indexOf(p) == 0` holds exactly when `s` begins with `p`. */
  lemma IndexOfZero(s: string, p: string)
    ensures IndexOf(s, p) == 0 <==> (|p| <= |s| && s[..|p|] == p)
  {
    if |p| <= |s| && s[..|p|] == p {
      assert OccursAt(s, p, 0);
    }
  }

  /** Nothing before the first occurrence of `p` ends before it does. */
  lemma FirstOccurrence(s: string, p: string)
    requires |p| > 0 && Contains(s, p)
    ensures !Contains(s[..IndexOf(s, p) + |p| - 1], p)
  {
    var k := IndexOf(s, p);
    var t := s[..k + |p| - 1];
    forall j | OccursAt(t, p, j)
      ensures false
    {
      assert s[j..j + |p|] == t[j..j + |p|];
      assert OccursAt(s, p, j);
    }
  }

  /** `s[0]` as JavaScript reads it: `undefined` on the empty string. */
  function First(s: string): Option<char> {
    if |s| == 0 then None else Some(s[0])
  }

  /** `s.slice(-1)` viewed as a character, `None` on the empty string. */
  function Last(s: string): Option<char> {
    if |s| == 0 then None else Some(s[|s| - 1])
  }

  // ---------------------------------------------------------------------
  // Slicing
  // ---------------------------------------------------------------------

  /** How `slice` turns one argument into a position: a negative argument
      counts from the end, and the result is clamped to `[0, len]`. */
  function SliceIndex(i: int, len: nat): (r: nat)
    ensures r <= len
    ensures 0 <= i <= len ==> r == i
    ensures i < 0 && len + i >= 0 ==> r == len + i
  {
    if i < 0 then (if len + i < 0 then 0 else len + i)
    else if i > len then len
    else i
  }

  /** `s.slice(a, b)`. */
  function Slice(s: string, a: int, b: int): (r: string)
    ensures |r| <= |s|
    ensures 0 <= a <= b <= |s| ==> r == s[a..b]
    ensures a < 0 && 0 <= |s| + a <= b <= |s| ==> r == s[|s| + a..b]
    ensures 0 <= a <= |s| + b && b < 0 ==> r == s[a..|s| + b]
    ensures SliceIndex(b, |s|) <= SliceIndex(a, |s|) ==> r == []
  {
    var from := SliceIndex(a, |s|);
    var to := SliceIndex(b, |s|);
    if from < to then s[from..to] else []
  }

  /** `s.slice(a)`. */
  function SliceFrom(s: string, a: int): (r: string)
    ensures r == s[SliceIndex(a, |s|)..]
  {
    Slice(s, a, |s|)
  }

  /** `s.substring(a, b)`: arguments are clamped to `[0, len]` (negative ones
      become 0) and swapped when out of order. */
  function Substring(s: string, a: int, b: int): (r: string)
    ensures 0 <= a <= b <= |s| ==> r == s[a..b]
    ensures a < 0 && 0 <= b <= |s| ==> r == s[..b]
  {
    var x := if a < 0 then 0 else if a > |s| then |s| else a;
    var y := if b < 0 then 0 else if b > |s| then |s| else b;
    if x <= y then s[x..y] else s[y..x]
  }

  // ---------------------------------------------------------------------
  // Whitespace and trimming
  // ---------------------------------------------------------------------

  /** The characters ECMAScript calls WhiteSpace or LineTerminator: what
      `\s` matches, what `\S` excludes and what `trim` removes. */
  predicate IsSpace(c: char) {
    c == ' ' || c == '\t' || c == '\n' || c == '\r' || c == '\U{000B}' || c == '\U{000C}'
    || c == '\U{00A0}' || c == '\U{1680}' || ('\U{2000}' <= c <= '\U{200A}')
    || c == '\U{2028}' || c == '\U{2029}' || c == '\U{202F}' || c == '\U{205F}'
    || c == '\U{3000}' || c == '\U{FEFF}'
  }

  /** The characters the regular-expression `.` does not match. */
  predicate IsLineTerminator(c: char) {
    c == '\n' || c == '\r' || c == '\U{2028}' || c == '\U{2029}'
  }

  function TrimStart(s: string): (r: string)
    ensures |r| <= |s| && r == s[|s| - |r|..]
    ensures r == [] || !IsSpace(r[0])
    ensures forall j :: 0 <= j < |s| - |r| ==> IsSpace(s[j])
  {
    if |s| > 0 && IsSpace(s[0]) then TrimStart(s[1..]) else s
  }

  function TrimEnd(s: string): (r: string)
    ensures |r| <= |s| && r == s[..|r|]
    ensures r == [] || !IsSpace(r[|r| - 1])
    ensures forall j :: |r| <= j < |s| ==> IsSpace(s[j])
  {
    if |s| > 0 && IsSpace(s[|s| - 1]) then TrimEnd(s[..|s| - 1]) else s
  }

  /** `s.trim()`. */
  function Trim(s: string): string {
    TrimEnd(TrimStart(s))
  }

  /** Trimming removes only whitespace, so a non-space character that occurs
      in `s` still occurs in `s.trim()`. */
  lemma {:induction false} TrimKeeps(s: string, c: char)
    requires !IsSpace(c) && c in s
    ensures c in Trim(s)
  {
    var t := TrimStart(s);
    var j :| 0 <= j < |s| && s[j] == c;
    var d := |s| - |t|;
    assert j >= d;
    assert t[j - d] == s[j];
    var u := TrimEnd(t);
    assert j - d < |u|;
    assert u[j - d] == t[j - d];
  }

  /** `indexOf` of a one-character pattern agrees with sequence membership. */
  lemma ContainsChar(s: string, c: char)
    ensures Contains(s, [c]) <==> c in s
  {
    if c in s {
      var j :| 0 <= j < |s| && s[j] == c;
      assert OccursAt(s, [c], j);
    }
    if Contains(s, [c]) {
      var j := IndexOf(s, [c]);
      assert s[j..j + 1] == [c];
      assert s[j] == s[j..j + 1][0] == c;
    }
  }

  // ---------------------------------------------------------------------
  // split and join
  // ---------------------------------------------------------------------

  /** `s.split(c)` for a one-character separator: every piece, empty ones
      included; the pieces before piece `i` use up `i` separators. */
  function SplitChar(s: string, c: char): (r: seq<string>)
    ensures |r| >= 1
    ensures forall i :: 0 <= i < |r| ==> |r[i]| + i <= |s| && c !in r[i]
    ensures c in s ==> |r| >= 2
  {
    if |s| == 0 then [""]
    else
      var rest := SplitChar(s[1..], c);
      if s[0] == c then [""] + rest
      else [[s[0]] + rest[0]] + rest[1..]
  }

  /** `xs.join(sep)`. */
  function Join(xs: seq<string>, sep: string): string {
    if |xs| == 0 then ""
    else if |xs| == 1 then xs[0]
    else xs[0] + sep + Join(xs[1..], sep)
  }

  /** Splitting on a character and joining on it again gives the string back. */
  lemma {:induction false} SplitJoin(s: string, c: char)
    ensures Join(SplitChar(s, c), [c]) == s
  {
    if |s| > 0 {
      SplitJoin(s[1..], c);
      var rest := SplitChar(s[1..], c);
      if s[0] == c {
        assert ([""] + rest)[1..] == rest;
      } else {
        var all := [[s[0]] + rest[0]] + rest[1..];
        if |rest| > 1 {
          assert all[1..] == rest[1..];
          assert Join(rest, [c]) == rest[0] + [c] + Join(rest[1..], [c]);
        }
        assert s == [s[0]] + s[1..];
      }
    }
  }

  /** `xs.filter(keep)`: the elements that pass, in their order. */
  function Filter<T(!new)>(xs: seq<T>, keep: T -> bool): (r: seq<T>)
    ensures |r| <= |xs|
    ensures forall x :: x in r <==> x in xs && keep(x)
  {
    if |xs| == 0 then []
    else (if keep(xs[0]) then [xs[0]] else []) + Filter(xs[1..], keep)
  }

  /** `xs.filter(Boolean)` on strings: the empty string is the only falsy one. */
  function NonEmpty(xs: seq<string>): (r: seq<string>)
    ensures forall x :: x in r <==> x in xs && x != ""
  {
    Filter(xs, (x: string) => x != "")
  }

  // ---------------------------------------------------------------------
  // replace
  // ---------------------------------------------------------------------

  /** `s.replace(p, r)` with a string pattern: only the first occurrence. */
  function ReplaceFirst(s: string, p: string, r: string): (t: string)
    ensures !Contains(s, p) ==> t == s
    ensures Contains(s, p) ==>
      t == s[..IndexOf(s, p)] + r + s[IndexOf(s, p) + |p|..]
  {
    var i := IndexOf(s, p);
    if i < 0 then s else s[..i] + r + s[i + |p|..]
  }

  /** `s.replace(/p/g, r)` for a pattern that is a plain literal: every
      non-overlapping occurrence, scanning left to right. */
  function ReplaceAll(s: string, p: string, r: string): string
    requires |p| > 0
    decreases |s|
  {
    if |s| < |p| then s
    else if s[..|p|] == p then r + ReplaceAll(s[|p|..], p, r)
    else [s[0]] + ReplaceAll(s[1..], p, r)
  }

  /** Replacing the occurrences of a character by nothing removes it. */
  lemma {:induction false} ReplaceAllRemoves(s: string, c: char)
    ensures c !in ReplaceAll(s, [c], "")
    decreases |s|
  {
    if |s| >= 1 {
      ReplaceAllRemoves(s[1..], c);
    }
  }

  /** A string without the pattern comes back unchanged. */
  lemma {:induction false} ReplaceAllAbsent(s: string, p: string, r: string)
    requires |p| > 0 && !Contains(s, p)
    ensures ReplaceAll(s, p, r) == s
    decreases |s|
  {
    if |s| >= |p| {
      assert !OccursAt(s, p, 0);
      forall j ensures !OccursAt(s[1..], p, j) {
        if OccursAt(s[1..], p, j) {
          assert s[j + 1..j + 1 + |p|] == s[1..][j..j + |p|];
          assert OccursAt(s, p, j + 1);
        }
      }
      ReplaceAllAbsent(s[1..], p, r);
    }
  }

  /** `s.replace(/'/g, "\\'")`: every single quote gets a backslash. */
  function EscapeQuotes(s: string): (r: string)
    ensures |r| >= |s|
  {
    if |s| == 0 then ""
    else (if s[0] == '\'' then "\\'" else [s[0]]) + EscapeQuotes(s[1..])
  }

  /** The inverse reading of an escaped string: `\'` stands for `'`. */
  function UnescapeQuotes(s: string): string {
    if |s| >= 2 && s[0] == '\\' && s[1] == '\'' then "'" + UnescapeQuotes(s[2..])
    else if |s| == 0 then ""
    else [s[0]] + UnescapeQuotes(s[1..])
  }

  /** Escaping loses nothing: the original text can be read back. */
  lemma {:induction false} EscapeRoundTrip(s: string)
    ensures UnescapeQuotes(EscapeQuotes(s)) == s
  {
    if |s| > 0 {
      EscapeRoundTrip(s[1..]);
      var rest := EscapeQuotes(s[1..]);
      assert rest == [] || rest[0] != '\'' by {
        if |s| > 1 {
          assert rest[0] == (if s[1] == '\'' then '\\' else s[1]);
        }
      }
      if s[0] == '\'' {
        assert EscapeQuotes(s) == "\\'" + rest;
      } else {
        assert EscapeQuotes(s) == [s[0]] + rest;
      }
    }
  }

  /** Every quote of an escaped string is preceded by a backslash. */
  lemma {:induction false} EscapedQuotesPreceded(s: string, j: nat)
    requires j < |EscapeQuotes(s)| && EscapeQuotes(s)[j] == '\''
    ensures j > 0 && EscapeQuotes(s)[j - 1] == '\\'
  {
    var head := if s[0] == '\'' then "\\'" else [s[0]];
    assert EscapeQuotes(s) == head + EscapeQuotes(s[1..]);
    if j >= |head| {
      EscapedQuotesPreceded(s[1..], j - |head|);
    }
  }

  /** `s.replace(/(this).?/, '')`: the first `this` and, when there is one,
      the character after it (unless that is a line terminator). */
  function RemoveFirstThis(s: string): (r: string)
    ensures !Contains(s, "this") ==> r == s
    ensures Contains(s, "this") ==>
              var k := IndexOf(s, "this");
              && s[k..k + 4] == "this" && !Contains(s[..k + 3], "this")
              && (k + 4 < |s| && !IsLineTerminator(s[k + 4]) ==> r == s[..k] + s[k + 5..])
              && (k + 4 == |s| || IsLineTerminator(s[k + 4]) ==> r == s[..k] + s[k + 4..])
  {
    var k := IndexOf(s, "this");
    if k < 0 then s
    else
      FirstOccurrence(s, "this");
      var e := if k + 4 < |s| && !IsLineTerminator(s[k + 4]) then k + 5 else k + 4;
      s[..k] + s[e..]
  }

  /** `s.replace(/..\//g, 'parent.')`: ANY two characters other than line
      terminators followed by `/` become `parent.`, scanning left to right. */
  function ReplaceParents(s: string): string
    decreases |s|
  {
    if |s| >= 3 && !IsLineTerminator(s[0]) && !IsLineTerminator(s[1]) && s[2] == '/' then
      "parent." + ReplaceParents(s[3..])
    else if |s| == 0 then ""
    else [s[0]] + ReplaceParents(s[1..])
  }

  /** Text without a slash is left alone by the parent rewrite. */
  lemma {:induction false} ReplaceParentsNoSlash(s: string)
    requires '/' !in s
    ensures ReplaceParents(s) == s
  {
    if |s| > 0 {
      ReplaceParentsNoSlash(s[1..]);
    }
  }

  /** Each leading `../` becomes one `parent.`; and so does `ab/`, since the
      regular expression accepts any two characters before the slash. */
  lemma ReplaceParentsStep(a: char, b: char, t: string)
    requires !IsLineTerminator(a) && !IsLineTerminator(b)
    ensures ReplaceParents([a, b, '/'] + t) == "parent." + ReplaceParents(t)
  {
    assert ([a, b, '/'] + t)[3..] == t;
  }

  // ---------------------------------------------------------------------
  // Facts the translators rely on
  // ---------------------------------------------------------------------

  /** Text appended after an occurrence does not move the first occurrence. */
  lemma IndexOfAppend(s: string, t: string, p: string)
    requires Contains(s, p)
    ensures IndexOf(s + t, p) == IndexOf(s, p)
  {
    var i := IndexOf(s, p);
    assert (s + t)[i..i + |p|] == s[i..i + |p|];
    assert OccursAt(s + t, p, i);
    var r := IndexOf(s + t, p);
    assert r <= i;
    assert (s + t)[r..r + |p|] == s[r..r + |p|];
    assert OccursAt(s, p, r);
  }

  /** A pattern whose first character differs from `c` occurs in `[c] + t`
      only where it occurs in `t`. */
  lemma ContainsCons(c: char, t: string, p: string)
    requires |p| > 0 && p[0] != c && !Contains(t, p)
    ensures !Contains([c] + t, p)
  {
    var s := [c] + t;
    forall j | 0 <= j && j + |p| <= |s|
      ensures !OccursAt(s, p, j)
    {
      if j == 0 {
        assert s[j..j + |p|][0] == c;
      } else {
        assert s[j..j + |p|] == t[j - 1..j - 1 + |p|];
        assert !OccursAt(t, p, j - 1);
      }
    }
  }

  /** Splitting text that lacks the separator gives it back whole. */
  lemma {:induction false} SplitCharAbsent(s: string, c: char)
    requires c !in s
    ensures SplitChar(s, c) == [s]
  {
    if |s| > 0 {
      SplitCharAbsent(s[1..], c);
      assert s == [s[0]] + s[1..];
    }
  }

  /** Escaping quotes adds only backslashes and quotes. */
  lemma {:induction false} EscapeKeeps(s: string, c: char)
    requires c != '\\' && c != '\''
    ensures c in EscapeQuotes(s) <==> c in s
  {
    if |s| > 0 {
      EscapeKeeps(s[1..], c);
      var head := if s[0] == '\'' then "\\'" else [s[0]];
      assert EscapeQuotes(s) == head + EscapeQuotes(s[1..]);
      assert s == [s[0]] + s[1..];
    }
  }

  /** A pattern with a character that `s` lacks does not occur in `s`. */
  lemma CharAbsent(s: string, p: string, i: nat)
    requires i < |p| && p[i] !in s
    ensures !Contains(s, p)
  {
    forall j | 0 <= j && j + |p| <= |s|
      ensures !OccursAt(s, p, j)
    {
      assert s[j..j + |p|][i] == s[j + i];
    }
  }

  /** The first occurrence of a character is where it first appears. */
  lemma IndexOfChar(s: string, c: char, i: nat)
    requires i < |s| && s[i] == c && forall j :: 0 <= j < i ==> s[j] != c
    ensures IndexOf(s, [c]) == i
  {
    assert OccursAt(s, [c], i);
    var r := IndexOf(s, [c]);
    assert s[r..r + 1][0] == s[r];
  }

  /** A prefix of `s` that begins with `p` makes `s` begin with `p`. */
  lemma IndexOfZeroPrefix(s: string, n: nat, p: string)
    requires n <= |s| && IndexOf(s[..n], p) == 0
    ensures IndexOf(s, p) == 0
  {
    IndexOfZero(s[..n], p);
    assert s[..|p|] == s[..n][..|p|];
    IndexOfZero(s, p);
  }

  /** Splitting at the first separator: the text before it is the first
      piece. */
  lemma {:induction false} SplitCharAt(a: string, c: char, b: string)
    requires c !in a
    ensures SplitChar(a + [c] + b, c) == [a] + SplitChar(b, c)
  {
    if |a| == 0 {
      assert a + [c] + b == [c] + b;
      assert ([c] + b)[1..] == b;
    } else {
      SplitCharAt(a[1..], c, b);
      assert (a + [c] + b)[1..] == a[1..] + [c] + b;
      assert a == [a[0]] + a[1..];
    }
  }

  /** A pattern whose first character the text before it lacks is first
      found right after that text. */
  lemma IndexOfFirstChar(a: string, p: string, b: string)
    requires |p| > 0 && p[0] !in a
    ensures IndexOf(a + p + b, p) == |a|
  {
    var s := a + p + b;
    assert s[|a|..|a| + |p|] == p;
    assert OccursAt(s, p, |a|);
    forall j | 0 <= j < |a| && j + |p| <= |s|
      ensures !OccursAt(s, p, j)
    {
      assert s[j..j + |p|][0] == s[j] == a[j];
    }
  }

  /** Text without a slash, followed by text whose first two characters are
      not slashes, is kept as it is by the parent rewrite. */
  lemma {:induction false} ReplaceParentsAfter(x: string, y: string)
    requires '/' !in x
    requires forall j :: 0 <= j < 2 && j < |y| ==> y[j] != '/'
    ensures ReplaceParents(x + y) == x + ReplaceParents(y)
  {
    if |x| == 0 {
      assert x + y == y;
    } else {
      var s := x + y;
      if |s| >= 3 {
        if |x| > 2 { assert s[2] == x[2]; } else { assert s[2] == y[2 - |x|]; }
      }
      assert s[1..] == x[1..] + y;
      ReplaceParentsAfter(x[1..], y);
    }
  }

  /** A space before a word without surrounding whitespace is trimmed off. */
  lemma TrimPadded(p: string)
    requires p != [] && !IsSpace(p[0]) && !IsSpace(p[|p| - 1])
    ensures Trim(" " + p) == p
  {
    assert (" " + p)[1..] == p;
  }

  /** A character in neither the text nor the replacement is not in the
      result of a replacement. */
  lemma {:induction false} ReplaceAllLacks(s: string, p: string, r: string, c: char)
    requires |p| > 0 && c !in s && c !in r
    ensures c !in ReplaceAll(s, p, r)
    decreases |s|
  {
    if |s| >= |p| {
      if s[..|p|] == p {
        ReplaceAllLacks(s[|p|..], p, r, c);
      } else {
        ReplaceAllLacks(s[1..], p, r, c);
      }
    }
  }

  /** Text without single quotes needs no escaping. */
  lemma {:induction false} EscapeNoQuote(s: string)
    requires '\'' !in s
    ensures EscapeQuotes(s) == s
  {
    if |s| > 0 {
      EscapeNoQuote(s[1..]);
      assert EscapeQuotes(s) == [s[0]] + EscapeQuotes(s[1..]);
      assert s == [s[0]] + s[1..];
    }
  }

  /** A pattern that starts with a character occurring only once does not
      occur when, at that one place, its `m`-th character is not what
      follows. */
  lemma LoneFirstChar(a: string, c: char, b: string, p: string, m: nat)
    requires 1 <= m < |p| && p[0] == c && c !in a && c !in b
    requires m - 1 < |b| ==> b[m - 1] != p[m]
    ensures !Contains(a + [c] + b, p)
  {
    var s := a + [c] + b;
    forall j | 0 <= j && j + |p| <= |s|
      ensures !OccursAt(s, p, j)
    {
      assert s[j..j + |p|][0] == s[j];
      if j < |a| {
        assert s[j] == a[j];
      } else if j > |a| {
        assert s[j] == b[j - |a| - 1];
      } else {
        assert s[j..j + |p|][m] == s[j + m] == b[m - 1];
      }
    }
  }

  /** Three parts joined by a separator. */
  lemma JoinThree(a: string, b: string, c: string, sep: string)
    ensures Join([a, b, c], sep) == a + sep + b + sep + c
  {
    assert [a, b, c][1..] == [b, c];
    assert [b, c][1..] == [c];
    assert Join([b, c], sep) == b + sep + c;
    assert Join([a, b, c], sep) == a + sep + (b + sep + c);
  }
}
