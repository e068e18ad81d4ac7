/** The slice of Python's built-in semantics the tool relies on: JSON values as
    `json` decodes them, truthiness and `or`, `dict.get`, `float()`, and the
    `str` methods `in`, `find`, `split`, `strip` and `replace`. */
module Builtins {

  datatype Option<+T> = None | Some(value: T)

  /** A value decoded from JSON. Numbers are kept as exact reals. */
  datatype Json =
    | Null
    | Bool(b: bool)
    | Num(n: real)
    | Str(s: string)
    | Arr(items: seq<Json>)
    | Obj(fields: map<string, Json>)

  /** Python truthiness of a decoded JSON value. */
  predicate Truthy(v: Json) {
    match v
    case Null => false
    case Bool(b) => b
    case Num(n) => n != 0.0
    case Str(s) => s != ""
    case Arr(a) => a != []
    case Obj(m) => m != map[]
  }

  /** Python's `a or b`: the first operand when it is truthy, else the second. */
  function Or(a: Json, b: Json): (r: Json)
    ensures Truthy(r) <==> Truthy(a) || Truthy(b)
    ensures Truthy(a) ==> r == a
    ensures !Truthy(a) ==> r == b
  {
    if Truthy(a) then a else b
  }

  /** `d.get(k)`: the value under `k`, or None. */
  function Get(d: map<string, Json>, k: string): Json {
    if k in d then d[k] else Null
  }

  /** `d.get(k, default)`. */
  function GetOr(d: map<string, Json>, k: string, default: Json): Json {
    if k in d then d[k] else default
  }

  /** Behaviour of the interpreter that the model leaves abstract: parsing a
      string with `float()` (None when it raises ValueError) and `str()` of a
      value that is not already a string. */
  datatype Runtime = Runtime(parseFloat: string -> Option<real>, render: Json -> string)

  /** `float(v)`; None when it raises (TypeError or ValueError). */
  function ToFloat(v: Json, rt: Runtime): Option<real> {
    match v
    case Null => None
    case Bool(b) => Some(if b then 1.0 else 0.0)
    case Num(n) => Some(n)
    case Str(s) => rt.parseFloat(s)
    case Arr(_) => None
    case Obj(_) => None
  }

  /** `str(v)`. */
  function StrOf(v: Json, rt: Runtime): string {
    if v.Str? then v.s else rt.render(v)
  }

  // ---------------------------------------------------------------------------
  // Strings
  // ---------------------------------------------------------------------------

  /** The characters for which Python's `str.isspace()` holds: what `strip()`
      removes and what `\s` matches in a `str` pattern. */
  predicate IsSpace(c: char) {
    c == ' ' || ('\t' <= c <= '\r') || ('\U{1C}' <= c <= '\U{1F}')
    || c == '\U{85}' || c == '\U{A0}' || c == '\U{1680}'
    || ('\U{2000}' <= c <= '\U{200A}') || c == '\U{2028}' || c == '\U{2029}'
    || c == '\U{202F}' || c == '\U{205F}' || c == '\U{3000}'
  }

  function StripLeft(s: string): (r: string)
    ensures |r| <= |s| && r == s[|s| - |r|..]
    ensures r == [] || !IsSpace(r[0])
    ensures forall i :: 0 <= i < |s| - |r| ==> IsSpace(s[i])
  {
    if s != [] && IsSpace(s[0]) then StripLeft(s[1..]) else s
  }

  function StripRight(s: string): (r: string)
    ensures |r| <= |s| && r == s[..|r|]
    ensures r == [] || !IsSpace(r[|r| - 1])
    ensures forall i :: |r| <= i < |s| ==> IsSpace(s[i])
  {
    if s != [] && IsSpace(s[|s| - 1]) then StripRight(s[..|s| - 1]) else s
  }

  /** `s.strip()`. */
  function Strip(s: string): (r: string)
    ensures |r| <= |s|
    ensures r == [] || (!IsSpace(r[0]) && !IsSpace(r[|r| - 1]))
  {
    StripBothEnds(s);
    StripRight(StripLeft(s))
  }

  /** `strip` cuts only whitespace, from either end of the input: the
      result is the slice that starts where `StripLeft` stopped. */
  lemma StripBothEnds(s: string)
    ensures var r := StripRight(StripLeft(s));
      r == [] || (!IsSpace(r[0]) && !IsSpace(r[|r| - 1]))
    ensures var r := StripRight(StripLeft(s));
      var k := |s| - |StripLeft(s)|;
      0 <= k <= |s| - |r| && s[k..][..|r|] == r
      && (forall i :: 0 <= i < k ==> IsSpace(s[i]))
      && (forall i :: k + |r| <= i < |s| ==> IsSpace(s[i]))
  {
    var t := StripLeft(s);
    var r := StripRight(t);
    var k := |s| - |t|;
    assert r == [] || r[0] == t[0];
    assert s[k..] == t;
    forall i | k + |r| <= i < |s| ensures IsSpace(s[i]) {
      assert s[i] == t[i - k];
    }
  }

  predicate StartsWith(s: string, prefix: string) {
    |prefix| <= |s| && s[..|prefix|] == prefix
  }

  /** `sub` occurs in `s` at index `i`. */
  predicate OccursAt(s: string, sub: string, i: int) {
    0 <= i && i + |sub| <= |s| && s[i..i + |sub|] == sub
  }

  /** `s.find(sub, from)`: the first index at or after `from` where `sub` occurs. */
  function Find(s: string, sub: string, from: nat): (r: Option<nat>)
    decreases |s| - from
    ensures r.Some? ==> from <= r.value && OccursAt(s, sub, r.value)
    ensures forall j :: from <= j && (r.None? || j < r.value) ==> !OccursAt(s, sub, j)
  {
    if from + |sub| > |s| then None
    else if s[from..from + |sub|] == sub then Some(from)
    else Find(s, sub, from + 1)
  }

  /** Python's `sub in s`. */
  predicate In(sub: string, s: string) {
    Find(s, sub, 0).Some?
  }

  lemma InIff(sub: string, s: string)
    ensures In(sub, s) <==> exists j :: OccursAt(s, sub, j)
  {
  }

  lemma OccursIn(s: string, sub: string, j: int)
    requires OccursAt(s, sub, j)
    ensures In(sub, s)
  {
  }

  /** The first occurrence is the one with none before it. */
  lemma FindFirst(s: string, sub: string, k: nat)
    requires OccursAt(s, sub, k)
    requires forall j | 0 <= j < k :: !OccursAt(s, sub, j)
    ensures Find(s, sub, 0) == Some(k)
  {
  }

  /** The pieces joined back with `sep` between them: the inverse of `Split`. */
  function Join(parts: seq<string>, sep: string): string
    requires |parts| >= 1
  {
    if |parts| == 1 then parts[0] else parts[0] + sep + Join(parts[1..], sep)
  }

  /** `s.split(sep)` for a non-empty separator: cut at each occurrence found
      scanning left to right, occurrences not overlapping. */
  function Split(s: string, sep: string): (parts: seq<string>)
    requires sep != []
    decreases |s|
    ensures |parts| >= 1
    ensures Join(parts, sep) == s
    ensures forall i :: 0 <= i < |parts| ==> !In(sep, parts[i])
    ensures |parts| == 1 <==> Find(s, sep, 0).None?
    ensures |parts| > 1 ==> Find(s, sep, 0) == Some(|parts[0]|)
  {
    match Find(s, sep, 0)
    case None => [s]
    case Some(k) =>
      var rest := Split(s[k + |sep|..], sep);
      assert !In(sep, s[..k]) by {
        forall j | OccursAt(s[..k], sep, j) ensures false {
          assert OccursAt(s, sep, j);
        }
      }
      assert s == s[..k] + sep + s[k + |sep|..];
      [s[..k]] + rest
  }

  /** `s.replace(old, new)` for a non-empty `old`. */
  /** Where `split` cuts: the first part ends at the first occurrence of
      the separator, and the remaining parts are the split of what follows
      that occurrence. */
  lemma SplitCutsAtFirst(s: string, sep: string)
    requires sep != []
    ensures var parts := Split(s, sep);
      |parts| > 1 ==> Find(s, sep, 0) == Some(|parts[0]|) && |parts[0]| + |sep| <= |s|
                      && parts[1..] == Split(s[|parts[0]| + |sep|..], sep)
  {
    var parts := Split(s, sep);
    if |parts| > 1 {
      var k := Find(s, sep, 0).value;
      assert parts == [s[..k]] + Split(s[k + |sep|..], sep);
    }
  }

  function ReplaceAll(s: string, pat: string, rep: string): string
    requires pat != []
    decreases |s|
  {
    if |s| < |pat| then s
    else if s[..|pat|] == pat then rep + ReplaceAll(s[|pat|..], pat, rep)
    else [s[0]] + ReplaceAll(s[1..], pat, rep)
  }

  // ---------------------------------------------------------------------------
  // Lemmas about the string operations
  // ---------------------------------------------------------------------------

  /** An occurrence in the left operand of a concatenation survives it. */
  lemma InConcatLeft(sub: string, a: string, b: string)
    requires In(sub, a)
    ensures In(sub, a + b)
  {
    var j := Find(a, sub, 0).value;
    assert (a + b)[j..j + |sub|] == a[j..j + |sub|];
    OccursIn(a + b, sub, j);
  }

  /** An occurrence in the right operand of a concatenation survives it. */
  lemma InConcatRight(sub: string, a: string, b: string)
    requires In(sub, b)
    ensures In(sub, a + b)
  {
    var j := Find(b, sub, 0).value;
    assert (a + b)[|a| + j..|a| + j + |sub|] == b[j..j + |sub|];
    OccursIn(a + b, sub, |a| + j);
  }

  /** Appending text that lacks the last character of `w` creates no new
      occurrence of `w`. */
  lemma NotInAppend(w: string, a: string, b: string)
    requires w != [] && !In(w, a) && w[|w| - 1] !in b
    ensures !In(w, a + b)
  {
    forall j | 0 <= j ensures !OccursAt(a + b, w, j) {
      if j + |w| <= |a| {
        assert (a + b)[j..j + |w|] == a[j..j + |w|];
        assert !OccursAt(a, w, j);
      } else if j + |w| <= |a| + |b| {
        var k := j + |w| - 1 - |a|;
        assert (a + b)[j + |w| - 1] == b[k];
        assert b[k] in b;
        assert (a + b)[j..j + |w|][|w| - 1] == (a + b)[j + |w| - 1];
      }
    }
  }

  /** Cutting a string that holds the separator character exactly once gives
      its two sides. */
  lemma SplitOnce(a: string, c: char, b: string)
    requires c !in a && c !in b
    ensures Split(a + [c] + b, [c]) == [a, b]
  {
    var s := a + [c] + b;
    assert OccursAt(s, [c], |a|);
    forall j | 0 <= j < |a| ensures !OccursAt(s, [c], j) {
      assert s[j] == a[j];
    }
    assert Find(s, [c], 0) == Some(|a|);
    assert s[|a| + 1..] == b;
    assert s[..|a|] == a;
    forall j | 0 <= j ensures !OccursAt(b, [c], j) {
      if j < |b| {
        assert b[j..j + 1][0] == b[j];
      }
    }
  }
}
