/** Helpers shared by the backend and the client model: an Option type, the
    JavaScript string operations the code relies on (startsWith, includes,
    indexOf, split, trim, toLowerCase) and listing a set of ids in ascending
    order, which is how the store's "natural order" is modelled. */
module Common {

  datatype Option<T> = None | Some(value: T)

  /** Document ids. The store hands them out in increasing order, so listing
      ids in ascending order is listing records in insertion order. */
  type Id = nat

  /** Instants in milliseconds, as JavaScript `Date` values. */
  type Time = int

  const MsPerDay: int := 24 * 60 * 60 * 1000

  /** JavaScript `a || d` for an optional string: the empty string is falsy. */
  function OrElse(v: Option<string>, d: string): (r: string)
    ensures v.Some? && v.value != "" ==> r == v.value
    ensures (v.None? || v.value == "") ==> r == d
  {
    if v.Some? && v.value != "" then v.value else d
  }

  predicate Truthy(v: Option<string>) {
    v.Some? && v.value != ""
  }

  predicate StartsWith(s: string, prefix: string) {
    |prefix| <= |s| && s[..|prefix|] == prefix
  }

  predicate OccursAt(s: string, sub: string, i: int) {
    0 <= i && i + |sub| <= |s| && s[i..i + |sub|] == sub
  }

  /** `s.includes(sub)` */
  predicate Contains(s: string, sub: string) {
    exists i :: 0 <= i <= |s| && OccursAt(s, sub, i)
  }

  /** `s.indexOf(sub, from)`: the first occurrence at or after `from`, or -1. */
  function IndexFrom(s: string, sub: string, from: nat): (r: int)
    requires from <= |s|
    ensures r == -1 || (from <= r && OccursAt(s, sub, r))
    ensures r == -1 ==> forall i :: from <= i ==> !OccursAt(s, sub, i)
    ensures r != -1 ==> forall i :: from <= i < r ==> !OccursAt(s, sub, i)
    decreases |s| - from
  {
    if OccursAt(s, sub, from) then from
    else if from + |sub| >= |s| then
      assert forall i :: from < i ==> !OccursAt(s, sub, i);
      -1
    else IndexFrom(s, sub, from + 1)
  }

  function IndexOf(s: string, sub: string): (r: int)
    ensures r == -1 <==> !Contains(s, sub)
    ensures r != -1 ==> OccursAt(s, sub, r) && forall i :: 0 <= i < r ==> !OccursAt(s, sub, i)
  {
    IndexFrom(s, sub, 0)
  }

  /** `s.replace(pattern, by)` with a string pattern: only the first
      occurrence is replaced. */
  function ReplaceFirst(s: string, pattern: string, replacement: string): (r: string)
    ensures !Contains(s, pattern) ==> r == s
    ensures Contains(s, pattern) ==>
      exists i :: OccursAt(s, pattern, i) && (forall j :: 0 <= j < i ==> !OccursAt(s, pattern, j))
                  && r == s[..i] + replacement + s[i + |pattern|..]
  {
    var i := IndexOf(s, pattern);
    if i == -1 then s
    else
      var r := s[..i] + replacement + s[i + |pattern|..];
      assert OccursAt(s, pattern, i) && forall j :: 0 <= j < i ==> !OccursAt(s, pattern, j);
      r
  }

  /** `s.split(sep)` for a non-empty separator. */
  function Split(s: string, sep: string): (r: seq<string>)
    requires sep != ""
    ensures |r| >= 1
    decreases |s|
  {
    var i := IndexOf(s, sep);
    if i == -1 then [s] else [s[..i]] + Split(s[i + |sep|..], sep)
  }

  function Join(parts: seq<string>, sep: string): string
    requires |parts| >= 1
  {
    if |parts| == 1 then parts[0] else parts[0] + sep + Join(parts[1..], sep)
  }

  lemma JoinCons(head: string, parts: seq<string>, sep: string)
    requires |parts| >= 1
    ensures Join([head] + parts, sep) == head + sep + Join(parts, sep)
  {
    assert ([head] + parts)[1..] == parts;
  }

  lemma SplitAround(s: string, sep: string, i: int)
    requires OccursAt(s, sep, i)
    ensures s == s[..i] + sep + s[i + |sep|..]
  {
    assert s == s[..i] + s[i..i + |sep|] + s[i + |sep|..];
  }

  /** Splitting and re-joining with the same separator gives the string back,
      so `split` loses nothing but the separators. */
  lemma {:induction false} JoinSplit(s: string, sep: string)
    requires sep != ""
    ensures Join(Split(s, sep), sep) == s
    decreases |s|
  {
    var i := IndexOf(s, sep);
    if i != -1 {
      var rest := s[i + |sep|..];
      JoinSplit(rest, sep);
      JoinCons(s[..i], Split(rest, sep), sep);
      SplitAround(s, sep, i);
    }
  }

  /** The text before the first separator does not contain it. */
  lemma BeforeFirstFree(s: string, sep: string, i: int)
    requires sep != "" && 0 <= i <= |s| && forall j :: 0 <= j < i ==> !OccursAt(s, sep, j)
    ensures !Contains(s[..i], sep)
  {
    var p := s[..i];
    forall j | 0 <= j <= |p| ensures !OccursAt(p, sep, j) {
      if j + |sep| <= |p| {
        assert !OccursAt(s, sep, j);
        assert p[j..j + |sep|] == s[j..j + |sep|];
      }
    }
  }

  /** No piece produced by `split` contains the separator. */
  lemma {:induction false} SplitPiecesFree(s: string, sep: string, k: nat)
    requires sep != ""
    requires k < |Split(s, sep)|
    ensures !Contains(Split(s, sep)[k], sep)
    decreases |s|
  {
    var i := IndexOf(s, sep);
    if i == -1 {
      assert Split(s, sep) == [s];
    } else {
      var rest := s[i + |sep|..];
      assert Split(s, sep) == [s[..i]] + Split(rest, sep);
      if k == 0 {
        BeforeFirstFree(s, sep, i);
      } else {
        SplitPiecesFree(rest, sep, k - 1);
      }
    }
  }

  /** ASCII case folding, as used by `toLowerCase` on the ASCII range. */
  function LowerChar(c: char): char {
    if 'A' <= c <= 'Z' then (c as int + 32) as char else c
  }

  function ToLower(s: string): (r: string)
    ensures |r| == |s| && forall i :: 0 <= i < |s| ==> r[i] == LowerChar(s[i])
  {
    seq(|s|, i requires 0 <= i < |s| => LowerChar(s[i]))
  }

  /** Case-insensitive containment: `a.toLowerCase().includes(b.toLowerCase())`. */
  predicate ContainsIgnoreCase(s: string, sub: string) {
    Contains(ToLower(s), ToLower(sub))
  }

  /** The characters `trim` strips: the ECMAScript WhiteSpace and
      LineTerminator code points. */
  predicate IsSpace(c: char) {
    c == ' ' || c == '\t' || c == '\n' || c == '\r' || c == 11 as char || c == 12 as char ||
    c == 0xA0 as char || c == 0x1680 as char || 0x2000 as char <= c <= 0x200A as char ||
    c == 0x2028 as char || c == 0x2029 as char || c == 0x202F as char || c == 0x205F as char ||
    c == 0x3000 as char || c == 0xFEFF as char
  }

  predicate Blank(s: string) {
    forall j :: 0 <= j < |s| ==> IsSpace(s[j])
  }

  /** Number of leading whitespace characters. */
  function Leading(s: string): (k: nat)
    ensures k <= |s| && Blank(s[..k]) && (k < |s| ==> !IsSpace(s[k]))
  {
    if s != [] && IsSpace(s[0]) then
      var k := Leading(s[1..]);
      assert s[..k + 1] == [s[0]] + s[1..][..k];
      k + 1
    else 0
  }

  /** Number of trailing whitespace characters. */
  function Trailing(s: string): (k: nat)
    ensures k <= |s| && Blank(s[|s| - k..]) && (k < |s| ==> !IsSpace(s[|s| - k - 1]))
  {
    if s != [] && IsSpace(s[|s| - 1]) then
      var t := s[..|s| - 1];
      var k := Trailing(t);
      assert s[|s| - (k + 1)..] == t[|t| - k..] + [s[|s| - 1]];
      k + 1
    else 0
  }

  /** `s.trim()` */
  function Trim(s: string): (r: string)
    ensures r == "" || (!IsSpace(r[0]) && !IsSpace(r[|r| - 1]))
  {
    var t := s[Leading(s)..];
    t[..|t| - Trailing(t)]
  }

  /** A string trims to the empty string exactly when it is all whitespace,
      so `!x.trim()` is the test "x is blank". */
  lemma TrimEmptyIffBlank(s: string)
    ensures Trim(s) == "" <==> Blank(s)
  {
    if Trim(s) == "" {
      EmptyTrimIsBlank(s);
    }
    if Blank(s) {
      assert Leading(s) == |s|;
    }
  }

  lemma EmptyTrimIsBlank(s: string)
    requires Trim(s) == ""
    ensures Blank(s)
  {
    var a := Leading(s);
    var t := s[a..];
    var b := Trailing(t);
    assert b == |t|;
    assert t == t[|t| - b..];
    assert a == |s|;
    assert s[..a] == s;
  }

  /** Every occurrence of `x` removed, the rest in order (MongoDB `$pull`). */
  function Without(s: seq<nat>, x: nat): (r: seq<nat>)
    ensures x !in r && |r| <= |s|
    ensures forall y :: y != x ==> (y in r <==> y in s)
    ensures x !in s ==> r == s
  {
    if s == [] then []
    else if s[0] == x then Without(s[1..], x)
    else [s[0]] + Without(s[1..], x)
  }

  predicate StrictlyAscending(r: seq<nat>) {
    forall i, j :: 0 <= i < j < |r| ==> r[i] < r[j]
  }

  /** The ids of a set that lie below `bound`, in ascending order, each once. */
  function Ascending(ids: set<nat>, bound: nat): (r: seq<nat>)
    ensures StrictlyAscending(r)
    ensures forall x :: x in r <==> x in ids && x < bound
  {
    if bound == 0 then []
    else
      var prefix := Ascending(ids, bound - 1);
      if bound - 1 in ids then
        assert forall i :: 0 <= i < |prefix| ==> prefix[i] in prefix;
        assert forall i :: 0 <= i < |prefix| ==> prefix[i] < bound - 1;
        prefix + [bound - 1]
      else prefix
  }
}
