/** The parts of Go's `strings` package the tool relies on, over `seq<char>`:
    `Split` with a one-character separator, `TrimSpace`, `HasPrefix` and `TrimPrefix`. */
module Strings {

  import opened Wrappers

  /** Go's `unicode.IsSpace`: the Unicode White_Space characters. */
  predicate IsSpace(c: char) {
    var n := c as int;
    || 0x09 <= n <= 0x0D
    || n == 0x20
    || n == 0x85
    || n == 0xA0
    || n == 0x1680
    || 0x2000 <= n <= 0x200A
    || n == 0x2028
    || n == 0x2029
    || n == 0x202F
    || n == 0x205F
    || n == 0x3000
  }

  predicate AllSpace(s: string) {
    forall i :: 0 <= i < |s| ==> IsSpace(s[i])
  }

  /** Neither end of `s` is whitespace. */
  predicate IsTrimmed(s: string) {
    |s| == 0 || (!IsSpace(s[0]) && !IsSpace(s[|s| - 1]))
  }

  /** `r` is `s` with its leading and trailing whitespace, and nothing else, removed. */
  ghost predicate TrimmedFrom(r: string, s: string) {
    && IsTrimmed(r)
    && exists i, j :: 0 <= i <= j <= |s| && r == s[i..j] && AllSpace(s[..i]) && AllSpace(s[j..])
  }

  /** The end of the run of whitespace starting at `i`. */
  function SpanLeft(s: string, i: nat): (r: nat)
    requires i <= |s|
    ensures i <= r <= |s|
    ensures forall k :: i <= k < r ==> IsSpace(s[k])
    ensures r == |s| || !IsSpace(s[r])
    decreases |s| - i
  {
    if i < |s| && IsSpace(s[i]) then SpanLeft(s, i + 1) else i
  }

  /** The start of the run of whitespace ending at `j`, not going below `lo`. */
  function SpanRight(s: string, lo: nat, j: nat): (r: nat)
    requires lo <= j <= |s|
    ensures lo <= r <= j
    ensures forall k :: r <= k < j ==> IsSpace(s[k])
    ensures r == lo || !IsSpace(s[r - 1])
    decreases j
  {
    if j > lo && IsSpace(s[j - 1]) then SpanRight(s, lo, j - 1) else j
  }

  /** Go's `strings.TrimSpace`. */
  function TrimSpace(s: string): string
  {
    var a := SpanLeft(s, 0);
    s[a..SpanRight(s, a, |s|)]
  }

  /** `TrimSpace` removes the leading and trailing whitespace and nothing else. */
  lemma TrimSpaceTrims(s: string)
    ensures TrimmedFrom(TrimSpace(s), s)
  {
    var a := SpanLeft(s, 0);
    var b := SpanRight(s, a, |s|);
    assert AllSpace(s[..a]);
    assert AllSpace(s[b..]) by {
      forall k | 0 <= k < |s| - b
        ensures IsSpace(s[b..][k])
      {
        assert s[b..][k] == s[b + k];
      }
    }
  }

  /** A string whose ends are not whitespace is left alone, and only such strings are. */
  lemma TrimSpaceFixedPoint(s: string)
    ensures TrimSpace(s) == s <==> IsTrimmed(s)
  {
    if IsTrimmed(s) {
      TrimSpacePadding("", s, "");
      assert "" + s + "" == s;
    }
  }

  /** Trimming twice is trimming once. */
  lemma TrimSpaceIdempotent(s: string)
    ensures TrimSpace(TrimSpace(s)) == TrimSpace(s)
  {
    TrimSpaceTrims(s);
    TrimSpaceFixedPoint(TrimSpace(s));
  }

  /** Whitespace padding around a trimmed string is exactly what `TrimSpace` removes. */
  lemma TrimSpacePadding(left: string, s: string, right: string)
    requires AllSpace(left) && AllSpace(right) && IsTrimmed(s)
    ensures TrimSpace(left + s + right) == s
  {
    var x := left + s + right;
    assert forall k :: 0 <= k < |left| ==> x[k] == left[k];
    assert forall k :: 0 <= k < |right| ==> x[|left| + |s| + k] == right[k];
    var a := SpanLeft(x, 0);
    var b := SpanRight(x, a, |x|);
    if |s| == 0 {
      assert AllSpace(x);
    } else {
      assert x[|left|] == s[0];
      assert x[|left| + |s| - 1] == s[|s| - 1];
      assert a == |left|;
      assert b == |left| + |s|;
      assert x[a..b] == s;
    }
  }

  /** Go's `strings.HasPrefix`. */
  predicate HasPrefix(s: string, prefix: string) {
    |prefix| <= |s| && s[..|prefix|] == prefix
  }

  /** Go's `strings.TrimPrefix`: drops `prefix` once if `s` starts with it. */
  function TrimPrefix(s: string, prefix: string): (r: string)
    ensures HasPrefix(s, prefix) ==> prefix + r == s
    ensures !HasPrefix(s, prefix) ==> r == s
  {
    if HasPrefix(s, prefix) then
      assert s == s[..|prefix|] + s[|prefix|..];
      s[|prefix|..]
    else s
  }

  /** Index of the first occurrence of `c` in `s`. */
  function IndexOf(s: string, c: char): (i: nat)
    requires c in s
    ensures i < |s| && s[i] == c && c !in s[..i]
  {
    if s[0] == c then 0
    else
      assert s == [s[0]] + s[1..];
      var j := IndexOf(s[1..], c);
      assert s[..j + 1] == [s[0]] + s[1..][..j];
      j + 1
  }

  /** The first occurrence of `c` is at the length of a `c`-free prefix. */
  lemma IndexOfAfter(a: string, c: char, b: string)
    requires c !in a
    ensures c in a + [c] + b && IndexOf(a + [c] + b, c) == |a|
  {
    var s := a + [c] + b;
    assert s[|a|] == c;
    assert s[..|a|] == a;
  }

  /** Joins `parts` with `sep` between consecutive parts (Go's `strings.Join`). */
  function Join(parts: seq<string>, sep: char): string
  {
    if |parts| == 0 then ""
    else if |parts| == 1 then parts[0]
    else parts[0] + [sep] + Join(parts[1..], sep)
  }

  /** Go's `strings.Split(s, sep)` for a one-character separator: the maximal
      `sep`-free pieces between separators, always at least one. */
  function Split(s: string, sep: char): (parts: seq<string>)
    ensures |parts| >= 1
    ensures forall i :: 0 <= i < |parts| ==> sep !in parts[i]
    decreases |s|
  {
    if sep in s then
      var i := IndexOf(s, sep);
      [s[..i]] + Split(s[i + 1..], sep)
    else
      [s]
  }

  /** Joining the pieces back with the separator gives the original string. */
  lemma {:induction false} JoinSplit(s: string, sep: char)
    ensures Join(Split(s, sep), sep) == s
    decreases |s|
  {
    if sep in s {
      var i := IndexOf(s, sep);
      var rest := Split(s[i + 1..], sep);
      JoinSplit(s[i + 1..], sep);
      assert ([s[..i]] + rest)[1..] == rest;
      assert s == s[..i] + [sep] + s[i + 1..];
    }
  }

  /** Splitting undoes joining when no part contains the separator. */
  lemma {:induction false} SplitJoin(parts: seq<string>, sep: char)
    requires |parts| >= 1
    requires forall i :: 0 <= i < |parts| ==> sep !in parts[i]
    ensures Split(Join(parts, sep), sep) == parts
    decreases |parts|
  {
    if |parts| > 1 {
      var tail := Join(parts[1..], sep);
      IndexOfAfter(parts[0], sep, tail);
      var s := parts[0] + [sep] + tail;
      assert Join(parts, sep) == s;
      assert s[..|parts[0]|] == parts[0];
      assert s[|parts[0]| + 1..] == tail;
      assert Split(s, sep) == [parts[0]] + Split(tail, sep);
      SplitJoin(parts[1..], sep);
      assert parts == [parts[0]] + parts[1..];
    }
  }

  /** A character other than the separator occurs in a join only if it occurs in a part. */
  lemma {:induction false} JoinExcludes(parts: seq<string>, sep: char, c: char)
    requires c != sep
    requires forall i :: 0 <= i < |parts| ==> c !in parts[i]
    ensures c !in Join(parts, sep)
    decreases |parts|
  {
    if |parts| > 1 {
      JoinExcludes(parts[1..], sep, c);
    }
  }

  /** Joining with an empty last part appends one separator: the join of a listing that
      ends in a newline. */
  lemma {:induction false} JoinEmptyLast(parts: seq<string>, sep: char)
    requires |parts| >= 1
    ensures Join(parts + [""], sep) == Join(parts, sep) + [sep]
    decreases |parts|
  {
    if |parts| > 1 {
      JoinEmptyLast(parts[1..], sep);
      assert (parts + [""])[1..] == parts[1..] + [""];
    }
  }

  /** Joining a non-empty sequence whose first part is non-empty gives a non-empty string. */
  lemma {:induction false} JoinNonEmpty(parts: seq<string>, sep: char)
    requires |parts| >= 1 && |parts[0]| > 0
    ensures |Join(parts, sep)| > 0
  {
  }

  /** Splits `s` at the first `c`: the text before it, and the text after it if there is a `c`. */
  function CutAt(s: string, c: char): (r: (string, Option<string>))
    ensures r.1.None? ==> r.0 == s && c !in s
    ensures r.1.Some? ==> c !in r.0 && s == r.0 + [c] + r.1.value
  {
    if c in s then
      var i := IndexOf(s, c);
      assert s == s[..i] + [c] + s[i + 1..];
      (s[..i], Some(s[i + 1..]))
    else
      (s, None)
  }

  /** `CutAt` finds the separator placed after a separator-free prefix. */
  lemma CutAtJoined(a: string, c: char, b: string)
    requires c !in a
    ensures CutAt(a + [c] + b, c) == (a, Some(b))
  {
    IndexOfAfter(a, c, b);
    var s := a + [c] + b;
    assert s[..|a|] == a;
    assert s[|a| + 1..] == b;
  }

}
