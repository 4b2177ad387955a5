/**
 * The string operations the record file relies on, with Python's semantics:
 * `str.strip()`, `str.split(sep)`, `sep.join(parts)` and the code-point
 * ordering Python uses to compare two `str` values.
 */
module Text {
  import opened Base

  // ---------------------------------------------------------------------
  // Whitespace and strip()
  // ---------------------------------------------------------------------

  /** The characters for which Python's `str.isspace()` holds; `str.strip()` removes exactly these. */
  predicate IsSpace(c: char) {
    || c == ' '
    || ('\t' <= c <= '\r')               // tab, line feed, vertical tab, form feed, carriage return
    || ('\U{1C}' <= c <= '\U{1F}')       // information separators
    || c == '\U{85}' || c == '\U{A0}' || c == '\U{1680}'
    || ('\U{2000}' <= c <= '\U{200A}')
    || c == '\U{2028}' || c == '\U{2029}' || c == '\U{202F}' || c == '\U{205F}' || c == '\U{3000}'
  }

  /** No whitespace at either end: what `strip()` leaves alone. */
  predicate Unpadded(s: string) {
    s == [] || (!IsSpace(s[0]) && !IsSpace(s[|s| - 1]))
  }

  /** Python's `s.strip()`: whitespace is taken off the front, then off the back,
      until neither end is whitespace. */
  function Strip(s: string): (r: string)
    ensures Unpadded(r)
    ensures |r| <= |s|
    decreases |s|
  {
    if |s| > 0 && IsSpace(s[0]) then Strip(s[1..])
    else if |s| > 0 && IsSpace(s[|s| - 1]) then Strip(s[..|s| - 1])
    else s
  }

  /** What `strip()` keeps is an infix of its argument, and all it cuts away is whitespace. */
  lemma {:induction false} StripCuts(s: string)
    ensures exists i: nat :: CutAt(s, Strip(s), i)
    decreases |s|
  {
    var r := Strip(s);
    if |s| > 0 && IsSpace(s[0]) {
      StripCuts(s[1..]);
      var i: nat :| CutAt(s[1..], r, i);
      CutFront(s, r, i);
    } else if |s| > 0 && IsSpace(s[|s| - 1]) {
      StripCuts(s[..|s| - 1]);
      var i: nat :| CutAt(s[..|s| - 1], r, i);
      CutBack(s, r, i);
    } else {
      assert CutAt(s, r, 0);
    }
  }

  lemma {:induction false} CutFront(s: string, r: string, i: nat)
    requires |s| > 0 && IsSpace(s[0]) && CutAt(s[1..], r, i)
    ensures CutAt(s, r, i + 1)
  {
    assert r == s[i + 1..i + 1 + |r|];
    forall k | 0 <= k < i + 1 ensures IsSpace(s[k]) {
      if k > 0 { assert s[k] == s[1..][k - 1]; }
    }
    forall k | i + 1 + |r| <= k < |s| ensures IsSpace(s[k]) {
      assert s[k] == s[1..][k - 1];
    }
  }

  lemma {:induction false} CutBack(s: string, r: string, i: nat)
    requires |s| > 0 && IsSpace(s[|s| - 1]) && CutAt(s[..|s| - 1], r, i)
    ensures CutAt(s, r, i)
  {
    var t := s[..|s| - 1];
    assert r == s[i..i + |r|];
    forall k | 0 <= k < i ensures IsSpace(s[k]) {
      assert s[k] == t[k];
    }
    forall k | i + |r| <= k < |s| ensures IsSpace(s[k]) {
      if k < |s| - 1 { assert s[k] == t[k]; }
    }
  }

  /** `r` is the infix of `s` at index `i`, and everything outside it is whitespace. */
  ghost predicate CutAt(s: string, r: string, i: nat) {
    && i + |r| <= |s| && r == s[i..i + |r|]
    && (forall k :: 0 <= k < i ==> IsSpace(s[k]))
    && (forall k :: i + |r| <= k < |s| ==> IsSpace(s[k]))
  }

  /** `strip()` leaves an unpadded string as it is. */
  lemma {:induction false} StripUnpadded(s: string)
    requires Unpadded(s)
    ensures Strip(s) == s
  {
  }

  /** `strip()` removes the line terminator that file iteration leaves on a line. */
  lemma {:induction false} StripLine(s: string)
    requires Unpadded(s)
    ensures Strip(s + "\n") == s
  {
    var t := s + "\n";
    if s != [] {
      assert t[0] == s[0] && t[..|t| - 1] == s;
    }
  }

  // ---------------------------------------------------------------------
  // Searching, split() and join()
  // ---------------------------------------------------------------------

  /** `sep` occurs in `s` starting at index `i`. */
  predicate OccursAt(s: string, sep: string, i: nat) {
    i + |sep| <= |s| && s[i..i + |sep|] == sep
  }

  /** `sep in s` in Python. */
  ghost predicate Contains(s: string, sep: string) {
    exists i: nat :: OccursAt(s, sep, i)
  }

  /** The leftmost occurrence of `sep` in `s` at or after `from`, as `s.find(sep, from)`. */
  function FindFrom(s: string, sep: string, from: nat): (r: Option<nat>)
    requires |sep| > 0
    ensures r.Some? ==> from <= r.value && OccursAt(s, sep, r.value)
    decreases |s| - from
  {
    if from + |sep| > |s| then None
    else if s[from..from + |sep|] == sep then Some(from)
    else FindFrom(s, sep, from + 1)
  }

  /** `FindFrom` misses no occurrence: none lies before the one it returns, and
      none at all when it returns nothing. */
  lemma {:induction false} FindFromFirst(s: string, sep: string, from: nat)
    requires |sep| > 0
    ensures FindFrom(s, sep, from).Some? ==>
              forall i: nat :: from <= i < FindFrom(s, sep, from).value ==> !OccursAt(s, sep, i)
    ensures FindFrom(s, sep, from).None? ==> forall i: nat :: from <= i ==> !OccursAt(s, sep, i)
    decreases |s| - from
  {
    if from + |sep| <= |s| && s[from..from + |sep|] != sep {
      FindFromFirst(s, sep, from + 1);
    }
  }

  /** Python's `s.split(sep)` for a non-empty separator: cut at every leftmost,
      non-overlapping occurrence of `sep`. */
  function Split(s: string, sep: string): (r: seq<string>)
    requires |sep| > 0
    ensures |r| >= 1
    decreases |s|
  {
    match FindFrom(s, sep, 0)
    case None => [s]
    case Some(i) => [s[..i]] + Split(s[i + |sep|..], sep)
  }

  /** Joining the pieces `split` returns with the separator gives the string back. */
  lemma {:induction false} SplitPieces(s: string, sep: string)
    requires |sep| > 0
    ensures Join(Split(s, sep), sep) == s
    decreases |s|
  {
    var found := FindFrom(s, sep, 0);
    if found.Some? {
      var i := found.value;
      var tail := s[i + |sep|..];
      var rest := Split(tail, sep);
      SplitPieces(tail, sep);
      SplitAtFirst(s, sep, i);
      JoinCons(s[..i], rest, sep);
      Reassemble(s, sep, i);
    }
  }

  /** One step of `split`: the piece before the first separator, then the split of the rest. */
  lemma {:induction false} SplitAtFirst(s: string, sep: string, i: nat)
    requires |sep| > 0 && FindFrom(s, sep, 0) == Some(i)
    ensures Split(s, sep) == [s[..i]] + Split(s[i + |sep|..], sep)
  {
  }

  lemma {:induction false} JoinCons(h: string, rest: seq<string>, sep: string)
    requires |rest| >= 1
    ensures Join([h] + rest, sep) == h + sep + Join(rest, sep)
  {
    assert ([h] + rest)[1..] == rest;
  }

  lemma {:induction false} Reassemble(s: string, sep: string, i: nat)
    requires OccursAt(s, sep, i)
    ensures s == s[..i] + sep + s[i + |sep|..]
  {
    assert s == s[..i] + s[i..i + |sep|] + s[i + |sep|..];
  }

  /** No piece `split` returns holds the separator. */
  lemma {:induction false} SplitClean(s: string, sep: string)
    requires |sep| > 0
    ensures forall k :: 0 <= k < |Split(s, sep)| ==> !Contains(Split(s, sep)[k], sep)
    decreases |s|
  {
    match FindFrom(s, sep, 0)
    case None =>
      FindFromFirst(s, sep, 0);
      assert Split(s, sep) == [s];
    case Some(i) =>
      var head, tail := s[..i], s[i + |sep|..];
      BeforeFirstIsClean(s, sep, i);
      SplitClean(tail, sep);
      var rest := Split(tail, sep);
      var r := [head] + rest;
      assert Split(s, sep) == r;
      forall k | 0 < k < |r| ensures !Contains(r[k], sep) {
        assert r[k] == rest[k - 1];
      }
  }

  /** What comes before the first separator holds none. */
  lemma {:induction false} BeforeFirstIsClean(s: string, sep: string, i: nat)
    requires |sep| > 0 && FindFrom(s, sep, 0) == Some(i)
    ensures !Contains(s[..i], sep)
  {
    var head := s[..i];
    FindFromFirst(s, sep, 0);
    forall j: nat ensures !OccursAt(head, sep, j) {
      if j + |sep| <= |head| {
        assert head[j..j + |sep|] == s[j..j + |sep|];
        assert !OccursAt(s, sep, j);
      }
    }
  }

  /** Python's `sep.join(parts)`. */
  function Join(parts: seq<string>, sep: string): string {
    if |parts| == 0 then ""
    else if |parts| == 1 then parts[0]
    else parts[0] + sep + Join(parts[1..], sep)
  }

  /** Joining four parts spelled out. */
  lemma {:induction false} JoinFour(a: string, b: string, c: string, d: string, sep: string)
    ensures Join([a, b, c, d], sep) == a + sep + (b + sep + (c + sep + d))
  {
    assert [c, d][1..] == [d];
    assert Join([c, d], sep) == c + sep + d;
    assert [b, c, d][1..] == [c, d];
    assert Join([b, c, d], sep) == b + sep + (c + sep + d);
    assert [a, b, c, d][1..] == [b, c, d];
  }

  /** The record file's field separator. */
  const Sep: string := "|||"

  /** A field that can stand before a separator and still be cut back out by `Split`:
      it holds no separator and does not end in `|` (a trailing `|` would join the
      separator that follows and move the cut to the left). */
  ghost predicate CleanInner(f: string) {
    !Contains(f, Sep) && (f == [] || f[|f| - 1] != '|')
  }

  /** The separator is found right after a clean inner field. */
  lemma {:induction false} FirstSepAfterClean(f: string, rest: string)
    requires CleanInner(f)
    ensures FindFrom(f + Sep + rest, Sep, 0) == Some(|f|)
  {
    var s := f + Sep + rest;
    assert OccursAt(s, Sep, |f|) by { assert s[|f|..|f| + 3] == Sep; }
    forall i: nat | i < |f| ensures !OccursAt(s, Sep, i) {
      if i + 3 <= |f| {
        assert s[i..i + 3] == f[i..i + 3];
        assert !OccursAt(f, Sep, i);
      } else {
        assert s[|f| - 1] == f[|f| - 1] != '|';
        assert Sep[|f| - 1 - i] == '|';
        assert s[i..i + 3][|f| - 1 - i] == s[|f| - 1];
      }
    }
    FindFromLeftmost(s, Sep, 0, |f|);
  }

  /** `FindFrom` returns the occurrence that has no earlier one. */
  lemma {:induction false} FindFromLeftmost(s: string, sep: string, from: nat, i: nat)
    requires |sep| > 0 && from <= i && OccursAt(s, sep, i)
    requires forall j: nat :: from <= j < i ==> !OccursAt(s, sep, j)
    ensures FindFrom(s, sep, from) == Some(i)
    decreases i - from
  {
    if from < i {
      assert !OccursAt(s, sep, from);
      FindFromLeftmost(s, sep, from + 1, i);
    }
  }

  /** Splitting a joined sequence of fields gives the fields back, provided every
      field but the last is clean and the last holds no separator. */
  lemma {:induction false} SplitJoin(fields: seq<string>)
    requires |fields| >= 1
    requires forall k :: 0 <= k < |fields| - 1 ==> CleanInner(fields[k])
    requires !Contains(fields[|fields| - 1], Sep)
    ensures Split(Join(fields, Sep), Sep) == fields
  {
    if |fields| == 1 {
      var f := fields[0];
      assert FindFrom(f, Sep, 0).None?;
    } else {
      var f := fields[0];
      var rest := Join(fields[1..], Sep);
      var s := Join(fields, Sep);
      assert s == f + Sep + rest;
      FirstSepAfterClean(f, rest);
      assert s[..|f|] == f;
      assert s[|f| + 3..] == rest;
      assert Split(s, Sep) == [f] + Split(rest, Sep);
      SplitJoin(fields[1..]);
      assert fields == [f] + fields[1..];
    }
  }

  /** A key ending in `|` is not cut back out: `"x|" + "|||" + "u"` splits as `"x"`, `"|u"`.
      Requiring only that no field contains the separator is therefore too weak for the
      record file to read back what it wrote. */
  lemma {:induction false} TrailingBarBreaksSplit()
    ensures Split(Join(["x|", "u"], Sep), Sep) == ["x", "|u"]
  {
    var s := Join(["x|", "u"], Sep);
    assert s == "x||||u";
    assert FindFrom(s, Sep, 0) == Some(1) by {
      assert s[0] == 'x' && s[0..3][0] == 'x';
      assert s[1..4] == Sep;
    }
    assert s[..1] == "x";
    assert s[4..] == "|u";
    assert Split("|u", Sep) == ["|u"];
  }

  // ---------------------------------------------------------------------
  // Ordering of strings
  // ---------------------------------------------------------------------

  /** Python's `a < b` on `str`: lexicographic by code point, a proper prefix first. */
  predicate Less(a: string, b: string) {
    if |a| == 0 then |b| > 0
    else if |b| == 0 then false
    else if a[0] == b[0] then Less(a[1..], b[1..])
    else a[0] < b[0]
  }

  /** Python's `a <= b` on `str`. */
  predicate AtMost(a: string, b: string) {
    a == b || Less(a, b)
  }

  lemma {:induction false} LessIrreflexive(a: string)
    ensures !Less(a, a)
  {
    if |a| > 0 {
      LessIrreflexive(a[1..]);
    }
  }

  lemma {:induction false} LessAsymmetric(a: string, b: string)
    ensures !(Less(a, b) && Less(b, a))
  {
    if |a| > 0 && |b| > 0 && a[0] == b[0] {
      LessAsymmetric(a[1..], b[1..]);
    }
  }

  lemma {:induction false} LessTransitive(a: string, b: string, c: string)
    requires Less(a, b) && Less(b, c)
    ensures Less(a, c)
  {
    if |a| > 0 && a[0] == b[0] && b[0] == c[0] {
      LessTransitive(a[1..], b[1..], c[1..]);
    }
  }

  /** Any two strings compare: less, equal or greater. */
  lemma {:induction false} LessTrichotomy(a: string, b: string)
    ensures Less(a, b) || a == b || Less(b, a)
  {
    if |a| > 0 && |b| > 0 && a[0] == b[0] {
      LessTrichotomy(a[1..], b[1..]);
      if a[1..] == b[1..] {
        assert a == [a[0]] + a[1..] && b == [b[0]] + b[1..];
      }
    }
  }

  lemma {:induction false} AtMostTransitive(a: string, b: string, c: string)
    requires AtMost(a, b) && AtMost(b, c)
    ensures AtMost(a, c)
  {
    if Less(a, b) && Less(b, c) {
      LessTransitive(a, b, c);
    }
  }

  lemma {:induction false} AtMostAntisymmetric(a: string, b: string)
    requires AtMost(a, b) && AtMost(b, a)
    ensures a == b
  {
    LessAsymmetric(a, b);
  }

  /** Comparing two strings that start with equally long parts: the parts decide,
      unless they are equal, in which case the rest decides. */
  lemma {:induction false} LessConcat(p: string, q: string, x: string, y: string)
    requires |p| == |q|
    ensures Less(p + x, q + y) == if p == q then Less(x, y) else Less(p, q)
  {
    if |p| > 0 {
      assert (p + x)[1..] == p[1..] + x;
      assert (q + y)[1..] == q[1..] + y;
      LessConcat(p[1..], q[1..], x, y);
      if p[0] == q[0] && p[1..] == q[1..] {
        assert p == [p[0]] + p[1..] && q == [q[0]] + q[1..];
      }
    } else {
      assert p + x == x && q + y == y;
    }
  }
}
