/** Python string operations the core relies on, on `seq<char>`. */
module Text {

  /** `needle` occurs in `s` starting at index `i`. */
  predicate OccursAt(s: string, needle: string, i: int) {
    0 <= i && i + |needle| <= |s| && s[i..i + |needle|] == needle
  }

  /** `needle in s`. */
  predicate Contains(s: string, needle: string) {
    exists i :: 0 <= i <= |s| && OccursAt(s, needle, i)
  }

  /** `s.replace("", b)`: Python puts `b` before every character and at the end. */
  function Interleave(s: string, b: string): (r: string)
    ensures |r| == |s| + (|s| + 1) * |b|
  {
    if s == [] then b else b + [s[0]] + Interleave(s[1..], b)
  }

  /** `s.replace(a, b)`: every non-overlapping occurrence of `a`, scanning left to right, becomes `b`. */
  function ReplaceAll(s: string, a: string, b: string): (r: string)
    decreases |s|
  {
    if a == [] then Interleave(s, b)
    else if |s| < |a| then s
    else if s[..|a|] == a then b + ReplaceAll(s[|a|..], a, b)
    else [s[0]] + ReplaceAll(s[1..], a, b)
  }

  /** Text that does not contain the pattern is left alone. */
  lemma {:induction false} ReplaceAbsent(s: string, a: string, b: string)
    requires a != [] && !Contains(s, a)
    ensures ReplaceAll(s, a, b) == s
  {
    if |s| >= |a| {
      assert s[..|a|] != a by { assert !OccursAt(s, a, 0); }
      assert !Contains(s[1..], a) by {
        forall i | OccursAt(s[1..], a, i) ensures false {
          assert s[1..][i..i + |a|] == s[i + 1..i + 1 + |a|];
          assert OccursAt(s, a, i + 1);
        }
      }
      ReplaceAbsent(s[1..], a, b);
    }
  }

  /** A text in which the first character of `b` never occurs contains no `b`. */
  lemma LeadAbsent(s: string, b: string)
    requires b != [] && b[0] !in s
    ensures !Contains(s, b)
  {
    forall i | 0 <= i <= |s| ensures !OccursAt(s, b, i) {
      if i + |b| <= |s| {
        assert s[i] in s;
        assert s[i..i + |b|][0] == s[i];
      }
    }
  }

  /** Undoing one substitution: replacing `b` by `a` restores the text, provided `b` starts with a
      character the original text never contains (so every `b` in the result came from an `a`). */
  lemma {:induction false} ReplaceRoundTrip(s: string, a: string, b: string)
    requires a != [] && b != [] && b[0] !in s
    ensures ReplaceAll(ReplaceAll(s, a, b), b, a) == s
  {
    if |s| < |a| {
      LeadAbsent(s, b);
      ReplaceAbsent(s, b, a);
    } else if s[..|a|] == a {
      var rest := ReplaceAll(s[|a|..], a, b);
      assert b[0] !in s[|a|..] by {
        forall c | c in s[|a|..] ensures c in s { }
      }
      ReplaceRoundTrip(s[|a|..], a, b);
      var t := b + rest;
      assert t[..|b|] == b;
      assert t[|b|..] == rest;
      calc {
        ReplaceAll(t, b, a);
        a + ReplaceAll(rest, b, a);
        a + s[|a|..];
        s;
      }
    } else {
      var rest := ReplaceAll(s[1..], a, b);
      assert b[0] !in s[1..] by {
        forall c | c in s[1..] ensures c in s { }
      }
      ReplaceRoundTrip(s[1..], a, b);
      var t := [s[0]] + rest;
      if |t| < |b| {
        assert |rest| < |b|;
        assert ReplaceAll(rest, b, a) == rest;
        assert ReplaceAll(t, b, a) == t;
      } else {
        assert t[..|b|][0] == s[0] != b[0];
        assert ReplaceAll(t, b, a) == [s[0]] + ReplaceAll(rest, b, a);
      }
    }
  }

  /** No proper non-empty prefix of `b` is also a suffix of it (`"/def"` has none; `"aa"` has one). */
  predicate Unbordered(b: string)
  {
    forall k :: 0 < k < |b| ==> b[..k] != b[|b| - k..]
  }

  /** A suffix of a text that contains `b` is itself part of a text that contains `b`. */
  lemma ContainsInSuffix(s: string, i: nat, b: string)
    requires i <= |s| && Contains(s[i..], b)
    ensures Contains(s, b)
  {
    var j :| 0 <= j <= |s[i..]| && OccursAt(s[i..], b, j);
    assert s[i..][j..j + |b|] == s[i + j..i + j + |b|];
    assert OccursAt(s, b, i + j);
  }

  /** `s.replace(a, b)` keeps the text up to the first occurrence of `a` it replaces, at `p`, and
      puts a copy of `b` there; `p` is `-1` when nothing is replaced. */
  lemma {:induction false} FirstReplaced(s: string, a: string, b: string) returns (p: int, x: string)
    requires a != []
    ensures -1 <= p <= |s|
    ensures p == -1 ==> ReplaceAll(s, a, b) == s
    ensures p >= 0 ==> ReplaceAll(s, a, b) == s[..p] + b + x
    decreases |s|
  {
    if |s| < |a| {
      p, x := -1, [];
    } else if s[..|a|] == a {
      p, x := 0, ReplaceAll(s[|a|..], a, b);
      assert s[..0] + b == b;
    } else {
      var q, y := FirstReplaced(s[1..], a, b);
      if q == -1 {
        p, x := -1, [];
        assert [s[0]] + s[1..] == s;
      } else {
        p, x := q + 1, y;
        ConsPrefix(s, b, q, y);
      }
    }
  }

  lemma ConsPrefix(s: string, b: string, q: nat, x: string)
    requires q < |s|
    ensures [s[0]] + (s[1..][..q] + b + x) == s[..q + 1] + b + x
  {
    assert [s[0]] + s[1..][..q] == s[..q + 1];
  }

  /** Undoing one substitution when `b` never occurs in the original text and no occurrence of it
      can straddle an inserted copy: with `b` unbordered, every `b` in the result is a copy that
      replaced an `a`. This covers path rules such as `"/abc" -> "/def"` on texts full of `/`. */
  lemma {:induction false} ReplaceRoundTripUnbordered(s: string, a: string, b: string)
    requires a != [] && b != [] && Unbordered(b) && !Contains(s, b)
    ensures ReplaceAll(ReplaceAll(s, a, b), b, a) == s
    decreases |s|
  {
    if |s| < |a| {
      ReplaceAbsent(s, b, a);
    } else if s[..|a|] == a {
      var rest := ReplaceAll(s[|a|..], a, b);
      if Contains(s[|a|..], b) {
        ContainsInSuffix(s, |a|, b);
      }
      ReplaceRoundTripUnbordered(s[|a|..], a, b);
      var t := b + rest;
      assert t[..|b|] == b;
      assert t[|b|..] == rest;
      assert ReplaceAll(t, b, a) == a + ReplaceAll(rest, b, a);
      assert a + s[|a|..] == s;
    } else {
      var rest := ReplaceAll(s[1..], a, b);
      if Contains(s[1..], b) {
        ContainsInSuffix(s, 1, b);
      }
      ReplaceRoundTripUnbordered(s[1..], a, b);
      var t := [s[0]] + rest;
      if |t| < |b| {
        assert |rest| < |b|;
        assert ReplaceAll(rest, b, a) == rest;
        assert ReplaceAll(t, b, a) == t;
        assert t == s;
      } else {
        var q, x := FirstReplaced(s[1..], a, b);
        NoCopyAtStart(s, b, rest, q, x);
        assert ReplaceAll(t, b, a) == [s[0]] + ReplaceAll(rest, b, a);
        assert [s[0]] + s[1..] == s;
      }
    }
  }

  /** The text after the first character of `s` either is kept as it is, or keeps its first `q`
      characters and then holds a copy of `b`: then the whole cannot start with a `b`, which
      would lie in `s` itself or overlap that copy by a border of `b`. */
  lemma NoCopyAtStart(s: string, b: string, rest: string, q: int, x: string)
    requires b != [] && Unbordered(b) && !Contains(s, b) && s != []
    requires (q == -1 && rest == s[1..]) || (0 <= q < |s| && rest == s[1..][..q] + b + x)
    requires 1 + |rest| >= |b|
    ensures ([s[0]] + rest)[..|b|] != b
  {
    assert !OccursAt(s, b, 0);
    if q == -1 {
      assert [s[0]] + rest == s;
    } else {
      assert [s[0]] + rest == s[..q + 1] + b + x by {
        assert [s[0]] + s[1..][..q] == s[..q + 1];
      }
      PrefixNotCopy(s, b, q + 1, x);
    }
  }

  /** A copy of `b` placed after a non-empty prefix of `s` cannot complete a `b` starting at 0. */
  lemma PrefixNotCopy(s: string, b: string, p: nat, x: string)
    requires b != [] && Unbordered(b) && !OccursAt(s, b, 0) && 1 <= p <= |s|
    ensures (s[..p] + b + x)[..|b|] != b
  {
    var t := s[..p] + b + x;
    if |b| <= p {
      assert t[..|b|] == s[..|b|];
    } else {
      var m := |b| - p;
      assert t[..|b|][|b| - m..] == b[..m];
      assert b[..m] != b[|b| - m..];
    }
  }

  /** Replacing one character by another rewrites character by character. */
  lemma {:induction false} SwapChar(s: string, x: char, y: char, t: string)
    requires |t| == |s|
    requires forall i :: 0 <= i < |s| ==> t[i] == if s[i] == x then y else s[i]
    ensures ReplaceAll(s, [x], [y]) == t
  {
    if s != [] {
      SwapChar(s[1..], x, y, t[1..]);
      if s[0] == x {
        assert s[..1] == [x];
      } else {
        assert s[..1] != [x];
      }
      assert t == [t[0]] + t[1..];
    }
  }

  /** `s.split(c)`. */
  function SplitOn(s: string, c: char): (r: seq<string>)
    ensures |r| >= 1
    decreases |s|
  {
    if s == [] then [""]
    else
      var rest := SplitOn(s[1..], c);
      if s[0] == c then [""] + rest else [[s[0]] + rest[0]] + rest[1..]
  }

  /** `c.join(parts)`. */
  function JoinWith(parts: seq<string>, c: char): string
  {
    if parts == [] then ""
    else if |parts| == 1 then parts[0]
    else parts[0] + [c] + JoinWith(parts[1..], c)
  }

  /** Splitting undoes joining when no part contains the separator. */
  lemma {:induction false} SplitJoin(parts: seq<string>, c: char)
    requires |parts| >= 1
    requires forall i :: 0 <= i < |parts| ==> c !in parts[i]
    ensures SplitOn(JoinWith(parts, c), c) == parts
  {
    if |parts| == 1 {
      SplitPlain(parts[0], c);
    } else {
      SplitJoin(parts[1..], c);
      SplitPrefix(parts[0], JoinWith(parts[1..], c), c);
    }
  }

  lemma {:induction false} SplitPlain(s: string, c: char)
    requires c !in s
    ensures SplitOn(s, c) == [s]
  {
    if s != [] {
      SplitPlain(s[1..], c);
      assert [s[0]] + s[1..] == s;
    }
  }

  lemma {:induction false} SplitPrefix(p: string, t: string, c: char)
    requires c !in p
    ensures SplitOn(p + [c] + t, c) == [p] + SplitOn(t, c)
  {
    if p == [] {
      assert p + [c] + t == [c] + t;
      assert ([c] + t)[1..] == t;
    } else {
      assert (p + [c] + t)[1..] == p[1..] + [c] + t;
      SplitPrefix(p[1..], t, c);
      assert [p[0]] + p[1..] == p;
    }
  }

  /** `os.path.join(a, b)` on POSIX. */
  function PathJoin(a: string, b: string): string
  {
    if |b| > 0 && b[0] == '/' then b
    else if a == "" || a[|a| - 1] == '/' then a + b
    else a + "/" + b
  }

  /** Python's `<=` on strings: code-point order, a prefix before its extensions. */
  predicate LexLe(a: string, b: string)
  {
    a == [] || (b != [] && (a[0] < b[0] || (a[0] == b[0] && LexLe(a[1..], b[1..]))))
  }

  lemma {:induction false} LexLeTotal(a: string, b: string)
    ensures LexLe(a, b) || LexLe(b, a)
  {
    if a != [] && b != [] && a[0] == b[0] {
      LexLeTotal(a[1..], b[1..]);
    }
  }

  lemma {:induction false} LexLeTrans(a: string, b: string, c: string)
    requires LexLe(a, b) && LexLe(b, c)
    ensures LexLe(a, c)
  {
    if a != [] && b != [] && c != [] && a[0] == b[0] == c[0] {
      LexLeTrans(a[1..], b[1..], c[1..]);
    }
  }

  predicate Sorted(s: seq<string>)
  {
    forall i, j :: 0 <= i < j < |s| ==> LexLe(s[i], s[j])
  }

  /** Inserts `x` into a sorted sequence before the first element above it. */
  function Insert(x: string, s: seq<string>): (r: seq<string>)
    requires Sorted(s)
    ensures Sorted(r) && multiset(r) == multiset(s) + multiset{x}
  {
    if s == [] then [x]
    else if LexLe(x, s[0]) then
      assert forall j :: 0 <= j < |s| ==> LexLe(x, s[j]) by {
        forall j | 0 < j < |s| ensures LexLe(x, s[j]) { LexLeTrans(x, s[0], s[j]); }
      }
      SortedCons(x, s);
      [x] + s
    else
      var t := Insert(x, s[1..]);
      InsertBelow(x, s, t);
      SortedCons(s[0], t);
      assert s == [s[0]] + s[1..];
      [s[0]] + t
  }

  lemma SortedCons(h: string, t: seq<string>)
    requires Sorted(t)
    requires forall j :: 0 <= j < |t| ==> LexLe(h, t[j])
    ensures Sorted([h] + t)
  {
    var r := [h] + t;
    forall i, j | 0 <= i < j < |r| ensures LexLe(r[i], r[j]) {
      if i > 0 {
        assert r[i] == t[i - 1] && r[j] == t[j - 1];
      }
    }
  }

  lemma InsertBelow(x: string, s: seq<string>, t: seq<string>)
    requires Sorted(s) && s != [] && !LexLe(x, s[0])
    requires multiset(t) == multiset(s[1..]) + multiset{x}
    ensures forall j :: 0 <= j < |t| ==> LexLe(s[0], t[j])
  {
    LexLeTotal(x, s[0]);
    forall j | 0 <= j < |t| ensures LexLe(s[0], t[j]) {
      assert t[j] in multiset(t);
      if t[j] != x {
        assert t[j] in multiset(s[1..]);
        var k :| 0 <= k < |s[1..]| && s[1..][k] == t[j];
        assert s[k + 1] == t[j];
      }
    }
  }

  /** `sorted(xs)`: a sorted permutation of `xs`. */
  function SortStrings(xs: seq<string>): (r: seq<string>)
    ensures Sorted(r) && multiset(r) == multiset(xs)
  {
    if xs == [] then []
    else
      assert xs == xs[..|xs| - 1] + [xs[|xs| - 1]];
      Insert(xs[|xs| - 1], SortStrings(xs[..|xs| - 1]))
  }
}
