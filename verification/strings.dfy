/** The Python `str` operations the component store is built on: `strip()`,
    `split(sep)`, `sep.join(parts)`, and `<=` on strings (code-point order). */
module Strings {

  /** Python's `str.isspace()` on one character: what `strip()` removes. */
  predicate IsSpace(c: char)
  {
    var n := c as int;
    (0x09 <= n <= 0x0D) || (0x1C <= n <= 0x20) || n == 0x85 || n == 0xA0
    || n == 0x1680 || (0x2000 <= n <= 0x200A) || n == 0x2028 || n == 0x2029
    || n == 0x202F || n == 0x205F || n == 0x3000
  }

  predicate AllSpace(s: string)
  {
    forall i :: 0 <= i < |s| ==> IsSpace(s[i])
  }

  /** The number of leading whitespace characters of `s`. */
  function LeadingSpace(s: string): (n: nat)
    ensures n <= |s| && AllSpace(s[..n])
    ensures n == |s| || !IsSpace(s[n])
  {
    if |s| > 0 && IsSpace(s[0]) then
      var n := 1 + LeadingSpace(s[1..]);
      assert s[..n] == [s[0]] + s[1..][..n - 1];
      n
    else
      0
  }

  /** The number of trailing whitespace characters of `s`. */
  function TrailingSpace(s: string): (n: nat)
    ensures n <= |s| && AllSpace(s[|s| - n..])
    ensures n == |s| || !IsSpace(s[|s| - n - 1])
  {
    if |s| > 0 && IsSpace(s[|s| - 1]) then
      var n := 1 + TrailingSpace(s[..|s| - 1]);
      assert s[|s| - n..] == s[..|s| - 1][|s| - n..] + [s[|s| - 1]];
      n
    else
      0
  }

  /** `s.strip()`, i.e. `s.lstrip().rstrip()`: `s` is the result padded with
      whitespace on both sides, and the result neither starts nor ends with
      whitespace. */
  function Strip(s: string): (r: string)
    ensures r == [] || (!IsSpace(r[0]) && !IsSpace(r[|r| - 1]))
    ensures r == [] <==> AllSpace(s)
    ensures LeadingSpace(s) + |r| <= |s|
    ensures r == s[LeadingSpace(s)..LeadingSpace(s) + |r|]
    ensures AllSpace(s[LeadingSpace(s) + |r|..])
  {
    var i := LeadingSpace(s);
    var left := s[i..];
    var j := |left| - TrailingSpace(left);
    assert s[i + j..] == left[j..];
    assert AllSpace(s) ==> i == |s|;
    assert i == |s| ==> s[..i] == s;
    left[..j]
  }

  lemma AllSpaceConcat(a: string, b: string)
    requires AllSpace(a) && AllSpace(b)
    ensures AllSpace(a + b)
  {
    assert forall k :: 0 <= k < |a + b| ==> (a + b)[k] == if k < |a| then a[k] else b[k - |a|];
  }

  lemma {:induction false} LeadingSpacePadded(a: string, x: string)
    requires AllSpace(a)
    ensures LeadingSpace(a + x) == |a| + LeadingSpace(x)
    decreases |a|
  {
    if |a| > 0 {
      assert (a + x)[0] == a[0];
      assert (a + x)[1..] == a[1..] + x;
      LeadingSpacePadded(a[1..], x);
    } else {
      assert a + x == x;
    }
  }

  lemma {:induction false} LeadingSpaceAppend(x: string, b: string)
    requires !AllSpace(x)
    ensures LeadingSpace(x + b) == LeadingSpace(x)
    decreases |x|
  {
    assert (x + b)[0] == x[0];
    if IsSpace(x[0]) {
      assert (x + b)[1..] == x[1..] + b;
      assert !AllSpace(x[1..]) by {
        var k :| 0 <= k < |x| && !IsSpace(x[k]);
        assert x[1..][k - 1] == x[k];
      }
      LeadingSpaceAppend(x[1..], b);
    }
  }

  lemma {:induction false} TrailingSpacePadded(x: string, b: string)
    requires AllSpace(b)
    ensures TrailingSpace(x + b) == |b| + TrailingSpace(x)
    decreases |b|
  {
    if |b| > 0 {
      var s := x + b;
      assert s[|s| - 1] == b[|b| - 1];
      assert s[..|s| - 1] == x + b[..|b| - 1];
      TrailingSpacePadded(x, b[..|b| - 1]);
    } else {
      assert x + b == x;
    }
  }

  /** Leading whitespace is invisible to `strip()`. */
  lemma StripPrefixPadded(p: string, x: string)
    requires AllSpace(p)
    ensures Strip(p + x) == Strip(x)
  {
    LeadingSpacePadded(p, x);
    assert (p + x)[|p| + LeadingSpace(x)..] == x[LeadingSpace(x)..];
  }

  /** Trailing whitespace is invisible to `strip()`. */
  lemma StripSuffixPadded(x: string, q: string)
    requires AllSpace(q)
    ensures Strip(x + q) == Strip(x)
  {
    if AllSpace(x) {
      AllSpaceConcat(x, q);
    } else {
      LeadingSpaceAppend(x, q);
      var i := LeadingSpace(x);
      var left := x[i..];
      assert (x + q)[i..] == left + q;
      TrailingSpacePadded(left, q);
      var j := |left| - TrailingSpace(left);
      assert (left + q)[..j] == left[..j];
    }
  }

  /** A string that neither starts nor ends with whitespace is its own
      strip. */
  lemma StripTrimmed(s: string)
    requires s == [] || (!IsSpace(s[0]) && !IsSpace(s[|s| - 1]))
    ensures Strip(s) == s
  {
    if s != [] {
      assert LeadingSpace(s) == 0;
      assert TrailingSpace(s) == 0;
      assert s[0..] == s;
    }
  }

  /** Stripping only ever removes characters: a character absent from `s`
      is absent from `Strip(s)`. */
  lemma StripKeepsAbsence(s: string, c: char)
    requires c !in s
    ensures c !in Strip(s)
  {
    var r := Strip(s);
    var i := LeadingSpace(s);
    assert forall k :: 0 <= k < |r| ==> r[k] == s[i + k];
  }

  // ---------------------------------------------------------------------------
  // split and join

  /** `sep.join(parts)` */
  function Join(parts: seq<string>, sep: char): string
  {
    if |parts| == 0 then ""
    else if |parts| == 1 then parts[0]
    else parts[0] + [sep] + Join(parts[1..], sep)
  }

  /** `s.index(c)`: the position of the first `c` in `s`. */
  function IndexOf(s: string, c: char): (i: nat)
    requires c in s
    ensures i < |s| && s[i] == c && c !in s[..i]
  {
    if s[0] == c then 0
    else
      var i := 1 + IndexOf(s[1..], c);
      assert s[..i] == [s[0]] + s[1..][..i - 1];
      i
  }

  /** The first occurrence is the only position with no earlier occurrence. */
  lemma {:induction false} IndexOfUnique(s: string, c: char, i: nat)
    requires i < |s| && s[i] == c && c !in s[..i]
    ensures IndexOf(s, c) == i
    decreases i
  {
    if i > 0 {
      assert s[..i][0] == s[0];
      assert s[1..][..i - 1] == s[..i][1..];
      IndexOfUnique(s[1..], c, i - 1);
    }
  }

  /** `s.split(sep)` for a one-character separator: the pieces between
      separators, left to right; there is at least one, and none contains
      `sep` (`JoinSplit` shows that joining them back gives `s`). */
  function Split(s: string, sep: char): (parts: seq<string>)
    ensures |parts| >= 1
    ensures forall i :: 0 <= i < |parts| ==> sep !in parts[i]
    decreases |s|
  {
    if sep !in s then [s]
    else
      var i := IndexOf(s, sep);
      [s[..i]] + Split(s[i + 1..], sep)
  }

  /** Joining the pieces of a split with the separator restores the string. */
  lemma {:induction false} JoinSplit(s: string, sep: char)
    ensures Join(Split(s, sep), sep) == s
    decreases |s|
  {
    if sep in s {
      var i := IndexOf(s, sep);
      JoinSplit(s[i + 1..], sep);
      var parts := Split(s, sep);
      assert parts[1..] == Split(s[i + 1..], sep);
      assert s == s[..i] + [sep] + s[i + 1..];
    }
  }

  /** Splitting at the first separator: the piece before it, then the
      pieces of the rest. */
  lemma SplitAt(s: string, sep: char, i: nat)
    requires i < |s| && s[i] == sep && sep !in s[..i]
    ensures Split(s, sep) == [s[..i]] + Split(s[i + 1..], sep)
  {
    IndexOfUnique(s, sep, i);
  }

  /** A separator-free head followed by a separator is the first piece. */
  lemma SplitAfterFirst(a: string, sep: char, b: string)
    requires sep !in a
    ensures Split(a + [sep] + b, sep) == [a] + Split(b, sep)
  {
    var s := a + [sep] + b;
    assert s[..|a|] == a && s[|a| + 1..] == b;
    SplitAt(s, sep, |a|);
  }

  /** Splitting distributes over a separator: the pieces of `a + sep + b` are
      the pieces of `a` followed by the pieces of `b`. */
  lemma {:induction false} SplitAtSeparator(a: string, sep: char, b: string)
    ensures Split(a + [sep] + b, sep) == Split(a, sep) + Split(b, sep)
    decreases |a|
  {
    if sep !in a {
      SplitAfterFirst(a, sep, b);
      SplitWithoutSeparator(a, sep);
    } else {
      var i := IndexOf(a, sep);
      var head, rest := a[..i], a[i + 1..];
      var t := rest + [sep] + b;
      assert Split(a + [sep] + b, sep) == [head] + Split(t, sep) by {
        AroundIndex(a, i);
        Regroup(head, [sep], rest, b);
        SplitAfterFirst(head, sep, t);
      }
      assert Split(a, sep) == [head] + Split(rest, sep) by {
        AroundIndex(a, i);
        SplitAfterFirst(head, sep, rest);
      }
      SplitAtSeparator(rest, sep, b);
      AppendAssoc([head], Split(rest, sep), Split(b, sep));
    }
  }

  lemma AppendAssoc<T>(p: seq<T>, q: seq<T>, r: seq<T>)
    ensures p + (q + r) == p + q + r
  { }

  lemma AroundIndex(s: string, i: nat)
    requires i < |s|
    ensures s == s[..i] + [s[i]] + s[i + 1..]
  {
  }

  lemma Regroup(h: string, m: string, r: string, b: string)
    ensures h + m + r + m + b == h + m + (r + m + b)
  {
  }

  /** A string without the separator is a single piece. */
  lemma SplitWithoutSeparator(s: string, sep: char)
    requires sep !in s
    ensures Split(s, sep) == [s]
  {
  }

  /** Splitting undoes joining, as long as no part contains the separator. */
  lemma {:induction false} SplitJoin(parts: seq<string>, sep: char)
    requires |parts| >= 1
    requires forall i :: 0 <= i < |parts| ==> sep !in parts[i]
    ensures Split(Join(parts, sep), sep) == parts
    decreases |parts|
  {
    if |parts| == 1 {
      assert Join(parts, sep) == parts[0];
      SplitWithoutSeparator(parts[0], sep);
    } else {
      var rest := Join(parts[1..], sep);
      assert Join(parts, sep) == parts[0] + [sep] + rest;
      SplitJoin(parts[1..], sep);
      SplitAfterFirst(parts[0], sep, rest);
      assert [parts[0]] + parts[1..] == parts;
    }
  }

  /** A separator-free prefix becomes part of the first piece. */
  lemma {:induction false} SplitPrepend(p: string, x: string, sep: char)
    requires sep !in p
    ensures var px := Split(x, sep);
            Split(p + x, sep) == [p + px[0]] + px[1..]
  {
    var s := p + x;
    var px := Split(x, sep);
    if sep in x {
      var i := IndexOf(x, sep);
      var k := |p| + i;
      var head, tail := s[..k], s[k + 1..];
      assert s[k] == sep;
      assert head == p + x[..i];
      assert tail == x[i + 1..];
      SplitAt(s, sep, k);
      SplitAt(x, sep, i);
      assert Split(s, sep) == [head] + Split(tail, sep);
      assert px == [x[..i]] + Split(tail, sep);
    } else {
      assert sep !in s;
      SplitWithoutSeparator(s, sep);
      SplitWithoutSeparator(x, sep);
      assert px[1..] == [];
      assert Split(s, sep) == [p + px[0]] + px[1..];
    }
  }

  /** A separator-free suffix becomes part of the last piece. */
  lemma {:induction false} SplitAppend(x: string, q: string, sep: char)
    requires sep !in q
    ensures var px := Split(x, sep);
            Split(x + q, sep) == px[..|px| - 1] + [px[|px| - 1] + q]
    decreases |x|
  {
    if sep in x {
      var i := IndexOf(x, sep);
      var s := x + q;
      assert s[..i] == x[..i];
      IndexOfUnique(s, sep, i);
      assert s[i + 1..] == x[i + 1..] + q;
      SplitAppend(x[i + 1..], q, sep);
      var py := Split(x[i + 1..], sep);
      var px := Split(x, sep);
      assert px == [x[..i]] + py;
      assert px[..|px| - 1] == [x[..i]] + py[..|py| - 1];
    }
  }

  // ---------------------------------------------------------------------------
  // the last path segment

  /** `path.split(sep)[-1]`: the part of `path` after its last `sep`. It is a
      suffix of `path` without `sep`, preceded by `sep` unless it is all of
      `path`. */
  function LastSegment(path: string, sep: char): (r: string)
    ensures sep !in r
    ensures |r| <= |path| && path[|path| - |r|..] == r
    ensures |r| == |path| || path[|path| - |r| - 1] == sep
  {
    var parts := Split(path, sep);
    JoinSplit(path, sep);
    JoinEndsWithLast(parts, sep);
    parts[|parts| - 1]
  }

  lemma {:induction false} JoinEndsWithLast(parts: seq<string>, sep: char)
    requires |parts| >= 1
    ensures var s, last := Join(parts, sep), parts[|parts| - 1];
            |last| <= |s| && s[|s| - |last|..] == last
            && (|parts| == 1 || (|last| < |s| && s[|s| - |last| - 1] == sep))
    decreases |parts|
  {
    if |parts| > 1 {
      JoinEndsWithLast(parts[1..], sep);
      var tail := Join(parts[1..], sep);
      var s := parts[0] + [sep] + tail;
      var last := parts[|parts| - 1];
      assert s[|s| - |tail|..] == tail;
      if |parts| == 2 {
        assert tail == last;
      }
    }
  }

  // ---------------------------------------------------------------------------
  // ordering

  /** `a <= b` on Python strings: lexicographic by code point. */
  predicate LexLe(a: string, b: string)
    decreases |a|
  {
    |a| == 0 || (|b| > 0 && (a[0] < b[0] || (a[0] == b[0] && LexLe(a[1..], b[1..]))))
  }

  lemma {:induction false} LexLeTotal(a: string, b: string)
    ensures LexLe(a, b) || LexLe(b, a)
    decreases |a|
  {
    if |a| > 0 && |b| > 0 && a[0] == b[0] {
      LexLeTotal(a[1..], b[1..]);
    }
  }

  lemma {:induction false} LexLeTransitive(a: string, b: string, c: string)
    requires LexLe(a, b) && LexLe(b, c)
    ensures LexLe(a, c)
    decreases |a|
  {
    if |a| > 0 && a[0] == b[0] && b[0] == c[0] {
      LexLeTransitive(a[1..], b[1..], c[1..]);
    }
  }

  lemma {:induction false} LexLeAntisymmetric(a: string, b: string)
    requires LexLe(a, b) && LexLe(b, a)
    ensures a == b
    decreases |a|
  {
    if |a| > 0 {
      LexLeAntisymmetric(a[1..], b[1..]);
      assert a == [a[0]] + a[1..];
      assert b == [b[0]] + b[1..];
    }
  }

  /** Comparing two strings that start with prefixes of equal length: the
      prefixes decide, unless they are equal. */
  lemma {:induction false} LexLeEqualLengthPrefix(p: string, x: string, q: string, y: string)
    requires |p| == |q|
    ensures LexLe(p + x, q + y) <==> (p != q && LexLe(p, q)) || (p == q && LexLe(x, y))
    decreases |p|
  {
    if |p| > 0 {
      assert (p + x)[1..] == p[1..] + x;
      assert (q + y)[1..] == q[1..] + y;
      LexLeEqualLengthPrefix(p[1..], x, q[1..], y);
      if p[0] == q[0] {
        assert p != q <==> p[1..] != q[1..] by {
          assert p == [p[0]] + p[1..];
          assert q == [q[0]] + q[1..];
        }
      } else {
        assert p != q;
      }
    } else {
      assert p == q;
      assert p + x == x && q + y == y;
    }
  }
}
