/** Python `str` operations the core relies on: ordering, `sorted(..., reverse=True)`,
    `str.endswith`, `in` and `str.replace`. */
module Strings {

  /** Python's `a < b` on `str`: lexicographic by code point, a proper prefix sorts first. */
  predicate Below(a: string, b: string)
    decreases |a|
  {
    |b| > 0 && (|a| == 0 || a[0] < b[0] || (a[0] == b[0] && Below(a[1..], b[1..])))
  }

  lemma {:induction false} BelowIrreflexive(a: string)
    ensures !Below(a, a)
    decreases |a|
  {
    if |a| > 0 {
      BelowIrreflexive(a[1..]);
    }
  }

  lemma {:induction false} BelowAsymmetric(a: string, b: string)
    ensures Below(a, b) ==> !Below(b, a)
    decreases |a|
  {
    if |a| > 0 && |b| > 0 && a[0] == b[0] {
      BelowAsymmetric(a[1..], b[1..]);
    }
  }

  lemma {:induction false} BelowTransitive(a: string, b: string, c: string)
    requires Below(a, b) && Below(b, c)
    ensures Below(a, c)
    decreases |a|
  {
    if |a| > 0 && a[0] == b[0] && b[0] == c[0] {
      BelowTransitive(a[1..], b[1..], c[1..]);
    }
  }

  lemma {:induction false} BelowTotal(a: string, b: string)
    ensures a == b || Below(a, b) || Below(b, a)
    decreases |a|
  {
    if |a| > 0 && |b| > 0 && a[0] == b[0] {
      BelowTotal(a[1..], b[1..]);
      if a[1..] == b[1..] {
        assert a == [a[0]] + a[1..] && b == [b[0]] + b[1..];
      }
    }
  }

  /** Comparing two strings whose first parts have equal length: the first parts decide,
      and only when they are equal do the second parts. */
  lemma {:induction false} BelowConcat(x1: string, x2: string, y1: string, y2: string)
    requires |x1| == |y1|
    ensures Below(x1 + x2, y1 + y2) <==> Below(x1, y1) || (x1 == y1 && Below(x2, y2))
    decreases |x1|
  {
    if |x1| > 0 {
      assert (x1 + x2)[0] == x1[0] && (y1 + y2)[0] == y1[0];
      assert (x1 + x2)[1..] == x1[1..] + x2 && (y1 + y2)[1..] == y1[1..] + y2;
      BelowConcat(x1[1..], x2, y1[1..], y2);
      if x1[0] == y1[0] && x1[1..] == y1[1..] {
        assert x1 == [x1[0]] + x1[1..] && y1 == [y1[0]] + y1[1..];
      }
      if x1 == y1 {
        assert x1[1..] == y1[1..];
      }
    } else {
      assert x1 + x2 == x2 && y1 + y2 == y2;
    }
  }

  /** The largest element of a non-empty set of strings. */
  function Largest(s: set<string>): (m: string)
    requires s != {}
    ensures m in s
    ensures forall x :: x in s && x != m ==> Below(x, m)
  {
    LargestExists(s);
    BelowAsymmetricAll();
    var m :| m in s && forall x :: x in s && x != m ==> Below(x, m);
    m
  }

  lemma BelowAsymmetricAll()
    ensures forall a, b :: Below(a, b) ==> !Below(b, a)
  {
    forall a, b ensures Below(a, b) ==> !Below(b, a) {
      BelowAsymmetric(a, b);
    }
  }

  lemma {:induction false} LargestExists(s: set<string>)
    requires s != {}
    ensures exists m :: m in s && forall x :: x in s && x != m ==> Below(x, m)
    decreases |s|
  {
    var y :| y in s;
    if s == {y} {
      assert forall x :: x in s && x != y ==> Below(x, y);
    } else {
      var rest := s - {y};
      assert |rest| == |s| - 1;
      LargestExists(rest);
      var m :| m in rest && forall x :: x in rest && x != m ==> Below(x, m);
      BelowTotal(y, m);
      if Below(y, m) {
        KeepLargest(s, y, m);
        assert m in s;
      } else {
        NewLargest(s, y, m);
      }
    }
  }

  /** Adding an element below the largest keeps the largest. */
  lemma KeepLargest(s: set<string>, y: string, m: string)
    requires m in s && y != m && Below(y, m)
    requires forall x :: x in s - {y} && x != m ==> Below(x, m)
    ensures forall x :: x in s && x != m ==> Below(x, m)
  {
    forall x | x in s && x != m
      ensures Below(x, m)
    {
      if x != y {
        assert x in s - {y};
      }
    }
  }

  /** Adding an element above the largest makes it the largest. */
  lemma NewLargest(s: set<string>, y: string, m: string)
    requires m in s && Below(m, y)
    requires forall x :: x in s - {y} && x != m ==> Below(x, m)
    ensures forall x :: x in s && x != y ==> Below(x, y)
  {
    forall x | x in s && x != y
      ensures Below(x, y)
    {
      if x != m {
        assert x in s - {y};
        BelowTransitive(x, m, y);
      }
    }
  }

  /** `sorted(s, reverse=True)` over a set of distinct strings: every element exactly once,
      in strictly descending order. */
  function SortedDescending(s: set<string>): (r: seq<string>)
    ensures |r| == |s|
    ensures forall x :: x in r <==> x in s
    ensures forall i, j :: 0 <= i < j < |r| ==> Below(r[j], r[i])
    decreases |s|
  {
    if s == {} then []
    else
      var m := Largest(s);
      [m] + SortedDescending(s - {m})
  }

  /** `s.endswith(suffix)` */
  predicate EndsWith(s: string, suffix: string)
  {
    |suffix| <= |s| && s[|s| - |suffix|..] == suffix
  }

  /** `s.startswith(prefix)` */
  predicate StartsWith(s: string, prefix: string)
  {
    |prefix| <= |s| && s[..|prefix|] == prefix
  }

  /** `p in s`, scanned left to right. */
  predicate Contains(s: string, p: string)
    decreases |s|
  {
    StartsWith(s, p) || (|s| > 0 && Contains(s[1..], p))
  }

  /** `Contains` holds exactly when `p` occurs at some position of `s`. */
  lemma {:induction false} ContainsAt(s: string, p: string)
    ensures Contains(s, p) <==> exists i :: 0 <= i <= |s| && StartsWith(s[i..], p)
    decreases |s|
  {
    assert s[0..] == s;
    if |s| > 0 {
      ContainsAt(s[1..], p);
      if Contains(s[1..], p) {
        var i :| 0 <= i <= |s[1..]| && StartsWith(s[1..][i..], p);
        assert s[i + 1..] == s[1..][i..];
      }
      if exists i :: 0 <= i <= |s| && StartsWith(s[i..], p) {
        var i :| 0 <= i <= |s| && StartsWith(s[i..], p);
        if i > 0 {
          assert s[1..][i - 1..] == s[i..];
        }
      }
    }
  }

  /** `s.replace(pat, rep)`: every non-overlapping occurrence of `pat`, found left to right,
      is replaced by `rep`. */
  function ReplaceAll(s: string, pat: string, rep: string): string
    requires |pat| > 0
    decreases |s|
  {
    if |s| < |pat| then s
    else if s[..|pat|] == pat then rep + ReplaceAll(s[|pat|..], pat, rep)
    else [s[0]] + ReplaceAll(s[1..], pat, rep)
  }

  /** Replacing a single character by text that does not hold it leaves no occurrence of it. */
  lemma {:induction false} ReplaceCharRemovesIt(s: string, c: char, rep: string)
    requires c !in rep
    ensures c !in ReplaceAll(s, [c], rep)
    decreases |s|
  {
    if |s| >= 1 {
      ReplaceCharRemovesIt(s[1..], c, rep);
      if s[..1] != [c] {
        assert s[0] != c;
      }
    }
  }

  /** A string without an occurrence of `pat` is left as it is. */
  lemma {:induction false} ReplaceAbsent(s: string, pat: string, rep: string)
    requires |pat| > 0 && !Contains(s, pat)
    ensures ReplaceAll(s, pat, rep) == s
    decreases |s|
  {
    if |s| >= |pat| {
      assert !StartsWith(s, pat);
      ReplaceAbsent(s[1..], pat, rep);
      assert s == [s[0]] + s[1..];
    }
  }

  /** Replacing a leading occurrence. */
  lemma ReplaceLeading(p: string, t: string, rep: string)
    requires |p| > 0
    ensures ReplaceAll(p + t, p, rep) == rep + ReplaceAll(t, p, rep)
  {
    assert (p + t)[..|p|] == p;
    assert (p + t)[|p|..] == t;
  }
}
