/** Facts about Python lists used by several parts of the model: lists
    without repeated entries, and one list appearing inside another in order
    (a subsequence). */
module Sequences {

  ghost predicate NoDup<T>(s: seq<T>) {
    forall i, j :: 0 <= i < j < |s| ==> s[i] != s[j]
  }

  /** `a` is obtained from `b` by deleting entries; the order of what is left
      is untouched. */
  ghost predicate IsSubseq<T>(a: seq<T>, b: seq<T>)
    decreases |b|
  {
    || a == []
    || (&& b != []
        && (|| (a != [] && a[|a| - 1] == b[|b| - 1] && IsSubseq(a[..|a| - 1], b[..|b| - 1]))
            || IsSubseq(a, b[..|b| - 1])))
  }

  lemma {:induction false} SubseqRefl<T>(a: seq<T>)
    ensures IsSubseq(a, a)
    decreases |a|
  {
    if a != [] {
      SubseqRefl(a[..|a| - 1]);
    }
  }

  lemma SubseqEmpty<T>(a: seq<T>)
    requires IsSubseq(a, [])
    ensures a == []
  {
  }

  lemma {:induction false} SubseqExtendRight<T>(a: seq<T>, b: seq<T>, c: seq<T>)
    requires IsSubseq(a, b)
    ensures IsSubseq(a, b + c)
    decreases |c|
  {
    if c != [] {
      var c' := c[..|c| - 1];
      SubseqExtendRight(a, b, c');
      assert (b + c)[..|b + c| - 1] == b + c';
    } else {
      assert b + c == b;
    }
  }

  lemma {:induction false} SubseqExtendLeft<T>(a: seq<T>, b: seq<T>, c: seq<T>)
    requires IsSubseq(a, b)
    ensures IsSubseq(a, c + b)
    decreases |b|
  {
    if a == [] {
    } else if b == [] {
      SubseqEmpty(a);
    } else {
      var b' := b[..|b| - 1];
      assert (c + b)[..|c + b| - 1] == c + b';
      assert (c + b)[|c + b| - 1] == b[|b| - 1];
      if a[|a| - 1] == b[|b| - 1] && IsSubseq(a[..|a| - 1], b') {
        SubseqExtendLeft(a[..|a| - 1], b', c);
      } else {
        SubseqExtendLeft(a, b', c);
      }
    }
  }

  /** Subsequences can be placed side by side. */
  lemma {:induction false} SubseqConcat<T>(a: seq<T>, b: seq<T>, c: seq<T>, d: seq<T>)
    requires IsSubseq(a, b) && IsSubseq(c, d)
    ensures IsSubseq(a + c, b + d)
    decreases |d|
  {
    if d == [] {
      SubseqEmpty(c);
      assert a + c == a && b + d == b;
    } else {
      var d' := d[..|d| - 1];
      assert (b + d)[..|b + d| - 1] == b + d';
      assert (b + d)[|b + d| - 1] == d[|d| - 1];
      if c == [] {
        assert a + c == a;
        SubseqExtendRight(a, b, d);
      } else if c[|c| - 1] == d[|d| - 1] && IsSubseq(c[..|c| - 1], d') {
        SubseqConcat(a, b, c[..|c| - 1], d');
        assert (a + c)[..|a + c| - 1] == a + c[..|c| - 1];
      } else {
        SubseqConcat(a, b, c, d');
      }
    }
  }

  lemma SubseqAppend<T>(a: seq<T>, b: seq<T>, x: T)
    requires IsSubseq(a, b)
    ensures IsSubseq(a + [x], b + [x])
  {
    assert (a + [x])[..|a|] == a;
    assert (b + [x])[..|b|] == b;
  }

  /** Every entry of a subsequence is an entry of the whole. */
  lemma {:induction false} SubseqMembers<T>(a: seq<T>, b: seq<T>)
    requires IsSubseq(a, b)
    ensures forall x :: x in a ==> x in b
    decreases |b|
  {
    if a != [] {
      var b' := b[..|b| - 1];
      assert b == b' + [b[|b| - 1]];
      if a[|a| - 1] == b[|b| - 1] && IsSubseq(a[..|a| - 1], b') {
        SubseqMembers(a[..|a| - 1], b');
        assert a == a[..|a| - 1] + [a[|a| - 1]];
      } else {
        SubseqMembers(a, b');
      }
    }
  }

  /** Two subsequence steps make one. */
  lemma {:induction false} SubseqTrans<T>(a: seq<T>, b: seq<T>, c: seq<T>)
    requires IsSubseq(a, b) && IsSubseq(b, c)
    ensures IsSubseq(a, c)
    decreases |c|
  {
    if a == [] {
    } else if c == [] {
      SubseqEmpty(b);
    } else {
      var c' := c[..|c| - 1];
      if b != [] && b[|b| - 1] == c[|c| - 1] && IsSubseq(b[..|b| - 1], c') {
        var b' := b[..|b| - 1];
        if a[|a| - 1] == b[|b| - 1] && IsSubseq(a[..|a| - 1], b') {
          SubseqTrans(a[..|a| - 1], b', c');
        } else {
          SubseqTrans(a, b', c');
        }
      } else {
        SubseqTrans(a, b, c');
      }
    }
  }

  /** A slice inside the left operand of a concatenation. */
  lemma ConcatSliceLeft<T>(a: seq<T>, b: seq<T>, i: int, j: int)
    requires 0 <= i <= j <= |a|
    ensures (a + b)[i..j] == a[i..j]
  {
  }

  /** A slice inside the right operand of a concatenation. */
  lemma ConcatSliceRight<T>(a: seq<T>, b: seq<T>, i: int, j: int)
    requires 0 <= i <= j <= |b|
    ensures (a + b)[|a| + i..|a| + j] == b[i..j]
  {
  }

  /** Cutting a concatenation inside its right operand. */
  lemma ConcatCut<T>(a: seq<T>, b: seq<T>, q: int)
    requires 0 <= q <= |b|
    ensures (a + b)[..|a| + q] == a + b[..q] && (a + b)[|a| + q..] == b[q..]
  {
  }
}
