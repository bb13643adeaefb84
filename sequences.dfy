/** Order-preserving deletion ("a is obtained from b by deleting elements"),
    the relation every label-cleaning step and every edge/node filter keeps. */
module Sequences {

  /** True iff `a` can be obtained from `b` by deleting elements, keeping order. */
  predicate SubseqOf<T(==)>(a: seq<T>, b: seq<T>)
    decreases |b|
  {
    if a == [] then true
    else if b == [] then false
    else (a[0] == b[0] && SubseqOf(a[1..], b[1..])) || SubseqOf(a, b[1..])
  }

  lemma {:induction false} SubseqRefl<T>(a: seq<T>)
    ensures SubseqOf(a, a)
    decreases |a|
  {
    if a != [] {
      SubseqRefl(a[1..]);
    }
  }

  lemma {:induction false} SubseqLength<T>(a: seq<T>, b: seq<T>)
    requires SubseqOf(a, b)
    ensures |a| <= |b|
    decreases |b|
  {
    if a != [] {
      if a[0] == b[0] && SubseqOf(a[1..], b[1..]) {
        SubseqLength(a[1..], b[1..]);
      } else {
        SubseqLength(a, b[1..]);
      }
    }
  }

  /** Deleting elements never introduces an element. */
  lemma {:induction false} SubseqMember<T>(a: seq<T>, b: seq<T>, x: T)
    requires SubseqOf(a, b) && x in a
    ensures x in b
    decreases |b|
  {
    if a[0] == b[0] && SubseqOf(a[1..], b[1..]) {
      if x != a[0] {
        SubseqMember(a[1..], b[1..], x);
      }
    } else {
      SubseqMember(a, b[1..], x);
    }
  }

  lemma {:induction false} SubseqTrans<T>(a: seq<T>, b: seq<T>, c: seq<T>)
    requires SubseqOf(a, b) && SubseqOf(b, c)
    ensures SubseqOf(a, c)
    decreases |c|
  {
    if a != [] {
      if b[0] == c[0] && SubseqOf(b[1..], c[1..]) {
        if a[0] == b[0] && SubseqOf(a[1..], b[1..]) {
          SubseqTrans(a[1..], b[1..], c[1..]);
        } else {
          SubseqTrans(a, b[1..], c[1..]);
        }
      } else {
        SubseqTrans(a, b, c[1..]);
      }
    }
  }

  /** Dropping one element keeps a subsequence a subsequence. */
  lemma {:induction false} SubseqConsRight<T>(a: seq<T>, x: T, b: seq<T>)
    requires SubseqOf(a, b)
    ensures SubseqOf(a, [x] + b)
  {
    assert ([x] + b)[1..] == b;
  }

  lemma {:induction false} SubseqCons<T>(x: T, a: seq<T>, b: seq<T>)
    requires SubseqOf(a, b)
    ensures SubseqOf([x] + a, [x] + b)
  {
    assert ([x] + a)[1..] == a;
    assert ([x] + b)[1..] == b;
  }

  lemma {:induction false} EmptySubseq<T>(b: seq<T>)
    ensures SubseqOf([], b)
  {
  }

  /** A suffix is a subsequence. */
  lemma {:induction false} SuffixSubseq<T>(b: seq<T>, k: nat)
    requires k <= |b|
    ensures SubseqOf(b[k..], b)
    decreases k
  {
    if k == 0 {
      assert b[0..] == b;
      SubseqRefl(b);
    } else {
      SuffixSubseq(b[1..], k - 1);
      assert b[1..][k - 1..] == b[k..];
      if b[k..] != [] {
        assert SubseqOf(b[k..], b[1..]);
      }
    }
  }

  /** A prefix is a subsequence. */
  lemma {:induction false} PrefixSubseq<T>(b: seq<T>, k: nat)
    requires k <= |b|
    ensures SubseqOf(b[..k], b)
    decreases k
  {
    if k > 0 {
      PrefixSubseq(b[1..], k - 1);
      assert b[1..][..k - 1] == b[..k][1..];
      assert b[..k][0] == b[0];
    }
  }

  /** Subsequences of the two halves concatenate to a subsequence of the whole. */
  lemma {:induction false} SubseqConcat<T>(a1: seq<T>, b1: seq<T>, a2: seq<T>, b2: seq<T>)
    requires SubseqOf(a1, b1) && SubseqOf(a2, b2)
    ensures SubseqOf(a1 + a2, b1 + b2)
    decreases |b1|
  {
    if b1 == [] {
      assert a1 == [];
      assert a1 + a2 == a2 && b1 + b2 == b2;
    } else if a1 != [] && a1[0] == b1[0] && SubseqOf(a1[1..], b1[1..]) {
      SubseqConcat(a1[1..], b1[1..], a2, b2);
      assert (a1 + a2)[1..] == a1[1..] + a2;
      assert (b1 + b2)[1..] == b1[1..] + b2;
    } else {
      if a1 == [] {
        assert SubseqOf(a1, b1[1..]);
      }
      SubseqConcat(a1, b1[1..], a2, b2);
      assert (b1 + b2)[1..] == b1[1..] + b2;
      if a1 + a2 != [] {
        assert SubseqOf(a1 + a2, (b1 + b2)[1..]);
      }
    }
  }

  /** Cutting out the slice b[i..j] leaves a subsequence. */
  lemma {:induction false} CutSubseq<T>(b: seq<T>, i: nat, j: nat)
    requires i <= j <= |b|
    ensures SubseqOf(b[..i] + b[j..], b)
  {
    SubseqRefl(b[..i]);
    SuffixSubseq(b[i..], j - i);
    assert b[i..][j - i..] == b[j..];
    SubseqConcat(b[..i], b[..i], b[j..], b[i..]);
    assert b[..i] + b[i..] == b;
  }

  /** The elements of `s` once each, in order: what iterating a JavaScript
      `Set` built from `s` visits. An element comes before another exactly
      when its first occurrence in `s` does. */
  function Distinct<T(==,!new)>(s: seq<T>): (r: seq<T>)
    ensures forall x :: x in r <==> x in s
    ensures forall i, j :: 0 <= i < j < |r| ==> r[i] != r[j]
    ensures SubseqOf(r, s)
    ensures forall i, j :: 0 <= i < j < |r| ==> FirstBefore(s, r[i], r[j])
  {
    if s == [] then []
    else
      var init := s[..|s| - 1];
      var d := Distinct(init);
      assert s == init + [s[|s| - 1]];
      PrefixSubseq(s, |s| - 1);
      if s[|s| - 1] in d then
        SubseqTrans(d, init, s);
        OrderGrow(d, init, s[|s| - 1]);
        d
      else
        SubseqRefl([s[|s| - 1]]);
        SubseqConcat(d, init, [s[|s| - 1]], [s[|s| - 1]]);
        OrderGrow(d, init, s[|s| - 1]);
        OrderAppend(d, init, s[|s| - 1]);
        d + [s[|s| - 1]]
  }

  /** `a` occurs in `s` before any occurrence of `b`. */
  ghost predicate FirstBefore<T>(s: seq<T>, a: T, b: T) {
    exists k :: 0 <= k < |s| && s[k] == a && b !in s[..k]
  }

  /** Each element of `r` occurs in `s` before any occurrence of every later
      element of `r`. */
  ghost predicate FirstOccurrenceOrder<T>(r: seq<T>, s: seq<T>) {
    forall i, j :: 0 <= i < j < |r| ==> FirstBefore(s, r[i], r[j])
  }

  /** Appending to `s` keeps every first-occurrence witness. */
  lemma {:induction false} OrderGrow<T>(r: seq<T>, s: seq<T>, x: T)
    requires FirstOccurrenceOrder(r, s)
    ensures FirstOccurrenceOrder(r, s + [x])
  {
    var t := s + [x];
    forall i, j | 0 <= i < j < |r|
      ensures FirstBefore(t, r[i], r[j])
    {
      var k :| 0 <= k < |s| && s[k] == r[i] && r[j] !in s[..k];
      assert t[..k] == s[..k] && t[k] == s[k];
    }
  }

  /** An element new to `s` goes after every element of `s`. */
  lemma {:induction false} OrderAppend<T>(r: seq<T>, s: seq<T>, x: T)
    requires forall y :: y in r ==> y in s
    requires x !in s
    requires FirstOccurrenceOrder(r, s + [x])
    ensures FirstOccurrenceOrder(r + [x], s + [x])
  {
    var t := s + [x];
    var r' := r + [x];
    forall i, j | 0 <= i < j < |r'|
      ensures FirstBefore(t, r'[i], r'[j])
    {
      assert r'[i] == r[i];
      if j < |r| {
        assert r'[j] == r[j];
        assert FirstBefore(t, r[i], r[j]);
      } else {
        assert r'[j] == x;
        assert r[i] in r;
        var k :| 0 <= k < |s| && s[k] == r[i];
        assert t[k] == s[k] && t[..k] == s[..k];
        assert t[k] == r'[i] && r'[j] !in t[..k];
      }
    }
  }
}
