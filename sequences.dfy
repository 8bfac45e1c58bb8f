/** Order-preserving subsequences, prefixes and element counts over sequences. */
module Sequences {

  /** `sub` is obtained from `sup` by deleting zero or more elements, keeping the order of the rest. */
  ghost predicate IsSubsequence<T>(sub: seq<T>, sup: seq<T>)
    decreases |sup|
  {
    |sub| == 0 ||
    (|sup| > 0 &&
     ((sub[0] == sup[0] && IsSubsequence(sub[1..], sup[1..])) || IsSubsequence(sub, sup[1..])))
  }

  lemma {:induction false} SubsequenceRefl<T>(s: seq<T>)
    ensures IsSubsequence(s, s)
    decreases |s|
  {
    if |s| > 0 {
      SubsequenceRefl(s[1..]);
    }
  }

  /** Inserting elements in front of the larger sequence keeps the relation. */
  lemma {:induction false} SubsequenceInsert<T>(sub: seq<T>, sup: seq<T>, w: seq<T>)
    requires IsSubsequence(sub, sup)
    ensures IsSubsequence(sub, w + sup)
    decreases |w|
  {
    if |w| == 0 {
      assert w + sup == sup;
    } else {
      SubsequenceInsert(sub, sup, w[1..]);
      assert (w + sup)[1..] == w[1..] + sup;
    }
  }

  /** The relation is closed under concatenation. */
  lemma {:induction false} SubsequenceConcat<T>(a1: seq<T>, b1: seq<T>, a2: seq<T>, b2: seq<T>)
    requires IsSubsequence(a1, b1) && IsSubsequence(a2, b2)
    ensures IsSubsequence(a1 + a2, b1 + b2)
    decreases |b1|, |a1|
  {
    if |a1| == 0 {
      assert a1 + a2 == a2;
      SubsequenceInsert(a2, b2, b1);
    } else {
      assert (b1 + b2)[1..] == b1[1..] + b2;
      if a1[0] == b1[0] && IsSubsequence(a1[1..], b1[1..]) {
        SubsequenceConcat(a1[1..], b1[1..], a2, b2);
        assert (a1 + a2)[1..] == a1[1..] + a2;
      } else {
        SubsequenceConcat(a1, b1[1..], a2, b2);
      }
    }
  }

  /** Adding the same element in front of both sides keeps the relation. */
  lemma SubsequenceCons<T>(x: T, sub: seq<T>, sup: seq<T>)
    requires IsSubsequence(sub, sup)
    ensures IsSubsequence([x] + sub, [x] + sup)
  {
    assert ([x] + sub)[1..] == sub;
    assert ([x] + sup)[1..] == sup;
  }

  lemma {:induction false} SubsequenceTrans<T>(a: seq<T>, b: seq<T>, c: seq<T>)
    requires IsSubsequence(a, b) && IsSubsequence(b, c)
    ensures IsSubsequence(a, c)
    decreases |c|, |b|
  {
    if |a| > 0 {
      if IsSubsequence(b, c[1..]) {
        SubsequenceTrans(a, b, c[1..]);
      } else if IsSubsequence(a, b[1..]) {
        SubsequenceTrans(a, b[1..], c[1..]);
      } else {
        SubsequenceTrans(a[1..], b[1..], c[1..]);
      }
    }
  }

  /** Every element of a subsequence is an element of the larger sequence. */
  lemma {:induction false} SubsequenceMembers<T>(sub: seq<T>, sup: seq<T>, x: T)
    requires IsSubsequence(sub, sup) && x in sub
    ensures x in sup
    decreases |sup|
  {
    if sub[0] == sup[0] && IsSubsequence(sub[1..], sup[1..]) {
      if x != sub[0] {
        SubsequenceMembers(sub[1..], sup[1..], x);
      }
    } else {
      SubsequenceMembers(sub, sup[1..], x);
    }
  }

  /** Character-by-character prefix test, as `str::starts_with` performs it. */
  predicate StartsWith<T(==)>(s: seq<T>, prefix: seq<T>)
    ensures StartsWith(s, prefix) <==> |prefix| <= |s| && s[..|prefix|] == prefix
  {
    if |prefix| == 0 then true
    else if |s| == 0 || s[0] != prefix[0] then false
    else
      assert |prefix| <= |s| && s[..|prefix|] == prefix <==>
             |prefix[1..]| <= |s[1..]| && s[1..][..|prefix[1..]|] == prefix[1..];
      StartsWith(s[1..], prefix[1..])
  }

  /** Number of occurrences of `x` in `s`. */
  function Count<T(==)>(s: seq<T>, x: T): nat
  {
    if |s| == 0 then 0 else (if s[0] == x then 1 else 0) + Count(s[1..], x)
  }
}
