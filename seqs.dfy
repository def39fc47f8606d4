/** Sequence vocabulary shared by the models: reversal, subsequences,
    removal of one occurrence and duplicate-freedom. */
module Seqs {

  /** The elements of `s`, last first. */
  function Reverse<T>(s: seq<T>): (r: seq<T>)
    ensures |r| == |s|
  {
    if s == [] then [] else Reverse(s[1..]) + [s[0]]
  }

  lemma {:induction false} ReverseMembers<T>(s: seq<T>, x: T)
    ensures x in Reverse(s) <==> x in s
  {
    if s != [] {
      ReverseMembers(s[1..], x);
      assert s == [s[0]] + s[1..];
    }
  }

  /** `a` is obtained from `b` by deleting some elements, keeping the order
      of the rest. */
  predicate Subseq<T(==)>(a: seq<T>, b: seq<T>)
    decreases |b|
  {
    if a == [] then true
    else if b == [] then false
    else (a[|a| - 1] == b[|b| - 1] && Subseq(a[..|a| - 1], b[..|b| - 1]))
         || Subseq(a, b[..|b| - 1])
  }

  lemma {:induction false} SubseqRefl<T>(s: seq<T>)
    ensures Subseq(s, s)
  {
    if s != [] {
      SubseqRefl(s[..|s| - 1]);
    }
  }

  lemma SubseqSnoc<T>(a: seq<T>, b: seq<T>, x: T)
    requires Subseq(a, b)
    ensures Subseq(a + [x], b + [x])
    ensures Subseq(a, b + [x])
  {
  }

  lemma {:induction false} SubseqAppendRight<T>(a: seq<T>, b: seq<T>, c: seq<T>)
    requires Subseq(a, b)
    ensures Subseq(a, b + c)
  {
    if c != [] {
      var c' := c[..|c| - 1];
      SubseqAppendRight(a, b, c');
      SubseqSnoc(a, b + c', c[|c| - 1]);
      assert b + c == (b + c') + [c[|c| - 1]];
    } else {
      assert b + c == b;
    }
  }

  /** Every element of a subsequence is an element of the whole. */
  lemma {:induction false} SubseqMembers<T>(a: seq<T>, b: seq<T>, x: T)
    requires Subseq(a, b) && x in a
    ensures x in b
  {
    var a', b' := a[..|a| - 1], b[..|b| - 1];
    assert b == b' + [b[|b| - 1]];
    if a[|a| - 1] == b[|b| - 1] && Subseq(a', b') {
      assert a == a' + [a[|a| - 1]];
      if x != a[|a| - 1] {
        SubseqMembers(a', b', x);
      }
    } else {
      SubseqMembers(a, b', x);
    }
  }

  predicate NoDup<T(==)>(s: seq<T>) {
    forall i, j :: 0 <= i < j < |s| ==> s[i] != s[j]
  }

  /** `s` with its first occurrence of `x` removed, or `s` itself when `x`
      does not occur. */
  function RemoveFirst<T(==)>(s: seq<T>, x: T): (r: seq<T>)
    ensures x in s ==> |r| == |s| - 1
    ensures x !in s ==> r == s
  {
    if s == [] then []
    else if s[0] == x then s[1..]
    else [s[0]] + RemoveFirst(s[1..], x)
  }

  lemma {:induction false} RemoveFirstMultiset<T>(s: seq<T>, x: T)
    ensures multiset(RemoveFirst(s, x)) == multiset(s) - multiset{x}
  {
    if s != [] {
      assert s == [s[0]] + s[1..];
      if s[0] != x {
        RemoveFirstMultiset(s[1..], x);
      }
    }
  }

  /** Removing what was just appended gives the sequence back. */
  lemma {:induction false} RemoveFirstAppended<T>(s: seq<T>, x: T)
    requires x !in s
    ensures RemoveFirst(s + [x], x) == s
  {
    if s != [] {
      assert (s + [x])[1..] == s[1..] + [x];
      RemoveFirstAppended(s[1..], x);
    }
  }
}
