/** Sequence vocabulary shared by the palette model: distinctness, order-preserving subsequences, first occurrences. */
module Seqs {

  predicate Distinct<T(==)>(xs: seq<T>) {
    forall i, j :: 0 <= i < j < |xs| ==> xs[i] != xs[j]
  }

  lemma DistinctConcat<T>(a: seq<T>, b: seq<T>)
    requires Distinct(a) && Distinct(b)
    requires forall x :: x in a ==> x !in b
    ensures Distinct(a + b)
  {
    forall i, j | 0 <= i < j < |a + b|
      ensures (a + b)[i] != (a + b)[j]
    {
      if i < |a| && j >= |a| {
        assert (a + b)[i] in a && (a + b)[j] in b;
      }
    }
  }

  /** `a` is obtained from `b` by deleting elements, keeping the order of the rest. */
  predicate IsSubseq<T(==)>(a: seq<T>, b: seq<T>)
    decreases |b|
  {
    if b == [] then a == []
    else
      IsSubseq(a, b[..|b| - 1])
      || (a != [] && a[|a| - 1] == b[|b| - 1] && IsSubseq(a[..|a| - 1], b[..|b| - 1]))
  }

  lemma {:induction false} SubseqRefl<T>(a: seq<T>)
    ensures IsSubseq(a, a)
  {
    if a != [] {
      SubseqRefl(a[..|a| - 1]);
    }
  }

  lemma {:induction false} SubseqEmpty<T>(b: seq<T>)
    ensures IsSubseq([], b)
  {
    if b != [] {
      SubseqEmpty(b[..|b| - 1]);
    }
  }

  /** Subsequences can be glued side by side. */
  lemma {:induction false} SubseqConcat<T>(a: seq<T>, b: seq<T>, c: seq<T>, d: seq<T>)
    requires IsSubseq(a, c) && IsSubseq(b, d)
    ensures IsSubseq(a + b, c + d)
    decreases |d|
  {
    if d == [] {
      assert b == [] && a + b == a && c + d == c;
    } else {
      var d' := d[..|d| - 1];
      assert (c + d)[..|c + d| - 1] == c + d';
      if IsSubseq(b, d') {
        SubseqConcat(a, b, c, d');
      } else {
        var b' := b[..|b| - 1];
        SubseqConcat(a, b', c, d');
        assert (a + b)[..|a + b| - 1] == a + b';
      }
    }
  }

  /** A subsequence holds no element that the whole lacks. */
  lemma {:induction false} SubseqMembers<T>(a: seq<T>, b: seq<T>)
    requires IsSubseq(a, b)
    ensures forall x :: x in a ==> x in b
    decreases |b|
  {
    if b != [] {
      var b' := b[..|b| - 1];
      assert b == b' + [b[|b| - 1]];
      if IsSubseq(a, b') {
        SubseqMembers(a, b');
      } else {
        SubseqMembers(a[..|a| - 1], b');
        assert a == a[..|a| - 1] + [a[|a| - 1]];
      }
    }
  }

  /** A subsequence of a sequence without repetitions has none either. */
  lemma {:induction false} SubseqDistinct<T>(a: seq<T>, b: seq<T>)
    requires IsSubseq(a, b) && Distinct(b)
    ensures Distinct(a)
    decreases |b|
  {
    if b != [] {
      var b' := b[..|b| - 1];
      if IsSubseq(a, b') {
        SubseqDistinct(a, b');
      } else {
        var a', x := a[..|a| - 1], a[|a| - 1];
        SubseqDistinct(a', b');
        SubseqMembers(a', b');
        assert x !in b' by {
          assert forall p :: 0 <= p < |b'| ==> b'[p] == b[p] != b[|b| - 1];
        }
        assert a == a' + [x];
        DistinctConcat(a', [x]);
      }
    }
  }

  lemma MultisetSnoc<T>(s: seq<T>)
    requires s != []
    ensures multiset(s) == multiset(s[..|s| - 1]) + multiset{s[|s| - 1]}
  {
    assert s == s[..|s| - 1] + [s[|s| - 1]];
  }

  lemma MultisetCancel<T>(a: multiset<T>, b: multiset<T>, x: multiset<T>)
    requires a + x == b + x
    ensures a == b
  {
    assert forall e :: a[e] == (a + x)[e] - x[e] == (b + x)[e] - x[e] == b[e];
  }

  /** The elements of `xs` in order of first occurrence, each once. */
  function Dedup<T(==)>(xs: seq<T>): (r: seq<T>)
    ensures Distinct(r)
    ensures forall i :: 0 <= i < |r| ==> r[i] in xs
    ensures forall i :: 0 <= i < |xs| ==> xs[i] in r
  {
    if xs == [] then []
    else
      var init := xs[..|xs| - 1];
      var x := xs[|xs| - 1];
      assert xs == init + [x];
      if x in init then Dedup(init) else Dedup(init) + [x]
  }

  lemma DedupMembers<T>(xs: seq<T>, x: T)
    ensures x in Dedup(xs) <==> x in xs
  {
    if x in xs {
      var i :| 0 <= i < |xs| && xs[i] == x;
    }
  }

  /** Appending an element extends the first occurrences only when the element is new. */
  lemma DedupSnoc<T>(xs: seq<T>, x: T)
    ensures Dedup(xs + [x]) == if x in xs then Dedup(xs) else Dedup(xs) + [x]
  {
    assert (xs + [x])[..|xs|] == xs;
  }
}
