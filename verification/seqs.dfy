/** Sequence helpers shared by the graph and the dotplot models. */
module Seqs {

  /** No element occurs twice. */
  predicate NoDup<T(==)>(s: seq<T>) {
    forall i, j :: 0 <= i < j < |s| ==> s[i] != s[j]
  }

  /** The elements of a sequence, as a set. */
  function Elems<T>(s: seq<T>): set<T> {
    set x | x in s
  }

  /** Number of occurrences of `x` in `s` (Python's `list.count`). */
  function Count<T(==)>(s: seq<T>, x: T): nat {
    if s == [] then 0 else (if s[0] == x then 1 else 0) + Count(s[1..], x)
  }

  /** The first components of a sequence of pairs, in order: the keys of
      a list of dictionary items, or the vertices of a queue. */
  function Heads<K, X>(s: seq<(K, X)>): (r: seq<K>)
    ensures |r| == |s| && forall i :: 0 <= i < |s| ==> r[i] == s[i].0
  {
    seq(|s|, i requires 0 <= i < |s| => s[i].0)
  }

  lemma HeadsAppend<K, X>(a: seq<(K, X)>, b: seq<(K, X)>)
    ensures Heads(a + b) == Heads(a) + Heads(b)
  {
    assert forall i :: 0 <= i < |a + b| ==> Heads(a + b)[i] == (Heads(a) + Heads(b))[i];
  }

  /** `a` is `b` with some elements left out, the rest kept in order. */
  predicate IsSubseq<T(==)>(a: seq<T>, b: seq<T>)
    decreases |b|
  {
    if a == [] then true
    else if b == [] then false
    else if a[0] == b[0] then IsSubseq(a[1..], b[1..])
    else IsSubseq(a, b[1..])
  }

  /** The elements of `xs` not in `seen`, in order, each kept once: the
      list a Python loop `for x in xs: if x not in l: l.append(x)` appends
      to `l == seen`. */
  function Unseen<T(==)>(xs: seq<T>, seen: seq<T>): (r: seq<T>)
    ensures NoDup(r)
    ensures IsSubseq(r, xs)
    ensures forall x :: x in r ==> x in xs && x !in seen
    ensures forall x :: x in xs ==> x in seen || x in r
    decreases |xs|
  {
    if xs == [] then []
    else if xs[0] in seen then Unseen(xs[1..], seen)
    else
      var rest := Unseen(xs[1..], seen + [xs[0]]);
      assert forall j :: 0 <= j < |rest| ==> rest[j] in rest && rest[j] != xs[0];
      [xs[0]] + rest
  }

  /** The position of the first occurrence of `x` in `s` (Python's `list.index`). */
  function IndexOf<T(==)>(s: seq<T>, x: T): (i: nat)
    requires x in s
    ensures i < |s| && s[i] == x
    ensures forall j :: 0 <= j < i ==> s[j] != x
  {
    if s[0] == x then 0 else 1 + IndexOf(s[1..], x)
  }

  /** Every element of `r` occurs in `xs`, and `r` lists them in the order
      of their first occurrence in `xs`. */
  predicate FirstSeenOrder<T(==)>(r: seq<T>, xs: seq<T>) {
    && (forall x :: x in r ==> x in xs)
    && (forall i, j :: 0 <= i < j < |r| ==> IndexOf(xs, r[i]) < IndexOf(xs, r[j]))
  }

  /** `Unseen` keeps the elements in the order of their first occurrence in `xs`. */
  lemma {:induction false} UnseenFirstOrder<T>(xs: seq<T>, seen: seq<T>)
    ensures FirstSeenOrder(Unseen(xs, seen), xs)
    decreases |xs|
  {
    if xs != [] {
      var r := Unseen(xs, seen);
      if xs[0] in seen {
        UnseenFirstOrder(xs[1..], seen);
        forall i, j | 0 <= i < j < |r| ensures IndexOf(xs, r[i]) < IndexOf(xs, r[j]) {
          assert r[i] != xs[0] && r[j] != xs[0];
          assert IndexOf(xs[1..], r[i]) < IndexOf(xs[1..], r[j]);
        }
      } else {
        var rest := Unseen(xs[1..], seen + [xs[0]]);
        UnseenFirstOrder(xs[1..], seen + [xs[0]]);
        forall i, j | 0 <= i < j < |r| ensures IndexOf(xs, r[i]) < IndexOf(xs, r[j]) {
          assert r[j] == rest[j - 1] && r[j] != xs[0];
          if i > 0 {
            assert r[i] == rest[i - 1] && r[i] != xs[0];
            assert IndexOf(xs[1..], rest[i - 1]) < IndexOf(xs[1..], rest[j - 1]);
          }
        }
      }
    }
  }

  /** Nothing is unseen when every element has been seen. */
  lemma {:induction false} UnseenAllSeen<T>(xs: seq<T>, seen: seq<T>)
    requires forall x :: x in xs ==> x in seen
    ensures Unseen(xs, seen) == []
  {
    if xs != [] {
      UnseenAllSeen(xs[1..], seen);
    }
  }

  /** `Unseen` looks at `seen` only through the membership of elements of `xs`. */
  lemma {:induction false} UnseenSameSeen<T>(xs: seq<T>, a: seq<T>, b: seq<T>)
    requires forall x :: x in xs ==> (x in a <==> x in b)
    ensures Unseen(xs, a) == Unseen(xs, b)
    decreases |xs|
  {
    if xs != [] {
      UnseenSameSeen(xs[1..], a + [xs[0]], b + [xs[0]]);
      UnseenSameSeen(xs[1..], a, b);
    }
  }

  lemma {:induction false} CountAppend<T>(a: seq<T>, b: seq<T>, x: T)
    ensures Count(a + b, x) == Count(a, x) + Count(b, x)
  {
    if a == [] {
      assert a + b == b;
    } else {
      assert (a + b)[1..] == a[1..] + b;
      CountAppend(a[1..], b, x);
    }
  }

  lemma {:induction false} CountPositive<T>(s: seq<T>, x: T)
    ensures Count(s, x) > 0 <==> x in s
  {
    if s != [] {
      CountPositive(s[1..], x);
    }
  }

  /** A subsequence of a duplicate-free sequence is duplicate-free and
      draws its elements from it. */
  lemma {:induction false} SubseqNoDup<T>(a: seq<T>, b: seq<T>)
    requires IsSubseq(a, b) && NoDup(b)
    ensures NoDup(a)
    ensures forall x :: x in a ==> x in b
    decreases |b|
  {
    if a != [] {
      assert NoDup(b[1..]) by {
        forall i, j | 0 <= i < j < |b[1..]| ensures b[1..][i] != b[1..][j] {
          assert b[1..][i] == b[i + 1] && b[1..][j] == b[j + 1];
        }
      }
      if a[0] == b[0] {
        SubseqNoDup(a[1..], b[1..]);
        assert a[0] !in b[1..];
        assert a == [a[0]] + a[1..];
      } else {
        SubseqNoDup(a, b[1..]);
      }
    }
  }

  /** The tail of a duplicate-free sequence is duplicate-free and lacks the head. */
  lemma NoDupTail<T>(s: seq<T>)
    requires s != [] && NoDup(s)
    ensures NoDup(s[1..]) && s[0] !in s[1..]
  {
    forall i, j | 0 <= i < j < |s[1..]| ensures s[1..][i] != s[1..][j] {
      assert s[1..][i] == s[i + 1] && s[1..][j] == s[j + 1];
    }
    forall i | 0 <= i < |s[1..]| ensures s[1..][i] != s[0] {
      assert s[1..][i] == s[i + 1];
    }
  }

  /** Two duplicate-free sequences with no common element concatenate
      to a duplicate-free sequence. */
  lemma NoDupConcat<T>(a: seq<T>, b: seq<T>)
    requires NoDup(a) && NoDup(b) && forall x :: x in a ==> x !in b
    ensures NoDup(a + b)
  {
    forall i, j | 0 <= i < j < |a + b| ensures (a + b)[i] != (a + b)[j] {
      if j < |a| {
        assert (a + b)[i] == a[i] && (a + b)[j] == a[j];
      } else if i >= |a| {
        assert (a + b)[i] == b[i - |a|] && (a + b)[j] == b[j - |a|];
      } else {
        assert (a + b)[i] == a[i] && (a + b)[j] == b[j - |a|];
        assert a[i] in a && a[i] !in b;
      }
    }
  }

  /** A duplicate-free sequence has as many distinct elements as entries. */
  lemma {:induction false} NoDupCard<T>(s: seq<T>)
    requires NoDup(s)
    ensures |Elems(s)| == |s|
  {
    if s != [] {
      assert NoDup(s[1..]) by {
        forall i, j | 0 <= i < j < |s[1..]| ensures s[1..][i] != s[1..][j] {
          assert s[1..][i] == s[i + 1] && s[1..][j] == s[j + 1];
        }
      }
      NoDupCard(s[1..]);
      assert Elems(s) == Elems(s[1..]) + {s[0]};
      assert s[0] !in Elems(s[1..]);
    }
  }

  lemma SubsetCard<T>(a: set<T>, b: set<T>)
    requires a <= b
    ensures |a| <= |b|
    decreases |b|
  {
    if a != {} {
      var x :| x in a;
      SubsetCard(a - {x}, b - {x});
    }
  }

  /** Marking one more element of `K` as seen shrinks what is left of `K`:
      the termination measure of every search in this model. */
  lemma LeftShrinks<T>(K: set<T>, A: set<T>, B: set<T>, x: T)
    requires A <= B && x in K && x in B && x !in A
    ensures |K - B| < |K - A|
  {
    assert K - B <= (K - A) - {x};
    SubsetCard(K - B, (K - A) - {x});
  }
}
