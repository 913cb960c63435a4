/** Order-preserving selection over sequences: the meaning of JavaScript's
    `Array.prototype.filter`, which every store and filter operation of the
    TODO app is built from. */
module Seqs {

  /** The elements of `s` that satisfy `p`, in their original order. */
  function Select<T>(s: seq<T>, p: T -> bool): (r: seq<T>)
    ensures |r| <= |s|
    ensures forall x <- r :: x in s && p(x)
    ensures forall x <- s :: p(x) ==> x in r
  {
    if s == [] then []
    else
      assert s == [s[0]] + s[1..];
      if p(s[0]) then [s[0]] + Select(s[1..], p) else Select(s[1..], p)
  }

  /** `a` can be obtained from `b` by deleting elements, without reordering. */
  predicate IsSubsequence<T(==)>(a: seq<T>, b: seq<T>)
    decreases |b|
  {
    a == [] ||
    (b != [] && ((a[0] == b[0] && IsSubsequence(a[1..], b[1..])) || IsSubsequence(a, b[1..])))
  }

  lemma {:induction false} SubsequenceReflexive<T>(s: seq<T>)
    ensures IsSubsequence(s, s)
  {
    if s != [] {
      SubsequenceReflexive(s[1..]);
    }
  }

  /** A subsequence holds no element more often than the sequence it came from. */
  lemma {:induction false} SubsequenceMultiset<T>(a: seq<T>, b: seq<T>)
    requires IsSubsequence(a, b)
    ensures multiset(a) <= multiset(b)
    decreases |b|
  {
    if a != [] {
      assert b == [b[0]] + b[1..];
      if a[0] == b[0] && IsSubsequence(a[1..], b[1..]) {
        SubsequenceMultiset(a[1..], b[1..]);
        assert a == [a[0]] + a[1..];
      } else {
        SubsequenceMultiset(a, b[1..]);
      }
    }
  }

  lemma {:induction false} SubsequenceTransitive<T>(a: seq<T>, b: seq<T>, c: seq<T>)
    requires IsSubsequence(a, b) && IsSubsequence(b, c)
    ensures IsSubsequence(a, c)
    decreases |c|
  {
    if a != [] {
      if IsSubsequence(b, c[1..]) {
        SubsequenceTransitive(a, b, c[1..]);
      } else if a[0] == b[0] && IsSubsequence(a[1..], b[1..]) {
        SubsequenceTransitive(a[1..], b[1..], c[1..]);
      } else {
        SubsequenceTransitive(a, b[1..], c[1..]);
      }
    }
  }

  /** `Select` keeps exactly the elements satisfying `p`: every such element as
      often as it occurs in `s`, no other element, and in the order of `s`. */
  lemma {:induction false} SelectIsExact<T>(s: seq<T>, p: T -> bool)
    ensures IsSubsequence(Select(s, p), s)
    ensures forall x :: multiset(Select(s, p))[x] == if p(x) then multiset(s)[x] else 0
  {
    if s != [] {
      SelectIsExact(s[1..], p);
      assert s == [s[0]] + s[1..];
      var r := Select(s[1..], p);
      if p(s[0]) {
        assert Select(s, p) == [s[0]] + r;
        assert ([s[0]] + r)[1..] == r;
      }
    }
  }

  /** The two facts of `SelectIsExact` determine the result: any subsequence of
      `s` with those element counts is `Select(s, p)`. */
  lemma {:induction false} SelectUnique<T>(s: seq<T>, p: T -> bool, r: seq<T>)
    requires IsSubsequence(r, s)
    requires forall x :: multiset(r)[x] == if p(x) then multiset(s)[x] else 0
    ensures r == Select(s, p)
  {
    if s != [] {
      var h, t := s[0], s[1..];
      assert s == [h] + t;
      if p(h) {
        assert multiset(r)[h] > 0;
        assert r != [];
        if r[0] == h && IsSubsequence(r[1..], t) {
          assert r == [h] + r[1..];
          SelectUnique(t, p, r[1..]);
        } else {
          assert IsSubsequence(r, t);
          SubsequenceMultiset(r, t);
          assert false;
        }
      } else {
        assert multiset(r)[h] == 0;
        assert r == [] || (r[0] != h && IsSubsequence(r, t));
        SelectUnique(t, p, r);
      }
    }
  }

  /** Selecting from a sequence extended by one element. */
  lemma {:induction false} SelectSnoc<T>(s: seq<T>, x: T, p: T -> bool)
    ensures Select(s + [x], p) == if p(x) then Select(s, p) + [x] else Select(s, p)
  {
    if s == [] {
      assert [] + [x] == [x];
    } else {
      assert (s + [x])[1..] == s[1..] + [x];
      SelectSnoc(s[1..], x, p);
    }
  }

  /** When every element satisfies `p`, nothing is dropped. */
  lemma {:induction false} SelectKeepsAll<T>(s: seq<T>, p: T -> bool)
    requires forall x :: x in s ==> p(x)
    ensures Select(s, p) == s
  {
    if s != [] {
      assert s == [s[0]] + s[1..];
      SelectKeepsAll(s[1..], p);
    }
  }
}
