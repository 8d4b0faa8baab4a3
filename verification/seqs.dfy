/**
 Order-preserving selection and element-wise transformation of sequences: the
 `Array.prototype.filter` / `Array.prototype.map` of the client and the list
 comprehensions of the server, with the lemmas the todo model needs about them.
 */
module Seqs {

  /** The elements of `s` that satisfy `p`, in their original order. */
  function Filter<T>(p: T -> bool, s: seq<T>): (r: seq<T>)
    ensures |r| <= |s|
    ensures forall i :: 0 <= i < |r| ==> p(r[i])
  {
    if s == [] then []
    else (if p(s[0]) then [s[0]] else []) + Filter(p, s[1..])
  }

  /** Filtering adds nothing: every selected element comes from `s`. */
  lemma {:induction false} FilterFrom<T>(p: T -> bool, s: seq<T>)
    ensures forall i :: 0 <= i < |Filter(p, s)| ==> Filter(p, s)[i] in s
  {
    if s != [] {
      FilterFrom(p, s[1..]);
      var r := Filter(p, s);
      var head := if p(s[0]) then [s[0]] else [];
      assert r == head + Filter(p, s[1..]);
      forall i | 0 <= i < |r| ensures r[i] in s {
        if i >= |head| {
          assert r[i] == Filter(p, s[1..])[i - |head|];
          assert r[i] in s[1..];
        }
      }
    }
  }

  /** Filtering loses nothing: every element of `s` that satisfies `p` is selected. */
  lemma {:induction false} FilterKeeps<T>(p: T -> bool, s: seq<T>)
    ensures forall i :: 0 <= i < |s| && p(s[i]) ==> s[i] in Filter(p, s)
  {
    if s != [] {
      FilterKeeps(p, s[1..]);
      var r := Filter(p, s);
      var head := if p(s[0]) then [s[0]] else [];
      assert r == head + Filter(p, s[1..]);
      forall i | 1 <= i < |s| && p(s[i]) ensures s[i] in r {
        assert s[i] == s[1..][i - 1];
      }
    }
  }

  /** `f` applied to every element of `s`, position by position. */
  function Map<T, U>(f: T -> U, s: seq<T>): (r: seq<U>)
    ensures |r| == |s|
    ensures forall i :: 0 <= i < |s| ==> r[i] == f(s[i])
  {
    if s == [] then [] else [f(s[0])] + Map(f, s[1..])
  }

  /** Filtering distributes over concatenation. */
  lemma {:induction false} FilterAppend<T>(p: T -> bool, a: seq<T>, b: seq<T>)
    ensures Filter(p, a + b) == Filter(p, a) + Filter(p, b)
  {
    if a == [] {
      assert a + b == b;
    } else {
      assert (a + b)[1..] == a[1..] + b;
      FilterAppend(p, a[1..], b);
    }
  }

  /** A filter that keeps every element is the identity. */
  lemma {:induction false} FilterKeepsAll<T>(p: T -> bool, s: seq<T>)
    requires forall i :: 0 <= i < |s| ==> p(s[i])
    ensures Filter(p, s) == s
  {
    if s != [] {
      FilterKeepsAll(p, s[1..]);
    }
  }

  /** Two predicates that agree on the elements of `s` select the same subsequence. */
  lemma {:induction false} FilterCongruent<T>(p: T -> bool, q: T -> bool, s: seq<T>)
    requires forall i :: 0 <= i < |s| ==> p(s[i]) == q(s[i])
    ensures Filter(p, s) == Filter(q, s)
  {
    if s != [] {
      FilterCongruent(p, q, s[1..]);
    }
  }

  /** Filtering by `p` and then by `q` is filtering by their conjunction `pq`. */
  lemma {:induction false} FilterFilter<T>(p: T -> bool, q: T -> bool, pq: T -> bool, s: seq<T>)
    requires forall i :: 0 <= i < |s| ==> pq(s[i]) == (p(s[i]) && q(s[i]))
    ensures Filter(q, Filter(p, s)) == Filter(pq, s)
  {
    if s != [] {
      FilterFilter(p, q, pq, s[1..]);
      var head := if p(s[0]) then [s[0]] else [];
      assert Filter(p, s) == head + Filter(p, s[1..]);
      FilterAppend(q, head, Filter(p, s[1..]));
      assert Filter(q, head) == (if pq(s[0]) then [s[0]] else []);
    }
  }

  /** Filtering twice by the same predicate is filtering once. */
  lemma FilterIdempotent<T>(p: T -> bool, s: seq<T>)
    ensures Filter(p, Filter(p, s)) == Filter(p, s)
  {
    FilterKeepsAll(p, Filter(p, s));
  }

  /** A filter comes out empty exactly when no element passes it. */
  lemma FilterEmpty<T>(p: T -> bool, s: seq<T>)
    ensures |Filter(p, s)| == 0 <==> forall i :: 0 <= i < |s| ==> !p(s[i])
  {
    var r := Filter(p, s);
    FilterFrom(p, s);
    FilterKeeps(p, s);
    if |r| > 0 {
      var i :| 0 <= i < |s| && s[i] == r[0];
      assert p(s[i]);
    }
  }

  /** Complementary filters split a sequence: their lengths add up to its length. */
  lemma {:induction false} FilterComplement<T>(p: T -> bool, q: T -> bool, s: seq<T>)
    requires forall i :: 0 <= i < |s| ==> q(s[i]) == !p(s[i])
    ensures |Filter(p, s)| + |Filter(q, s)| == |s|
  {
    if s != [] {
      FilterComplement(p, q, s[1..]);
    }
  }

  /** Mapping commutes with filtering when the filter only looks at the image. */
  lemma {:induction false} MapFilter<T, U>(f: T -> U, p: T -> bool, q: U -> bool, s: seq<T>)
    requires forall i :: 0 <= i < |s| ==> p(s[i]) == q(f(s[i]))
    ensures Map(f, Filter(p, s)) == Filter(q, Map(f, s))
  {
    if s != [] {
      MapFilter(f, p, q, s[1..]);
      var head := if p(s[0]) then [s[0]] else [];
      MapAppend(f, head, Filter(p, s[1..]));
      assert Map(f, s)[1..] == Map(f, s[1..]);
    }
  }

  /** Mapping distributes over concatenation. */
  lemma MapAppend<T, U>(f: T -> U, a: seq<T>, b: seq<T>)
    ensures Map(f, a + b) == Map(f, a) + Map(f, b)
  {
  }

  /** When exactly the element at `j` fails `p`, filtering removes just that position. */
  lemma {:induction false} RemovesOnlyIndex<T>(p: T -> bool, s: seq<T>, j: int)
    requires 0 <= j < |s|
    requires !p(s[j])
    requires forall i :: 0 <= i < |s| && i != j ==> p(s[i])
    ensures Filter(p, s) == s[..j] + s[j + 1..]
  {
    var tail := s[1..];
    if j == 0 {
      forall i | 0 <= i < |tail| ensures p(tail[i]) {
        assert tail[i] == s[i + 1];
      }
      FilterKeepsAll(p, tail);
    } else {
      forall i | 0 <= i < |tail| && i != j - 1 ensures p(tail[i]) {
        assert tail[i] == s[i + 1];
      }
      RemovesOnlyIndex(p, tail, j - 1);
      assert s[..j] + s[j + 1..] == [s[0]] + (tail[..j - 1] + tail[j..]);
    }
  }
}
