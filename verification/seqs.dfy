/** Order-preserving selection on sequences (a Python list comprehension with an `if`). */
module Seqs {

  /** The elements of `s` satisfying `p`, in their original order. */
  function Filter<T(==,!new)>(p: T -> bool, s: seq<T>): (r: seq<T>)
    ensures |r| <= |s|
    ensures forall i :: 0 <= i < |r| ==> p(r[i])
    ensures forall x :: x in r <==> x in s && p(x)
  {
    if s == [] then []
    else
      (if p(s[0]) then [s[0]] else []) + Filter(p, s[1..])
  }

  /** Two selections can be applied in either order. */
  lemma {:induction false} FilterCommute<T(!new)>(p: T -> bool, q: T -> bool, s: seq<T>)
    ensures Filter(p, Filter(q, s)) == Filter(q, Filter(p, s))
  {
    if s != [] {
      var x := s[0];
      var fq, fp := Filter(q, s[1..]), Filter(p, s[1..]);
      FilterCommute(p, q, s[1..]);
      if q(x) {
        assert Filter(q, s) == [x] + fq;
        FilterCons(p, x, fq);
      } else {
        assert Filter(q, s) == fq;
      }
      if p(x) {
        assert Filter(p, s) == [x] + fp;
        FilterCons(q, x, fp);
      } else {
        assert Filter(p, s) == fp;
      }
    }
  }

  /** Selection over a sequence with a known first element. */
  lemma FilterCons<T(!new)>(p: T -> bool, x: T, s: seq<T>)
    ensures Filter(p, [x] + s) == (if p(x) then [x] else []) + Filter(p, s)
  {
    assert ([x] + s)[0] == x;
    assert ([x] + s)[1..] == s;
  }

  /** `r` is `s` with some elements left out, the rest kept in their order. */
  predicate IsSubsequence<T(==)>(r: seq<T>, s: seq<T>)
    decreases |s|
  {
    if r == [] then true
    else if s == [] then false
    else (r[0] == s[0] && IsSubsequence(r[1..], s[1..])) || IsSubsequence(r, s[1..])
  }

  /** Selection keeps the selected elements in their original order. */
  lemma {:induction false} FilterSubsequence<T(!new)>(p: T -> bool, s: seq<T>)
    ensures IsSubsequence(Filter(p, s), s)
  {
    if s != [] {
      var rest := Filter(p, s[1..]);
      FilterSubsequence(p, s[1..]);
      if p(s[0]) {
        var r := [s[0]] + rest;
        assert Filter(p, s) == r;
        assert r[0] == s[0] && r[1..] == rest;
      } else {
        assert Filter(p, s) == rest;
        if rest != [] {
          assert IsSubsequence(rest, s[1..]);
        }
      }
    }
  }

  /** Selection keeps every copy of a selected element and no copy of any other. */
  lemma {:induction false} FilterMultiset<T(!new)>(p: T -> bool, s: seq<T>)
    ensures forall x :: multiset(Filter(p, s))[x] == (if p(x) then multiset(s)[x] else 0)
  {
    if s != [] {
      FilterMultiset(p, s[1..]);
      assert s == [s[0]] + s[1..];
      var head: seq<T> := if p(s[0]) then [s[0]] else [];
      assert Filter(p, s) == head + Filter(p, s[1..]);
      assert multiset(Filter(p, s)) == multiset(head) + multiset(Filter(p, s[1..]));
      assert multiset(s) == multiset{s[0]} + multiset(s[1..]);
    }
  }
}
