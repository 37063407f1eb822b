/**
 * Sequence vocabulary shared by the table operations: distinctness, order-preserving
 * subsequences and occurrence counts.
 */
module Seqs {

  /** No element occurs twice. */
  predicate Distinct<T(==)>(s: seq<T>) {
    forall i, j :: 0 <= i < j < |s| ==> s[i] != s[j]
  }

  /** `a` is `b` with some elements removed and the rest kept in order. */
  predicate Subseq<T(==)>(a: seq<T>, b: seq<T>)
    decreases |b|
  {
    if a == [] then true
    else if b == [] then false
    else if a[0] == b[0] then Subseq(a[1..], b[1..])
    else Subseq(a, b[1..])
  }

  /** How many times `x` occurs in `s`. */
  function Count<T(==)>(s: seq<T>, x: T): nat {
    multiset(s)[x]
  }

  lemma {:induction false} SubseqRefl<T>(a: seq<T>)
    ensures Subseq(a, a)
  {
    if a != [] {
      SubseqRefl(a[1..]);
    }
  }

  /** Putting an element in front of the larger sequence keeps a subsequence. */
  lemma {:induction false} SubseqCons<T>(a: seq<T>, b: seq<T>)
    requires b != [] && Subseq(a, b[1..])
    ensures Subseq(a, b)
    decreases |b|, 0
  {
    if a != [] && a[0] == b[0] {
      SubseqTail(a, b[1..]);
    }
  }

  /** Dropping the first element of the smaller sequence keeps a subsequence. */
  lemma {:induction false} SubseqTail<T>(a: seq<T>, b: seq<T>)
    requires a != [] && Subseq(a, b)
    ensures Subseq(a[1..], b)
    decreases |b|, 1
  {
    assert b != [];
    if a[0] == b[0] {
      SubseqCons(a[1..], b);
    } else {
      SubseqTail(a, b[1..]);
      SubseqCons(a[1..], b);
    }
  }

  lemma {:induction false} SubseqTrans<T>(a: seq<T>, b: seq<T>, c: seq<T>)
    requires Subseq(a, b) && Subseq(b, c)
    ensures Subseq(a, c)
    decreases |c|
  {
    if a != [] {
      assert b != [] && c != [];
      if b[0] == c[0] {
        if a[0] == b[0] {
          SubseqTrans(a[1..], b[1..], c[1..]);
        } else {
          SubseqTrans(a, b[1..], c[1..]);
        }
      } else {
        SubseqTrans(a, b, c[1..]);
        if a[0] == c[0] {
          SubseqTail(a, c[1..]);
        }
      }
    }
  }

  /** Every element of a subsequence is an element of the sequence. */
  lemma {:induction false} SubseqMembers<T>(a: seq<T>, b: seq<T>)
    requires Subseq(a, b)
    ensures forall x :: x in a ==> x in b
    decreases |b|
  {
    if a != [] {
      if a[0] == b[0] {
        SubseqMembers(a[1..], b[1..]);
        forall x | x in a ensures x in b {
          if x != a[0] {
            assert x in a[1..];
          }
        }
      } else {
        SubseqMembers(a, b[1..]);
      }
    }
  }

  /** A subsequence is never longer. */
  lemma {:induction false} SubseqLength<T>(a: seq<T>, b: seq<T>)
    requires Subseq(a, b)
    ensures |a| <= |b|
    decreases |b|
  {
    if a != [] {
      if a[0] == b[0] {
        SubseqLength(a[1..], b[1..]);
      } else {
        SubseqLength(a, b[1..]);
      }
    }
  }

  /** A subsequence of a sequence without repetitions has none either. */
  lemma {:induction false} SubseqDistinct<T>(a: seq<T>, b: seq<T>)
    requires Subseq(a, b) && Distinct(b)
    ensures Distinct(a)
    decreases |b|
  {
    if a != [] {
      if a[0] == b[0] {
        SubseqDistinct(a[1..], b[1..]);
        SubseqMembers(a[1..], b[1..]);
        forall i, j | 0 <= i < j < |a| ensures a[i] != a[j] {
          if i == 0 {
            assert a[j] in a[1..];
            assert a[j] in b[1..];
            var k :| 0 <= k < |b[1..]| && b[1..][k] == a[j];
            assert b[k + 1] == a[j];
          } else {
            assert a[i] == a[1..][i - 1] && a[j] == a[1..][j - 1];
          }
        }
      } else {
        SubseqDistinct(a, b[1..]);
      }
    }
  }

  /** Appending an element to the larger sequence, and possibly to the smaller one. */
  lemma {:induction false} SubseqSnoc<T>(a: seq<T>, b: seq<T>, x: T, both: bool)
    requires Subseq(a, b)
    ensures Subseq(a + (if both then [x] else []), b + [x])
    decreases |b|
  {
    var a' := a + (if both then [x] else []);
    if a == [] {
      if both {
        assert a' == [x];
        if b == [] {
          assert Subseq(a'[1..], (b + [x])[1..]);
        } else {
          SubseqSnoc([], b[1..], x, true);
          assert (b + [x])[1..] == b[1..] + [x];
          SubseqCons(a', b + [x]);
        }
      }
    } else {
      assert (b + [x])[1..] == b[1..] + [x];
      assert a'[0] == a[0];
      if a[0] == b[0] {
        SubseqSnoc(a[1..], b[1..], x, both);
        assert a'[1..] == a[1..] + (if both then [x] else []);
      } else {
        SubseqSnoc(a, b[1..], x, both);
      }
    }
  }

  /** The elements satisfying `p`, in order: a boolean-mask selection. */
  function Filter<T>(s: seq<T>, p: T -> bool): (r: seq<T>)
    ensures |r| <= |s|
  {
    if s == [] then [] else (if p(s[0]) then [s[0]] else []) + Filter(s[1..], p)
  }

  /** A selection keeps exactly the elements satisfying the mask, in their order. */
  lemma {:induction false} FilterSpec<T>(s: seq<T>, p: T -> bool)
    ensures Subseq(Filter(s, p), s)
    ensures forall x :: x in Filter(s, p) <==> x in s && p(x)
  {
    if s != [] {
      FilterSpec(s[1..], p);
      var rest := Filter(s[1..], p);
      if p(s[0]) {
        assert ([s[0]] + rest)[1..] == rest;
      } else {
        assert Filter(s, p) == rest;
        SubseqCons(rest, s);
      }
      forall x ensures x in Filter(s, p) <==> x in s && p(x) {
        assert x in s <==> x == s[0] || x in s[1..];
      }
    }
  }

  /** A mask that holds everywhere selects everything. */
  lemma {:induction false} FilterAll<T>(s: seq<T>, p: T -> bool)
    requires forall i :: 0 <= i < |s| ==> p(s[i])
    ensures Filter(s, p) == s
  {
    if s != [] {
      assert p(s[0]);
      FilterAll(s[1..], p);
      assert s == [s[0]] + s[1..];
    }
  }
  /** A selection over a concatenation is the concatenation of the selections. */
  lemma {:induction false} FilterAppend<T>(a: seq<T>, b: seq<T>, p: T -> bool)
    ensures Filter(a + b, p) == Filter(a, p) + Filter(b, p)
  {
    if a == [] {
      assert a + b == b;
    } else {
      var head := if p(a[0]) then [a[0]] else [];
      assert (a + b)[0] == a[0] && (a + b)[1..] == a[1..] + b;
      assert Filter(a + b, p) == head + Filter(a[1..] + b, p);
      FilterAppend(a[1..], b, p);
      assert Filter(a, p) == head + Filter(a[1..], p);
    }
  }

  /** Selecting by `p` and then by `q` is selecting by both at once. */
  lemma {:induction false} FilterFilter<T>(s: seq<T>, p: T -> bool, q: T -> bool, both: T -> bool)
    requires forall x :: both(x) == (p(x) && q(x))
    ensures Filter(Filter(s, p), q) == Filter(s, both)
  {
    if s != [] {
      FilterFilter(s[1..], p, q, both);
      var head := if p(s[0]) then [s[0]] else [];
      FilterAppend(head, Filter(s[1..], p), q);
      if p(s[0]) {
        assert Filter(head, q) == (if q(s[0]) then [s[0]] else []) by {
          assert head[1..] == [];
        }
      }
    }
  }

  /** A selection keeps every occurrence of a selected element and none of the others. */
  lemma {:induction false} FilterCount<T>(s: seq<T>, p: T -> bool, x: T)
    ensures Count(Filter(s, p), x) == (if p(x) then Count(s, x) else 0)
  {
    if s != [] {
      FilterCount(s[1..], p, x);
      var head := if p(s[0]) then [s[0]] else [];
      assert s == [s[0]] + s[1..];
      assert multiset(Filter(s, p)) == multiset(head) + multiset(Filter(s[1..], p));
      assert multiset(s) == multiset{s[0]} + multiset(s[1..]);
    }
  }

  /** A mask that holds nowhere selects nothing. */
  lemma {:induction false} FilterNone<T>(s: seq<T>, p: T -> bool)
    requires forall i :: 0 <= i < |s| ==> !p(s[i])
    ensures Filter(s, p) == []
  {
    if s != [] {
      assert !p(s[0]);
      assert forall i :: 0 <= i < |s[1..]| ==> s[1..][i] == s[i + 1];
      FilterNone(s[1..], p);
    }
  }

  /** The tail of a sequence without repetitions has none either, and lacks the head. */
  lemma DistinctTail<T>(s: seq<T>)
    requires s != [] && Distinct(s)
    ensures Distinct(s[1..]) && s[0] !in s[1..]
  {
    forall i, j | 0 <= i < j < |s[1..]| ensures s[1..][i] != s[1..][j] {
      assert s[1..][i] == s[i + 1] && s[1..][j] == s[j + 1];
    }
    forall k | 0 <= k < |s[1..]| ensures s[1..][k] != s[0] {
      assert s[1..][k] == s[k + 1];
    }
  }

  /** In a sequence without repetitions every element occurs at most once. */
  lemma {:induction false} DistinctCount<T>(s: seq<T>, x: T)
    requires Distinct(s)
    ensures Count(s, x) <= 1
  {
    if s != [] {
      assert s == [s[0]] + s[1..];
      DistinctTail(s);
      DistinctCount(s[1..], x);
      if x == s[0] {
        assert multiset(s[1..])[x] == 0;
      }
    }
  }

  /** An element found at two positions occurs at least twice. */
  lemma TwiceCount<T>(s: seq<T>, i: nat, j: nat)
    requires i < j < |s| && s[i] == s[j]
    ensures Count(s, s[i]) >= 2
  {
    assert s == s[..j] + s[j..];
    assert s[..j][i] == s[i];
    assert s[j..][0] == s[j];
    assert multiset(s) == multiset(s[..j]) + multiset(s[j..]);
  }

  /** A rearrangement of a sequence without repetitions has none either. */
  lemma PermutationDistinct<T>(a: seq<T>, b: seq<T>)
    requires Distinct(a) && multiset(a) == multiset(b)
    ensures Distinct(b)
  {
    forall i, j | 0 <= i < j < |b| ensures b[i] != b[j] {
      if b[i] == b[j] {
        TwiceCount(b, i, j);
        DistinctCount(a, b[i]);
      }
    }
  }

  /** How many elements of `s` are among `keys`, counted key by key. */
  function TotalCount<T(==)>(s: seq<T>, keys: seq<T>): nat {
    if keys == [] then 0 else Count(s, keys[0]) + TotalCount(s, keys[1..])
  }

  lemma {:induction false} TotalCountNil<T>(keys: seq<T>)
    ensures TotalCount([], keys) == 0
  {
    if keys != [] {
      TotalCountNil(keys[1..]);
    }
  }

  /** One more element adds one to the total when it is among the (distinct) keys. */
  lemma {:induction false} TotalCountSnoc<T>(s: seq<T>, x: T, keys: seq<T>)
    requires Distinct(keys)
    ensures TotalCount(s + [x], keys) == TotalCount(s, keys) + (if x in keys then 1 else 0)
  {
    if keys != [] {
      DistinctTail(keys);
      TotalCountSnoc(s, x, keys[1..]);
      assert multiset(s + [x]) == multiset(s) + multiset{x};
      assert x in keys <==> x == keys[0] || x in keys[1..];
    }
  }

  /** Counting every key of a sequence whose elements are all among distinct keys
      counts each element once. */
  lemma {:induction false} TotalCountAll<T>(s: seq<T>, keys: seq<T>)
    requires Distinct(keys)
    requires forall i :: 0 <= i < |s| ==> s[i] in keys
    ensures TotalCount(s, keys) == |s|
  {
    if s == [] {
      TotalCountNil(keys);
    } else {
      var init := s[..|s| - 1];
      assert s == init + [s[|s| - 1]];
      TotalCountAll(init, keys);
      TotalCountSnoc(init, s[|s| - 1], keys);
    }
  }
}
